# AssistantMD: verified models of its stateful core

AssistantMD is a self-hosted assistant server that keeps markdown vaults, chat sessions and its own
system databases. This project models the parts of it whose correctness is a property of whole runs
or whole structures, and proves those properties with Dafny. `dafny verify dfyconfig.toml` checks all
of it.

| file | part of the system |
|---|---|
| `VaultTree.dfy`, `BatchMove.dfy` | the Vault Explorer's batch move on trees: preflight, independence of the moves, and the tree each set of moves gives |
| `VaultText.dfy`, `MoveRequest.dfy`, `MoveExamples.dfy` | its path texts, the whole request with compensation from what the tree shows, and requests that end otherwise than expected |
| `RateLimit.dfy`, `Middleware.dfy`, `Logins.dfy` | the authentication failure limiter, the ASGI middleware in front of the application, and the login endpoint beside it |
| `ActivityPrune.dfy`, `ActivityQuery.dfy` | retention of activity-log segments, and keyset paging with encoded cursors |
| `Calendar.dfy`, `Cache.dfy` | rendered timestamps, and the authoring cache with its two definitions of "expired" |
| `Base64Url.dfy`, `Json.dfy`, `Session.dfy` | the signed owner-session cookie and the text formats beneath it |
| `Ingress.dfy` | the middleware together with the session cookie |
| `Migrations.dfy`, `Backups.dfy` | resumable migrations, migration backups, and the organizing of legacy backups |
| `Preflight.dfy` | the advanced-shell readiness cache under an asynchronous lock |
| `Timeline.dfy`, `TimelinePages.dfy` | projection of canonical chat history into rows, with their tool-call summaries, and into pages |
| `Settings.dfy` | reconciliation of stored settings with the packaged template |
| `ChildPaging.dfy` | offset paging over the direct children of a vault directory |
| `Common.dfy`, `Text.dfy`, `Sorting.dfy` | shared results, numerals and text order, stable sorting and filtering |

State that the program updates in place is a class whose methods are proved against a step function;
loops are methods proved against a specification function; the lemmas are about those functions.
A file-system call, a clock, a random token, an HMAC or a SHA-256 digest is a parameter: each move is
given an outcome (completes, or raises before or after taking effect), each limiter call a clock
reading, and the results hold for every choice of them. Paths are sequences of components, a tree is a
finite map from paths to nodes, and a database transaction is one atomic step.

In eight places the code does not do, for every input, what its description or a first reading
suggests. Each has an input where it does not, and the exact condition under which it does:

- A batch move strips white space from the ends of every path text again before each single move,
  while preflight and compensation look at the paths as they were. A move acts on its own source and
  target exactly when neither text begins or ends with white space (`MoveRequest.ActsOnItsPathsIff`);
  then the request is all-or-nothing (`MoveRequest.RequestEnds`). Otherwise an item can land elsewhere
  and be reported as ambiguous, with no fault at all (`MoveExamples.SpaceLeavesAFileAstray`); no file
  is ever lost or overwritten (`MoveRequest.RequestRearranges`).
- The write that closes a batch move's activity comes after compensation could run. If it fails after
  successful moves, the request raises and everything stays moved (`MoveRequest.RaisedRequestLeaves`,
  `MoveExamples.UnfinishedActivityKeepsTheMoves`).
- An HTTP request whose path is not absolute, such as `OPTIONS *`, makes the middleware raise while
  it builds the route to compare. It is neither admitted nor refused (`Middleware.AdmittedIff`,
  `Middleware.RelativePathRaises`).
- A login waits for its body between asking the limiter and recording a failure, so a window can hold
  more failures than the limit: at most the limit and the logins in flight at once
  (`Logins.MixedRunGuarantees`, `Logins.LoginsInFlightExceedTheLimit`). Without logins it holds at
  most the limit (`Middleware.FreshRunGuarantees`).
- A timeline page shows a tool call's summary only if the call's return is on that page. Its rows are
  otherwise those of the whole history (`TimelinePages.PageShowsTheRows`,
  `TimelinePages.LateReturnLosesTheSummary`).
- Session issue times use `int()`, which truncates toward zero. A cookie issued before 1970 at a
  fraction of a second is not valid at its own issue time (`Session.UsableAtIssue`,
  `Session.UnusableBeforeEpoch`).
- Following activity cursors loses records exactly when a page boundary separates two records with
  one key. The ordinal rules that out while segments have at most 10^9 lines
  (`ActivityQuery.FollowCompleteIff`, `ActivityQuery.OverlongSegmentLosesARecord`).
- Child paging advances its offset by the items returned but skips by eligible children, so a child
  without a reference can make later pages repeat items. Pages never omit one
  (`ChildPaging.FollowExactIff`, `ChildPaging.GapRepeats`).

## Model

| member | source | states |
|---|---|---|
| `Text.StripMeaning` | api/services/vault_files.py:115-115 | Stripping takes white space off both ends, all of it and nothing else |
| `Text.SplitMeaning` | api/services/vault_files.py:122-122 | The parts of a text hold no separator, and joined by it they are the text |
| `Text.ContainsMeaning` | core/activity_log.py:174-174 | A text contains another exactly when that stands somewhere in it |
| `Text.LowerMeaning` | core/authentication/middleware.py:239-239 | Lower case changes the letters A to Z and nothing else |
| `Text.LessMeaning` | core/activity_log.py:60-61 | A text is less than another exactly when, where they first differ, it ends or has the smaller character |
| `VaultText.NormalizeKeepsPathIff` | core/vault_state/pathing.py:79-81 | Normalizing a path text without separators at its ends keeps the path it names if and only if the text neither begins nor ends with white space |
| `VaultText.LandingKeepsPathIff` | api/services/vault_files.py:1270-1271 | The same for a destination text, which is normalized twice |
| `VaultText.AcceptedText` | api/services/vault_files.py:114-138 | An accepted path text has no separator at its ends, names a path below the root, does not begin with white space, and is accepted again as it is unless it ends with white space |
| `VaultText.AcceptIff` | api/services/vault_files.py:114-136 | A path text is accepted if and only if, stripped, it is not empty, begins with no separator and no drive, has no part "." or "..", no control character and at most 1000 characters |
| `VaultText.AcceptNames` | api/services/vault_files.py:114-138 | An accepted text names the path of the whole text the caller gave, stripped and with its separators turned |
| `VaultText.NoDotsIff` | core/vault_state/pathing.py:61-63 | A text is free of traversal exactly when it contains no two dots in a row |
| `VaultText.RenderGood` | api/services/vault_files.py:995-995 | The text of a target names the target |
| `MoveRequest.PlannedIff` | api/services/vault_files.py:917-974 | The checks before the lock pass if and only if there are two sources or more, every text is accepted and free of traversal, and the sources are pairwise apart: the duplicate and prefix checks reject nothing more |
| `MoveRequest.PlannedPaths` | api/services/vault_files.py:941-974 | The items of a planned request are the paths of the given source texts, and the folder that receives them is the path of the whole destination text, or the root when that is blank |
| `MoveRequest.RefusedAs` | api/services/vault_files.py:917-972 | Which refusal a request gets, each with the condition that the checks before it pass |
| `BatchMove.TargetsCollide` | api/services/vault_files.py:1096-1101 | The set-size test finds a collision exactly when two targets are equal |
| `BatchMove.PreflightItemMeaning` | api/services/vault_files.py:1103-1129 | Which check an item fails, each given that the ones before it pass: no source, the same place, a directory moved into itself, or a target that exists |
| `BatchMove.Preflight` | api/services/vault_files.py:1082-1129 | Succeeds if and only if the batch is admissible; otherwise names the first failing check in order, with the exact condition of each |
| `BatchMove.AdmissibleIsIndependent` | api/services/vault_files.py:959-974 | The checks together make every source and target apart from every other, and every target free with its whole subtree |
| `BatchMove.PlacedPresence` | api/services/vault_files.py:989-1006 | In every intermediate tree each later source still exists and its target is free; each moved item is at its target and its source is free |
| `BatchMove.PlacedForward` | api/services/vault_files.py:989-1006 | Renaming one more item takes the tree determined by the set of moved items to the tree of the larger set, whatever the order |
| `BatchMove.PlacedBackward` | api/services/vault_files.py:1054-1070 | Renaming an item back takes the tree of the moved set to the tree without that item |
| `BatchMove.PlacedMeaning` | api/services/vault_files.py:989-1006 | The tree of any set of moved items is one simultaneous relocation: each moved subtree node for node at its target, nothing left at its source, every other path as before |
| `BatchMove.PlacedConserves` | api/services/vault_files.py:986-1034 | No node is lost or duplicated whatever has moved, and a tree with something moved differs from the starting one |
| `VaultTree.RelocateWellFormed` | core/vault_state/file_mutations.py:1001-1090 | A rename to a free target in an existing directory leaves a tree in which every node has a parent directory |
| `MoveRequest.ActsOnItsPathsIff` | api/services/vault_files.py:1270-1287 | A move with an accepted destination acts on the paths it was given if and only if neither text begins or ends with white space |
| `MoveRequest.SpacedTargetMisses` | api/services/vault_files.py:1262-1294 | After a completed move whose destination text has such space, nothing is at its target; the item is gone from its source exactly if it was at or below the normalized source, so compensation finds it ambiguous or takes it for unmoved |
| `MoveRequest.RequestRearranges` | api/services/vault_files.py:910-1079 | Every request, whatever its texts and failures, leaves each file somewhere in the vault with its content, no two in one place, and no file besides |
| `MoveRequest.ForwardStep` | api/services/vault_files.py:989-1006 | With texts that have no such space, a forward move passes every check, creates no directory, and places its item or changes nothing, including when it raises after taking effect; one whose target text is refused changes nothing |
| `MoveRequest.BackwardStep` | api/services/vault_files.py:1054-1074 | A compensating move likewise returns its item or changes nothing; its destination text is never refused |
| `MoveRequest.RestoreStep` | api/services/vault_files.py:1057-1078 | One item is restored from what the tree shows; an error is reported exactly when it stays at its target, never an ambiguity |
| `MoveRequest.RestoreReports` | api/services/vault_files.py:1057-1078 | Whatever the texts, an item is reported as ambiguous exactly when the tree has both its paths or neither, and otherwise as an error exactly when the move back raised and left it elsewhere than at its source alone |
| `MoveRequest.RestoreAllEnds` | api/services/vault_files.py:1044-1079 | From any set of moved items the reverse pass leaves, and reports, exactly the items whose compensating move took no effect |
| `MoveRequest.MovesEnd` | api/services/vault_files.py:989-1006 | The moves end with the items moved that the first failure leaves moved, and succeed exactly when all complete |
| `MoveRequest.TransactionEnds` | api/services/vault_files.py:986-1028 | For every choice of outcomes: all moved if and only if every move completes; otherwise the error is raised again if and only if the tree is exactly as it started, and the uncertain error names exactly the items left at their targets |
| `MoveRequest.RequestEnds` | api/services/vault_files.py:910-1034 | The whole request, with the write that closes its activity: rejected with nothing changed exactly when a check fails; otherwise, with texts that have no white space at their ends, exactly the items are moved that the outcomes leave moved, and each result has its exact condition |
| `MoveRequest.CompletedRequest` | api/services/vault_files.py:986-1034 | After a request that returns normally, with texts that have no white space at their ends, each item stands node for node under its own name in the folder the destination text names, nothing is left where it was, and every path outside is as before |
| `MoveRequest.RaisedRequestLeaves` | api/services/vault_files.py:986-1028 | Such a request that raises leaves the starting tree exactly when some move does not complete and every item moved by then is moved back; it leaves everything moved exactly when only closing the activity fails, or when the last move raises after taking effect and no item is moved back |
| `MoveRequest.Vault.Move` | api/services/vault_files.py:1262-1294 | The method moves the paths of the normalized texts, after its checks on the paths given, as the move function does |
| `MoveRequest.Vault.RestoreItem` | api/services/vault_files.py:1057-1078 | The branches of the loop body act as the restoring function |
| `MoveRequest.Vault.Compensate` | api/services/vault_files.py:1044-1079 | The reverse loop leaves the tree and the errors of the recursive definition, in order |
| `MoveRequest.Vault.RunMoves` | api/services/vault_files.py:986-1028 | The forward loop and its error path carry out the transaction |
| `MoveRequest.Vault.MoveBatch` | api/services/vault_files.py:910-1034 | The method carries out the whole request, for every tree and all texts |
| `MoveExamples.UnfinishedActivityKeepsTheMoves` | api/services/vault_files.py:1305-1324 | A request whose moves complete and whose activity cannot be closed: it raises, and both files are moved |
| `MoveExamples.LandingOnAnotherTarget` | api/services/vault_files.py:989-1079 | Any two items of which the first lands, stripped, on the target of the second: nothing fails by itself, both are reported as ambiguous, and the first is left at a path that is not its own |
| `MoveExamples.SpaceLeavesAFileAstray` | api/services/vault_files.py:989-1079 | A vault and a request for which that happens |
| `RateLimit.PruneCounts` | core/authentication/rate_limit.py:57-64 | A pruned deque holds as many failures as counting those of the whole history inside the window |
| `RateLimit.LookupRefines` | core/authentication/rate_limit.py:35-40 | A lookup answers as the limiter that keeps whole histories does, and leaves the two coupled |
| `RateLimit.LimitedIff` | core/authentication/rate_limit.py:35-40 | A lookup says limited if and only if at least the limit of the peer's failures, since its last success or eviction, are later than the start of the window |
| `RateLimit.EvictCoupled` | core/authentication/rate_limit.py:42-50 | Dropping entries from the front evicts exactly the least recently touched peers |
| `RateLimit.FailureRefines` | core/authentication/rate_limit.py:42-50 | Recording a failure appends to the whole history and evicts by last touch |
| `RateLimit.StepRefines` | core/authentication/rate_limit.py:35-64 | Every operation keeps the coupling and gives the same answer |
| `RateLimit.RunRefines` | core/authentication/rate_limit.py:35-64 | Over every run with a nondecreasing clock, from coupled states, the bounded pruning limiter answers as the naive one |
| `RateLimit.FreshRunRefines` | core/authentication/rate_limit.py:18-64 | The same from a new limiter |
| `RateLimit.StepTidy` | core/authentication/rate_limit.py:35-64 | Keys stay distinct and ordered by last failure; after a failure the size is within the maximum and the failing peer is the most recent entry; a lookup adds at most one entry |
| `RateLimit.AuthenticationFailureLimiter.ActiveFailures` | core/authentication/rate_limit.py:57-64 | The pruning loop implements lookup with pruning on the ordered dictionary |
| `RateLimit.AuthenticationFailureLimiter.IsLimited` | core/authentication/rate_limit.py:35-40 | The new dictionary and the answer are the lookup step's |
| `RateLimit.AuthenticationFailureLimiter.RecordFailure` | core/authentication/rate_limit.py:42-50 | The new dictionary is the failure step's, eviction loop included |
| `RateLimit.AuthenticationFailureLimiter.RecordSuccess` | core/authentication/rate_limit.py:52-55 | The new dictionary is the success step's: that peer's entry removed, no other changed |
| `Middleware.HeadersWithinLimit` | core/authentication/middleware.py:317-331 | Stopping at the first malformed or excessive header decides the same as adding up all of them |
| `Middleware.HeaderValues` | core/authentication/middleware.py:228-241 | Collects exactly the values under a name, or nothing when any header is malformed |
| `Middleware.CookieNameCount` | core/authentication/middleware.py:244-252 | Counts the pairs of the cookie header that carry the name |
| `Middleware.OnlyAdmittedScopesPass` | core/authentication/middleware.py:68-170 | An HTTP or WebSocket scope whose method and path are no public route reaches the application only authenticated, with that identity, and past the CSRF check if it was an unsafe owner-session request |
| `Middleware.AdmittedIff` | core/authentication/middleware.py:74-134 | A scope that is no public route reaches the application if and only if its headers are within the limit, an HTTP path is absolute, fewer than the limit of its peer's whole history lie in the window, it authenticates and any needed CSRF check passes; each refusal status, the redirect to the login page, and raising have their exact conditions |
| `Middleware.OpenRequestByMode` | core/authentication/middleware.py:101-170 | For each mode, when such a request that is not limited reaches the application, and under which identity: with protection disabled always; from loopback exactly if the peer is loopback; behind a proxy exactly if the checker accepts the single assertion header; with Authorization headers exactly if there is one, no session cookie, and its bearer token matches; otherwise exactly if the one session cookie verifies and an unsafe method carries the CSRF proof |
| `Middleware.LetThrough` | core/authentication/middleware.py:74-90 | Scopes of another kind, and public routes within the header limit, pass with no identity and leave the limiter alone |
| `Middleware.VerbMeaning` | core/authentication/middleware.py:78-78 | The method is that of the scope in upper case, and "GET" when there is none |
| `Middleware.BearerTokenMeaning` | core/authentication/middleware.py:255-262 | The bearer token is what follows the one space of the single Authorization header, not empty and without a space, if what goes before is "bearer" in any case |
| `Middleware.SingleHeaderMeaning` | core/authentication/middleware.py:218-241 | A single header is the value of the one header whose name, in lower case, is the given one; with none, several or a malformed header there is none |
| `Middleware.NamesMeaning` | core/authentication/middleware.py:248-251 | A pair of the cookie header carries a name exactly when, stripped, it begins with the name and an equals sign |
| `Middleware.WithinLimitMeaning` | core/authentication/middleware.py:317-331 | Headers are within the limit exactly when each is well formed and all names and values have at most 65536 bytes |
| `Middleware.HeaderBytesAppend` | core/authentication/middleware.py:321-328 | The bytes of two lists of headers add up |
| `Middleware.RequestRecords` | core/authentication/middleware.py:92-117 | A refused authentication adds its time to the failures counted for its peer, an accepted one clears them even if the CSRF check then fails, and any other outcome leaves them |
| `Middleware.RelativePathRaises` | core/authentication/middleware.py:31-34 | A request for `*` raises even with protection disabled, and leaves the limiter alone |
| `Middleware.AuthenticateScope` | core/authentication/middleware.py:136-192 | The procedure, with its header and cookie loops, decides as the authentication function |
| `Middleware.MatchingMeaning` | core/authentication/middleware.py:228-241 | There are as many values as headers with the name, and each is the value of one |
| `Middleware.MatchingAppend` | core/authentication/middleware.py:228-241 | Values keep the order of their headers |
| `Middleware.CountNamedMeaning` | core/authentication/middleware.py:244-252 | The count is the number of pairs that carry the name |
| `Ingress.IssuedCookieAdmittedIff` | core/authentication/middleware.py:136-207 | A request that brings back an issued cookie reaches the application, under that session, if and only if its peer is not limited, the time is within the cookie's lifetime and an unsafe method carries the CSRF token that was issued with it |
| `Middleware.FailureSpaced` | core/authentication/middleware.py:92-103 | A failure evaluated while the peer was not limited keeps any limit + 1 failures a window apart |
| `Middleware.RequestKeeps` | core/authentication/middleware.py:68-134 | Every request keeps the coupling with the naive limiter, the bound on stored peers and the spacing of failures, and has the same outcome |
| `Middleware.RunGuarantees` | core/authentication/middleware.py:68-134 | Over every sequential run, with any verification time for each request so that sessions may expire during it, the outcomes are those of the naive limiter and every peer's failures since its last success or eviction stay spaced |
| `Middleware.FreshRunGuarantees` | core/authentication/middleware.py:68-134 | From a new limiter the outcomes are those of the naive one, the stored peers stay within their maximum, and of every peer's failures since its last success or eviction any that are `limit` or more positions apart span at least the window |
| `Middleware.WindowHoldsAtMostLimit` | core/authentication/rate_limit.py:35-40 | Spacing read as a window: failures that are `limit` or more positions apart span at least the window |
| `Middleware.AuthenticationMiddleware.Call` | core/authentication/middleware.py:68-134 | The method changes the shared limiter and answers as the request function does |
| `Logins.SectionRefines` | api/authentication.py:43-79 | Each section of a login, and each request of the middleware, answers on the shared limiter as on the naive one |
| `Logins.RepliesRefine` | api/authentication.py:43-79 | So does every run of them in any order |
| `Logins.SectionKeeps` | api/authentication.py:53-64 | Every section keeps a peer's failures in the window and its logins in flight together within the limit and the most logins in flight at once |
| `Logins.MixedRunGuarantees` | api/authentication.py:43-79 | Over every run from a new limiter the replies are the naive ones, and no window holds more failures of a peer, since its last success or eviction, than the limit and the most logins in flight at once |
| `Logins.NoLoginsIsSpaced` | core/authentication/rate_limit.py:35-50 | With no login in flight the bound is the spacing that the middleware alone guarantees |
| `Logins.LoginsInFlightExceedTheLimit` | api/authentication.py:53-64 | Two logins in flight that both fail inside one window under a limit of one |
| `ActivityPrune.SegmentsSorted` | core/activity_log.py:45-64 | Segments are exactly the recognized files, from oldest to newest by modification time and then by name, whatever order the directory lists |
| `ActivityPrune.SegmentIff` | core/activity_log.py:49-59 | A file is a segment exactly when it is a regular file whose name is that of the log, a dot and something that begins with a digit, and does not end with ".lock" |
| `ActivityPrune.SegmentsAfter` | core/activity_log.py:67-110 | Removing the segments before a cut leaves a folder whose segments are those after it |
| `ActivityPrune.SurvivesIff` | core/activity_log.py:87-104 | Removing the segments before a cut removes those files and no other |
| `ActivityPrune.SizeOfParts` | core/activity_log.py:97-103 | The total size of some segments is the sum of their sizes |
| `ActivityPrune.ActiveSizeOf` | core/activity_log.py:78-78 | The size counted for the active log is that of the file with its name, or zero |
| `ActivityPrune.CutMeaning` | core/activity_log.py:87-104 | The survivors are the longest suffix of unexpired segments that fits the byte budget, and none if the active log alone exceeds it |
| `ActivityPrune.PruneAgainRemovesNothing` | core/activity_log.py:67-110 | Pruning again at the same time deletes nothing |
| `ActivityPrune.LogFolder.RemoveExpired` | core/activity_log.py:87-97 | The first loop deletes exactly the segments before the cutoff, which are a prefix, and adds up the rest |
| `ActivityPrune.LogFolder.RemoveOversized` | core/activity_log.py:99-104 | The second loop deletes the fewest oldest segments that make the total fit |
| `ActivityPrune.LogFolder.Prune` | core/activity_log.py:67-110 | Deletes a prefix of the chronological list up to the cut; the reported bytes are the active size plus the surviving sizes, and the two counters split the deleted prefix |
| `ActivityQuery.CollectSegment` | core/activity_log.py:147-185 | One segment's loop collects the matching events with their keys |
| `ActivityQuery.CollectRecords` | core/activity_log.py:140-185 | The loop over segments collects the matching events of the log in reading order |
| `ActivityQuery.CollectMember` | core/activity_log.py:140-185 | A record is collected if and only if some line of some segment gives it and passes the filters: not before the start or after the end, its level and tag among those asked for, and the searched text somewhere in it in lower case |
| `ActivityQuery.QueryLog` | core/activity_log.py:113-207 | The whole query answers with the page of the sorted matches below the cursor, or rejects a malformed cursor; without a cursor it has the smaller of the bounded limit and the number of matches, and a cursor exactly when more remain |
| `ActivityQuery.FirstPage` | core/activity_log.py:126-207 | For any limit, the first page has the first sorted matches, as many as there are up to the limit, which is 1 below 1 and 500 above 500, and a cursor if and only if more remain |
| `ActivityQuery.KeyOrder` | core/activity_log.py:179-189 | Keys compare by time stamp, then by digest, then by ordinal |
| `ActivityQuery.CollectIncreases` | core/activity_log.py:179-183 | Ordinals strictly increase along the log while no segment has more than 10^9 lines, so keys are distinct |
| `ActivityQuery.CursorRoundTrip` | core/activity_log.py:249-261 | Decoding a cursor gives the key it encodes, and no cursor is the empty text |
| `ActivityQuery.CursorIs` | core/activity_log.py:249-251 | The text a cursor encodes: an array of the time stamp, the digest and the ordinal |
| `ActivityQuery.FollowIsQuery` | core/activity_log.py:187-195 | Asking with a page's cursor leaves exactly the records below the last key returned |
| `ActivityQuery.ChainIsFollow` | core/activity_log.py:132-195 | Following cursor texts from page to page is working through the sorted list |
| `ActivityQuery.FollowCompleteIff` | core/activity_log.py:187-195 | The pages together are the sorted list if and only if no page boundary separates two records with one key |
| `ActivityQuery.PagesPartitionMatches` | core/activity_log.py:126-195 | With segments within the line bound, the pages are consecutive pieces of the limit, bounded by 1 and 500, together the matching records in descending key order, each once, with the total falling by the rows already returned |
| `ActivityQuery.NewestFirst` | core/activity_log.py:177-187 | Records are listed from newest to oldest to the millisecond |
| `ActivityQuery.LogNewestFirst` | core/activity_log.py:177-187 | The same for the records of any log whose events have representable times |
| `ActivityQuery.OverlongSegmentLosesARecord` | core/activity_log.py:179-189 | A log with an overlong segment whose pages lose a record |
| `Calendar.DateOrder` | core/activity_log.py:177-177 | Dates compare field by field exactly as their day numbers, over the whole Gregorian calendar |
| `Calendar.IsoSpaceOrder` | core/authoring/cache.py:253-260 | Text order of the space-separated form is chronological order, with or without the microsecond suffix, for any one rendered offset |
| `Calendar.IsoMillisOrder` | core/activity_log.py:177-189 | Text order of the millisecond form is the order of whole milliseconds |
| `Calendar.ParseRendered` | core/authoring/cache.py:56-65 | Reading back a rendered date-time gives it again |
| `Calendar.KnownDays` | core/authoring/cache.py:68-75 | The calendar on known days: the epoch, leap days and years without one, and the number of days of the years 1 to 9999 |
| `Calendar.KnownFields` | core/authoring/cache.py:68-75 | The fields of the epoch and of a moment after it |
| `Calendar.IsoTexts` | core/activity_log.py:177-177 | Both rendered forms, field by field with their widths and separators |
| `Cache.ValidUntilExpiry` | core/authoring/cache.py:78-130 | In every mode, with week arithmetic modulo 7, an entry is valid exactly from the start of its period until its computed expiry |
| `Cache.ValidIffNotExpired` | core/authoring/cache.py:78-130 | Once created, an entry is valid if and only if it has no expiry or the time is before it |
| `Cache.StoredIff` | core/authoring/cache.py:108-130 | An upsert is stored if and only if: for a session entry always; for a duration there is one and its end is a date-time of the years 1 to 9999; for a daily entry the next day is; for a weekly entry the start and the end of its week are; never in another mode. Otherwise nothing changes |
| `Cache.FoundIff` | core/authoring/cache.py:78-105 | A lookup of an entry just stored finds its content exactly in its own session, before its duration has passed, on its day or in its week, according to its mode |
| `Cache.OthersUnaffected` | core/authoring/cache.py:267-374 | Storing or looking up one key leaves the entry of every other |
| `Cache.PurgeDropsExpired` | core/authoring/cache.py:253-260 | The text comparison deletes exactly the rows whose expiry has passed |
| `Cache.StepRefines` | core/authoring/cache.py:242-374 | Every upsert, lookup and purge answers as the map that deletes nothing, filtered by validity and session key |
| `Cache.RunRefines` | core/authoring/cache.py:242-374 | Over every run with nondecreasing times the table and the never-deleting map give the same replies |
| `Cache.FreshRunRefines` | core/authoring/cache.py:242-374 | The same from an empty table |
| `Cache.ArtifactTable.UpsertArtifact` | core/authoring/cache.py:267-321 | Replaces the row of its key and no other, or refuses with nothing changed when the expiry cannot be computed, as the step of the table does |
| `Cache.ArtifactTable.GetArtifact` | core/authoring/cache.py:324-374 | Returns the stored row if it is valid and for this session; deletes an invalid one; a row of another session stays |
| `Cache.ArtifactTable.PurgeExpired` | core/authoring/cache.py:242-264 | Deletes the rows expired by text comparison and returns how many |
| `Base64Url.DecodeEncode` | core/authentication/session.py:148-158 | Decoding unpadded base64url (section 5 of RFC 4648) inverts encoding for every byte string |
| `Base64Url.EncodedText` | core/authentication/session.py:148-149 | Encoded segments never contain the separator, and have the unpadded length |
| `Base64Url.Alphabet` | core/authentication/session.py:148-149 | The 64 characters, in the order of section 5 of RFC 4648 |
| `Base64Url.GroupMeaning` | core/authentication/session.py:148-149 | Three bytes and the four characters of their group are the same number to the bases 256 and 64, groups follow one another, and a last group is filled up with zero bits |
| `Json.ReadPrintedItems` | core/authentication/session.py:78-80 | Reading a compact object or array of plain texts and integers gives back what was printed |
| `Json.PrintedText` | core/authentication/session.py:79-79 | What is printed is the items with single commas between them and the closing bracket |
| `Json.ReadNatIff` | core/authentication/session.py:164-164 | A number is read exactly where its numeral stands, with no leading zero and no digit after it |
| `Session.PayloadRoundTrip` | core/authentication/session.py:71-80 | The claims decoded from an issued payload are the claims written |
| `Session.PayloadIs` | core/authentication/session.py:71-80 | The signed text, member by member in the order of the keys, without spaces |
| `Session.HexRoundTrip` | core/authentication/session.py:192-197 | Reading a digest's hexadecimal form gives the digest |
| `Session.HexMeaning` | core/authentication/session.py:75-75 | Each byte is written as two lower-case digits, the higher one first |
| `Session.VerifiesExactlyWithinLifetime` | core/authentication/session.py:66-133 | An issued cookie verifies under its key at a time if and only if the time lies from the whole second of issue to before the whole second of expiry, which is the lifetime after the issue; then the CSRF token handed out with it passes, and any other exactly when it has the same digest |
| `Session.IssuedIff` | core/authentication/session.py:68-70 | A session is issued if and only if its expiry is a date-time of the years 1 to 9999 |
| `Session.WholeSecondsMeaning` | core/authentication/session.py:73-74 | A time in whole seconds is the nearest second toward 1970 |
| `Session.VerifiesIffGenuine` | core/authentication/session.py:88-133 | A cookie verifies to a session if and only if it has at most 4096 bytes in two segments, the second the signature of the first, which decodes to exactly the five claims, with version 1, representable times in order around now, a digest of 32 bytes and a nonce |
| `Session.SegmentsMeaning` | core/authentication/session.py:100-103 | A cookie has two segments exactly when it is two texts around its only dot |
| `Session.AcceptedIsSigned` | core/authentication/session.py:88-121 | Whatever verifies carries the signature of its own payload segment, is within its lifetime and has a digest of the right size |
| `Session.UsableAtIssue` | core/authentication/session.py:71-75 | With a lifetime of a second or more, a cookie verifies at its issue time if and only if that is not a fractional moment before 1970 |
| `Session.UnusableBeforeEpoch` | core/authentication/session.py:71-75 | A concrete moment at which a fresh cookie does not verify |
| `Migrations.ValidateMigrations` | core/database_migrations.py:99-112 | Accepts exactly lists with positive distinct versions and names that are not blank, and returns their rearrangement with strictly increasing versions |
| `Migrations.RunFromPrefix` | core/database_migrations.py:52-66 | A run from a state with the first migrations done ends with a longer or equal prefix done, stopping anywhere; a completed run has done all |
| `Migrations.AttemptsLeavePrefix` | core/database_migrations.py:52-66 | After any sequence of interrupted runs, over any initial parts of the list, the recorded versions and the contents are those of a prefix, each applied once |
| `Migrations.InterruptedRunsConverge` | core/database_migrations.py:36-72 | Any interrupted runs followed by one that completes give the contents and record of one uninterrupted run |
| `Migrations.NothingPendingAfter` | core/system_migrations.py:369-385 | After a completed run the status has nothing pending, whatever was recorded before |
| `Migrations.PendingMeaning` | core/system_migrations.py:369-385 | The pending versions are the listed ones that are not recorded under the namespace, and the skipped ones the rest |
| `Migrations.PendingInOrder` | core/system_migrations.py:369-385 | Both are listed in increasing order |
| `Migrations.Connection.ApplyOrdered` | core/database_migrations.py:48-72 | The loop performs the run; what it reports as applied is exactly what the status computed beforehand as pending, and as skipped the rest |
| `Migrations.Connection.ApplyMigrations` | core/database_migrations.py:28-72 | The whole call: refused with nothing changed exactly for a blank namespace or an unacceptable list, and otherwise the run under the stripped namespace |
| `Backups.NumberedInjective` | core/migration_backups.py:23-23 | Numbered variants of a name differ |
| `Backups.Pigeonhole` | core/migration_backups.py:22-26 | Finitely many files cannot occupy every variant, which is why the search ends |
| `Backups.NextAvailable` | core/migration_backups.py:17-26 | The search ends with an unused name: the base name, or, when that is taken, the base name with the smallest number from 2 on, in parentheses, that makes an unused one |
| `Backups.RecognizedIff` | core/migration_backups.py:49-54 | A file is a legacy backup exactly when its name contains ".db.backup-" or is one of the two known names |
| `Backups.PlacedAt` | core/migration_backups.py:57-59 | Each moved backup has, under its new name, the content it had in the root |
| `Backups.MovedConserves` | core/migration_backups.py:46-60 | The multiset of file contents over the root and the backup directory together is unchanged |
| `Backups.OrganizeAgain` | core/migration_backups.py:46-60 | A second call, after one that succeeded, changes nothing and returns zero |
| `Backups.SystemRoot.PreparePath` | core/migration_backups.py:29-33 | Gives a fresh name, or fails exactly when a file stands where the directory should be |
| `Backups.SystemRoot.OrganizeLegacy` | core/migration_backups.py:46-60 | Every recognized backup moves, in name order, to the first unused variant of its own name, nothing is overwritten, none is left in the root, the count is the number moved, and the contents are conserved |
| `Backups.BackupFolder.BackupPending` | core/system_migrations.py:480-514 | Each existing target with pending versions gets its own fresh copy of its content, under the first unused variant of its file name with the time stamp; older files stay and there is no other new file; a failed check removes its copy and stops there, and a file in the place of the directory stops before the first copy |
| `Preflight.StepKeeps` | core/advanced_shell/preflight.py:76-115 | Every atomic section between suspensions keeps the relation of the service's fields to its history |
| `Preflight.SectionMeaning` | core/advanced_shell/preflight.py:76-115 | What each section adds to the history, read off the history alone: a state that differs from the last published one is published; the last stored result is returned exactly while it is fresh; otherwise the caller waits, or starts a check when the lock is free |
| `Preflight.NeverStuck` | core/advanced_shell/preflight.py:76-90 | A caller outside may always call, one that waits may acquire the lock once it is free, one that checks may finish, and any suspended one may be cancelled |
| `Preflight.EveryHistoryIsOk` | core/advanced_shell/preflight.py:76-115 | In every interleaving of callers, cancellations included: a check starts only with none in flight and cache_seconds after every stored result; each returned snapshot is the caller's own or was stored less than cache_seconds before the caller's reading; published states never repeat consecutively; and the state of a finished check, or of a disabled service, is the last published when its caller gets it |
| `Preflight.AtMostOneInFlight` | core/advanced_shell/preflight.py:83-90 | At any point of such a history at most one check is in flight |
| `Preflight.StartsAreSpaced` | core/advanced_shell/preflight.py:84-89 | In every interleaving a check starts at least cache_seconds after any result stored before it |
| `Preflight.AdvancedShellPreflight.Call` | core/advanced_shell/preflight.py:76-90 | From the call to its result or first suspension, the fields and the lock change as that section, and what is returned is what the history records |
| `Preflight.AdvancedShellPreflight.Resume` | core/advanced_shell/preflight.py:83-87 | Acquiring the lock after waiting looks at the cache again before starting a check |
| `Preflight.AdvancedShellPreflight.CheckDone` | core/advanced_shell/preflight.py:87-90 | A finished check is stored with its time, published if changed and returned to its caller, and the lock is free |
| `Preflight.AdvancedShellPreflight.Stop` | core/advanced_shell/preflight.py:83-87 | An exception or cancellation releases the lock, or leaves the queue, and stores nothing |
| `Preflight.AdvancedShellPreflight.PublishState` | core/advanced_shell/preflight.py:92-115 | Reports a state exactly when it differs from the last reported one |
| `Timeline.RowBlock` | api/services/chat_sessions.py:705-794 | Each row comes from one block of consecutive messages, cut off from its neighbours, whose projection alone is that row and whose ends are its boundary |
| `Timeline.RowsAreOrdered` | api/services/chat_sessions.py:689-703 | For a strictly increasing history, rows have disjoint increasing intervals |
| `Timeline.UserRowsAreUserMessages` | api/services/chat_sessions.py:782-792 | The user rows are exactly the user messages without tool parts, each once and in order |
| `Timeline.VisibleInExactlyOneRow` | api/services/chat_sessions.py:724-794 | Each turn message with visible text, thinking or a call id, and each user message, lies in exactly one row |
| `Timeline.CallsMeaning` | api/services/chat_sessions.py:727-734 | A turn's call ids are exactly the non-empty ids its messages declare, without repetition |
| `Timeline.ReturnsMeaning` | api/services/chat_sessions.py:735-742 | The same for return ids |
| `Timeline.CallsInOrder` | api/services/chat_sessions.py:727-734 | Ids are listed by first appearance: those of a turn cut short anywhere, also inside a message, begin those of the turn |
| `Timeline.ReturnsInOrder` | api/services/chat_sessions.py:735-742 | The same for return ids |
| `Timeline.JoinAppend` | api/services/chat_sessions.py:743-750 | The texts of two lists join to those of the first, a blank line, and those of the second, or to one of them when the other has none |
| `Timeline.TurnRowMeaning` | api/services/chat_sessions.py:743-780 | A turn has a row if and only if one of its messages has something to show; its text and thinking are those of the messages before any cut, a blank line, and those after it, and of a single message its stripped text; its ids are those of the turn; its fork point is the last one in the turn |
| `Timeline.RowsOfOne` | api/services/chat_sessions.py:782-793 | The rows of one message: a tool or assistant message that shows something is a turn of its own, a user message a user row, and any other none |
| `Timeline.RunIsOneTurn` | api/services/chat_sessions.py:786-793 | A maximal run of tool and assistant messages shares one row, between the rows before and after it |
| `Timeline.RangeReprojects` | api/services/chat_sessions.py:613-630 | Projecting only the messages between two rows' boundaries gives exactly the rows from one to the other, with boundary, text, call ids, return ids and fork point |
| `TimelinePages.EffectiveToolCallIds` | api/services/chat_sessions.py:1200-1215 | The loop finds the called ids, by first call, that some message returns |
| `TimelinePages.EffectiveMember` | api/services/chat_sessions.py:1200-1215 | An id is effective if and only if it is not empty, some message calls it and some message returns it |
| `TimelinePages.EffectiveToolCallInfo` | api/services/chat_sessions.py:1172-1197 | There is a summary for exactly the effective calls that are declared once and have unambiguous events |
| `TimelinePages.CanonicalItems` | api/services/chat_sessions.py:705-794 | The fold with a pending turn yields, block by block, one row per visible maximal run of turn messages and one per user message, each with the summaries of its calls |
| `TimelinePages.ItemMeaning` | api/services/chat_sessions.py:754-792 | Each row becomes one item; a user row has no summaries, and a turn has, in the order of its calls, the known summaries of those that some projected message returns |
| `TimelinePages.ProjectBoundaries` | api/services/chat_sessions.py:558-686 | A page has one item per requested boundary, in order, or is an error; it is a page exactly when each boundary is found in the page's projection or in that of its own interval |
| `TimelinePages.PageShowsTheRows` | api/services/chat_sessions.py:567-630 | A page asked for the boundaries of consecutive rows finds exactly those rows; the item it shows is that of the whole history if and only if every known call of the row that returns in the history returns inside the page |
| `TimelinePages.RowReprojectsIff` | api/services/chat_sessions.py:613-630 | Projecting the messages of one row alone gives that row alone, and its item under the same condition |
| `TimelinePages.LateReturnLosesTheSummary` | api/services/chat_sessions.py:1200-1215 | A history in which the page of a row lacks the summary that the whole history shows |
| `Settings.AddSections` | api/services/configuration.py:121-130 | In whatever order the template is visited, each of its dictionary sections ends up under the active entries |
| `Settings.DescribeSettings` | api/services/configuration.py:134-145 | The metadata loop fills absent or null metadata of existing settings and nothing else |
| `Settings.CompleteProviders` | api/services/configuration.py:149-164 | The provider loop adds missing fields and fills a null provider and nothing else |
| `Settings.PruneLoop` | api/services/configuration.py:182-203 | The loop removes exactly the entries that are neither in the template nor kept |
| `Settings.RepairSettings` | api/services/configuration.py:113-207 | The successive loops compute the reconciliation, or fail as it does |
| `Settings.ReconcileSettles` | api/services/configuration.py:113-207 | The five passes equal one direct computation per section from that section of both inputs; they would fail only if neither input had a dictionary of settings |
| `Settings.UpgradedNeverFails` | core/settings/upgrades.py:107-112 | Reconciling a mapping with a dictionary of settings, as the upgrade always supplies, never fails |
| `Settings.ReconcileIdempotent` | api/services/configuration.py:113-207 | Reconciling the result with the same template changes nothing |
| `Settings.SettingsFollowTemplate` | api/services/configuration.py:134-172 | The settings are exactly the template's; one already stored keeps its value and every field except null metadata |
| `Settings.OthersKeptVerbatim` | api/services/configuration.py:174-207 | A tool or provider outside the template stays, unchanged, if and only if it says that it is user-editable; a model unless it says that it is not and has no managed id; every template entry is present |
| `Settings.OtherSections` | api/services/configuration.py:120-130 | Any other section of the template gains exactly the entries it lacked, and a section the template does not have as a dictionary is as it was |
| `Settings.ProviderFields` | api/services/configuration.py:149-164 | A provider keeps every field it had, except a null provider, and gains every field of the template |
| `ChildPaging.ListChildren` | api/services/vault_files.py:622-721 | A page is the first references after the skipped children, as many as there are up to the limit, which is 100 for zero or more than 100 and at least 1; it is truncated exactly when that many come before the last child, and then the next offset follows |
| `ChildPaging.NextOffset` | api/services/vault_files.py:719-719 | A reported next offset lies inside the directory and is where the following page starts, so following offsets ends |
| `ChildPaging.FollowOmitsNone` | api/services/vault_files.py:1420-1450 | Following the offsets returns every reference at least as often as the listing has it |
| `ChildPaging.FollowExactIff` | api/services/vault_files.py:1420-1450 | The pages together are the listing if and only if, at the page block of the first child without a reference, fewer than `limit` references remain before the last child |
| `ChildPaging.AllListable` | api/services/vault_files.py:1420-1450 | When every eligible child has a reference, the pages are an exact partition of the ordered children |
| `ChildPaging.ListingInOrder` | api/services/vault_files.py:1431-1435 | The listing has exactly the entries that are shown and have a reference, each as often as the directory has it, directories first and by lower-case name; the offsets count the shown entries |
| `ChildPaging.GapRepeats` | api/services/vault_files.py:1436-1449 | A directory whose pages repeat items |

## Left out

- Symlinks: a path text names the path of its components.
- Refusal of a file move whose target lies under a virtual mount: one of the ways in which a move may raise before it takes effect.
- Journals, snapshots and activity records of a single vault move: a move is its effect on the tree, and it takes effect wholly or not at all; of the batch's own activity only whether closing it succeeds.
- Other writers of the vault during a batch: the mutation lock excludes them.
- Floating-point rounding of clock readings and file times: clocks are reals or whole microseconds, and a modification time is compared with the cutoff on one scale.
- Letters and digits beyond ASCII in case folding and digit tests: `lower`, `upper`, `isdigit` and `isalpha` are modelled on ASCII.
- Files that vanish between two looks at the log folder: the folder changes only by the pruning itself.
- Lines of the activity log beyond time, level, tag and text, and the page's lists of available levels and tags: a blank, unparsable or undated line is one that is ignored, and filters arrive already normalized.
- Liberal cursors: characters outside the base64url alphabet, JSON with white space, escapes or other shapes, and negative ordinals are rejected by the model where the code may accept them; cursors made by the program are unaffected.
- General JSON in session payloads: white space, escapes, non-ASCII text, nested values and booleans, which no issued payload contains; and white space inside a hexadecimal digest.
- Time zones in the cache: times are naive; the text order is proved for any one common offset, not for rows written under different offsets, and a fold in local time is not modelled.
- Metadata, origin, last access time in a returned artifact: stored or returned without a decision depending on them.
- Cache.IsValid: compares weeks that begin before the first representable date, where the code raises.
- HMAC-SHA-256 and SHA-256: arbitrary functions with 32-byte results; nothing is claimed about forging.
- SQL, SQLite's handling of schema changes inside a transaction, and journal recovery: a migration's transaction is atomic.
- The order of phases in a system migration run, and the atomic reservation of a backup name: single calls with nothing to relate.
- The SSH check itself and the classification of its result: any result may come back.
- Fairness of the asynchronous lock: any waiting caller may be next, though a new caller never overtakes one.
- The contents of a tool-call summary, message projection and the query that supplies page boundaries: inputs of the timeline model.
- The standard library's cookie parser: `Ingress` takes it as a function that reads the issued cookie back out of the header that carries it.
- Upgrading the settings mapping, validating the result and saving it: the reconciliation starts from the upgraded mapping. Sharing of template dictionaries with the result is not modelled; `Settings.FillSelf` shows that filling a shared entry from itself changes nothing.
- The order of keys in a settings dictionary.
- Searching and favourites in the file picker, and moves of single paths, deletions and uploads: they would add only easy members.
- The HTTP request layer, workflows, imports, and the user interface.
