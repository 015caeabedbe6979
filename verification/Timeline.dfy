/** Projection of canonical chat history into user rows and assistant-turn rows, apart from the
    tool-call summaries of a row. */
module Timeline {
  import opened Common
  import opened Text

  datatype Role = User | Assistant | OtherRole

  /** One message as projected for display. */
  datatype Message = Message(
    index: int, role: Role, isTool: bool, content: string, thinking: string,
    callIds: seq<string>, returnIds: seq<string>, fork: Option<int>)

  datatype Row =
    | UserRow(message: Message)
    | TurnRow(first: int, last: int, content: string, thinking: string,
              callIds: seq<string>, returnIds: seq<string>, fork: Option<int>)

  /** First and last message index of a row, and whether it is of the kind "tool". */
  datatype Boundary = Boundary(start: int, end: int, tool: bool)

  /** The paging identity of a row; projected rows have the role user or assistant, never tool. */
  function BoundaryOf(r: Row): Boundary {
    match r
    case UserRow(m) => Boundary(m.index, m.index, false)
    case TurnRow(a, b, _, _, _, _, _) => Boundary(a, b, false)
  }

  predicate InTurn(m: Message) { m.isTool || m.role.Assistant? }

  predicate IsUser(m: Message) { !m.isTool && m.role.User? }

  // ---------------------------------------------------------------------------
  // Text and identifiers of a turn

  /** Two texts with a blank line between them, if both have something. */
  function Joined(a: string, b: string): string { if b == "" then a else if a == "" then b else a + "\n\n" + b }

  /** Stripped texts that are not empty, joined by blank lines. */
  function JoinTexts(texts: seq<string>): string {
    if texts == [] then "" else Joined(JoinTexts(texts[..|texts| - 1]), Strip(texts[|texts| - 1]))
  }

  /** Identifiers that are not empty, each at its first occurrence. */
  function Distinct(ids: seq<string>): seq<string> {
    if ids == [] then []
    else
      var front, last := Distinct(ids[..|ids| - 1]), ids[|ids| - 1];
      if last == "" || last in front then front else front + [last]
  }

  function Concat(lists: seq<seq<string>>): seq<string> {
    if lists == [] then [] else Concat(lists[..|lists| - 1]) + lists[|lists| - 1]
  }

  function LastFork(turn: seq<Message>): Option<int> {
    if turn == [] then None
    else if turn[|turn| - 1].fork.Some? then turn[|turn| - 1].fork else LastFork(turn[..|turn| - 1])
  }

  function ContentsOf(turn: seq<Message>): seq<string> { seq(|turn|, i requires 0 <= i < |turn| => turn[i].content) }

  function ThoughtsOf(turn: seq<Message>): seq<string> { seq(|turn|, i requires 0 <= i < |turn| => turn[i].thinking) }

  function CallsOf(turn: seq<Message>): seq<seq<string>> { seq(|turn|, i requires 0 <= i < |turn| => turn[i].callIds) }

  function ReturnsOf(turn: seq<Message>): seq<seq<string>> {
    seq(|turn|, i requires 0 <= i < |turn| => turn[i].returnIds)
  }

  function Contents(turn: seq<Message>): string { JoinTexts(ContentsOf(turn)) }

  function Thoughts(turn: seq<Message>): string { JoinTexts(ThoughtsOf(turn)) }

  function Calls(turn: seq<Message>): seq<string> { Distinct(Concat(CallsOf(turn))) }

  function Returns(turn: seq<Message>): seq<string> { Distinct(Concat(ReturnsOf(turn))) }

  /** The row of a finished turn; a turn with nothing to show has none. */
  function TurnRows(turn: seq<Message>): (r: seq<Row>)
    requires turn != []
    ensures |r| <= 1 &&
      (|r| == 1 ==> r[0].TurnRow? && r[0].first == turn[0].index && r[0].last == turn[|turn| - 1].index)
  {
    var content, thinking, calls := Contents(turn), Thoughts(turn), Calls(turn);
    if content == "" && thinking == "" && calls == [] then []
    else [TurnRow(turn[0].index, turn[|turn| - 1].index, content, thinking, calls, Returns(turn), LastFork(turn))]
  }

  // ---------------------------------------------------------------------------
  // The projection

  /** Number of leading messages that belong to one turn. */
  function RunLength(ms: seq<Message>): (n: nat)
    ensures n <= |ms| && (forall i | 0 <= i < n :: InTurn(ms[i])) && (n < |ms| ==> !InTurn(ms[n]))
  {
    if ms == [] || !InTurn(ms[0]) then 0 else 1 + RunLength(ms[1..])
  }

  /** Rows block by block: a maximal run of turn messages, or one other message. */
  function Rows(ms: seq<Message>): seq<Row>
    decreases |ms|
  {
    if ms == [] then []
    else if InTurn(ms[0]) then TurnRows(ms[..RunLength(ms)]) + Rows(ms[RunLength(ms)..])
    else OtherRows(ms[0]) + Rows(ms[1..])
  }

  function OtherRows(m: Message): seq<Row> { if IsUser(m) then [UserRow(m)] else [] }

  /** What flushing a pending turn displays. */
  function Flush(turn: seq<Message>): seq<Row> { if turn == [] then [] else TurnRows(turn) }

  lemma OtherFirst(m: Message, rest: seq<Message>)
    requires !InTurn(m)
    ensures Rows([m] + rest) == OtherRows(m) + Rows(rest)
  {
    assert ([m] + rest)[1..] == rest;
  }

  lemma RunThenOther(turn: seq<Message>, rest: seq<Message>)
    requires AllInTurn(turn) && (rest == [] || !InTurn(rest[0]))
    ensures RunLength(turn + rest) == |turn|
    ensures Rows(turn + rest) == Flush(turn) + Rows(rest)
  {
    hide TurnRows;
    var ms := turn + rest;
    var n := RunLength(ms);
    assert forall i | 0 <= i < |turn| :: ms[i] == turn[i];
    assert rest != [] ==> ms[|turn|] == rest[0];
    assert ms[..|turn|] == turn && ms[|turn|..] == rest;
  }

  /** What is displayed in the end, given what is displayed and the turn pending before `rest`. */
  function Finished(displayed: seq<Row>, turn: seq<Message>, rest: seq<Message>): seq<Row> {
    displayed + Rows(turn + rest)
  }

  predicate AllInTurn(turn: seq<Message>) { forall i | 0 <= i < |turn| :: InTurn(turn[i]) }

  lemma FinishedStart(ms: seq<Message>)
    ensures Finished([], [], ms) == Rows(ms)
  {
    hide Rows;
    assert [] + ms == ms && [] + Rows(ms) == Rows(ms);
  }

  lemma FinishedTurn(displayed: seq<Row>, turn: seq<Message>, m: Message, rest: seq<Message>)
    ensures Finished(displayed, turn, [m] + rest) == Finished(displayed, turn + [m], rest)
  {
    hide Rows;
    assert turn + ([m] + rest) == (turn + [m]) + rest;
  }

  lemma FinishedOther(displayed: seq<Row>, turn: seq<Message>, m: Message, rest: seq<Message>)
    requires AllInTurn(turn) && !InTurn(m)
    ensures Finished(displayed, turn, [m] + rest) == Finished((displayed + Flush(turn)) + OtherRows(m), [], rest)
  {
    hide Rows, TurnRows, Flush, OtherRows;
    RunThenOther(turn, [m] + rest);
    OtherFirst(m, rest);
    assert [] + rest == rest;
    var a, b, c := Flush(turn), OtherRows(m), Rows(rest);
    assert displayed + (a + (b + c)) == ((displayed + a) + b) + c;
  }

  lemma FinishedEnd(displayed: seq<Row>, turn: seq<Message>)
    requires AllInTurn(turn)
    ensures Finished(displayed, turn, []) == displayed + Flush(turn)
  {
    hide Rows, TurnRows, Flush;
    RunThenOther(turn, []);
    EmptyRows();
    assert Flush(turn) + [] == Flush(turn);
  }

  lemma EmptyRows()
    ensures Rows([]) == []
  {
  }

  // ---------------------------------------------------------------------------
  // Cutting a history between blocks

  /** The cut does not fall inside a turn. */
  predicate Clean(a: seq<Message>, b: seq<Message>) {
    a == [] || b == [] || !InTurn(a[|a| - 1]) || !InTurn(b[0])
  }

  lemma {:induction false} RowsAppend(a: seq<Message>, b: seq<Message>)
    requires Clean(a, b)
    ensures Rows(a + b) == Rows(a) + Rows(b)
    decreases |a|
  {
    hide Rows, TurnRows, RunLength, InTurn, Clean, Flush, OtherRows;
    if a == [] {
      assert a + b == b;
      EmptyRows();
    } else if InTurn(a[0]) {
      var n := RunLength(a);
      var turn, rest := a[..n], a[n..];
      assert a == turn + rest && a + b == turn + (rest + b);
      CleanRest(a, n, b);
      RunThenOther(turn, rest);
      RunThenOther(turn, rest + b);
      RowsAppend(rest, b);
    } else {
      var m, rest := a[0], a[1..];
      assert a == [m] + rest && a + b == [m] + (rest + b);
      CleanRest(a, 1, b);
      OtherFirst(m, rest);
      OtherFirst(m, rest + b);
      RowsAppend(rest, b);
    }
  }

  lemma CleanRest(a: seq<Message>, n: nat, b: seq<Message>)
    requires Clean(a, b) && n <= |a|
    ensures Clean(a[n..], b)
    ensures a != [] && InTurn(a[|a| - 1]) && n == |a| && b != [] ==> !InTurn(b[0])
  {
    hide InTurn;
    var rest := a[n..];
    assert rest != [] ==> rest[|rest| - 1] == a[|a| - 1];
  }

  predicate Increasing(ms: seq<Message>) {
    forall i, j | 0 <= i < j < |ms| :: ms[i].index < ms[j].index
  }

  /** The messages of the row at position `i`: a block `ms[lo..hi]` between clean cuts, whose
      own projection is that row alone. */
  lemma {:induction false} RowBlock(ms: seq<Message>, i: nat) returns (lo: nat, hi: nat)
    requires i < |Rows(ms)|
    ensures lo < hi <= |ms| && Clean(ms[..lo], ms[lo..]) && Clean(ms[..hi], ms[hi..])
    ensures Rows(ms[..lo]) == Rows(ms)[..i] && Rows(ms[lo..hi]) == [Rows(ms)[i]] && Rows(ms[..hi]) == Rows(ms)[..i + 1]
    ensures BoundaryOf(Rows(ms)[i]) == Boundary(ms[lo].index, ms[hi - 1].index, false)
    decreases |ms|
  {
    hide Rows, RunLength, Clean, IsBlock, InTurn, BoundaryOf;
    EmptyRows();
    var n := HeadBlock(ms);
    var head, rest := ms[..n], ms[n..];
    assert ms == head + rest;
    RowsAppend(head, rest);
    var k := |Rows(head)|;
    if i < k {
      lo, hi := 0, n;
      assert ms[..0] == [] && ms[0..n] == head && ms[0..] == ms;
      CleanNone(ms);
      assert Rows(head) == [Rows(head)[0]];
    } else {
      var l, h := RowBlock(rest, i - k);
      lo, hi := l + n, h + n;
      assert ms[lo..hi] == rest[l..h];
      Shift(head, rest, l);
      Shift(head, rest, h);
      PrefixOfSum(Rows(head), Rows(rest), i - k);
      PrefixOfSum(Rows(head), Rows(rest), i - k + 1);
    }
  }

  lemma PrefixOfSum(a: seq<Row>, b: seq<Row>, n: nat)
    requires n <= |b|
    ensures (a + b)[..|a| + n] == a + b[..n]
  {
  }

  lemma CleanNone(ms: seq<Message>)
    ensures Clean([], ms)
  {
  }

  /** A run of turn messages, or one other message. */
  predicate IsBlock(ms: seq<Message>) {
    ms != [] && ((|ms| == 1 && !InTurn(ms[0])) || forall i | 0 <= i < |ms| :: InTurn(ms[i]))
  }

  /** The first block: a clean cut after it, and at most one row, bounded by its messages. */
  lemma HeadBlock(ms: seq<Message>) returns (n: nat)
    requires ms != []
    ensures 1 <= n <= |ms| && IsBlock(ms[..n]) && Clean(ms[..n], ms[n..]) && |Rows(ms[..n])| <= 1
    ensures |Rows(ms[..n])| == 1 ==> BoundaryOf(Rows(ms[..n])[0]) == Boundary(ms[0].index, ms[n - 1].index, false)
  {
    hide Rows, InTurn;
    n := if InTurn(ms[0]) then RunLength(ms) else 1;
    assert IsBlock(ms[..n]);
    BlockRows(ms[..n]);
  }

  /** A block projects to at most one row, bounded by its own messages. */
  lemma BlockRows(block: seq<Message>)
    requires IsBlock(block)
    ensures var r := Rows(block);
      |r| <= 1 && (|r| == 1 ==> BoundaryOf(r[0]) == Boundary(block[0].index, block[|block| - 1].index, false))
    ensures !InTurn(block[0]) ==> Rows(block) == OtherRows(block[0])
    ensures InTurn(block[0]) ==> Rows(block) == TurnRows(block)
  {
    hide Contents, Thoughts, Calls, Returns, LastFork;
    if InTurn(block[0]) {
      RunThenOther(block, []);
      assert block + [] == block;
    } else {
      assert block[1..] == [];
    }
  }

  lemma Shift(head: seq<Message>, rest: seq<Message>, l: nat)
    requires Clean(head, rest) && l <= |rest| && Clean(rest[..l], rest[l..])
    ensures var ms := head + rest; var lo := |head| + l;
      Clean(ms[..lo], ms[lo..]) && Rows(ms[..lo]) == Rows(head) + Rows(rest[..l])
  {
    hide Rows, Clean, InTurn;
    var ms := head + rest;
    var lo := |head| + l;
    assert ms[..lo] == head + rest[..l] && ms[lo..] == rest[l..];
    CleanShift(head, rest, l);
    RowsAppend(head, rest[..l]);
  }

  lemma CleanShift(head: seq<Message>, rest: seq<Message>, l: nat)
    requires Clean(head, rest) && l <= |rest| && Clean(rest[..l], rest[l..])
    ensures Clean(head, rest[..l]) && Clean(head + rest[..l], rest[l..])
  {
    hide InTurn;
    var front := rest[..l];
    if l > 0 {
      assert front[0] == rest[0] && (head + front)[|head| + l - 1] == front[l - 1];
    } else {
      assert head + front == head && rest[l..] == rest;
    }
  }

  // ---------------------------------------------------------------------------
  // What the rows mean

  /** Rows cover disjoint intervals of the history, in order. */
  lemma {:induction false} RowsAreOrdered(ms: seq<Message>, i: nat, j: nat)
    requires Increasing(ms) && i < j < |Rows(ms)|
    ensures var r := Rows(ms);
      BoundaryOf(r[i]).start <= BoundaryOf(r[i]).end < BoundaryOf(r[j]).start <= BoundaryOf(r[j]).end
    decreases |ms|
  {
    hide Rows, Clean, IsBlock, InTurn;
    EmptyRows();
    var n := HeadBlock(ms);
    var head, rest := ms[..n], ms[n..];
    assert ms == head + rest;
    RowsAppend(head, rest);
    var k := |Rows(head)|;
    if i < k {
      var lo, hi := RowBlock(rest, j - k);
      assert ms[0].index <= ms[n - 1].index < ms[n + lo].index <= ms[n + hi - 1].index;
    } else {
      RowsAreOrdered(rest, i - k, j - k);
    }
  }

  function UserMessages(ms: seq<Message>): seq<Message> {
    if ms == [] then [] else (if IsUser(ms[0]) then [ms[0]] else []) + UserMessages(ms[1..])
  }

  function UserRows(rows: seq<Row>): seq<Message> {
    if rows == [] then [] else (if rows[0].UserRow? then [rows[0].message] else []) + UserRows(rows[1..])
  }

  lemma UserRowsFirst(r: Row, rest: seq<Row>)
    ensures UserRows([r] + rest) == (if r.UserRow? then [r.message] else []) + UserRows(rest)
  {
    assert ([r] + rest)[1..] == rest;
  }

  lemma {:induction false} UserRowsAppend(a: seq<Row>, b: seq<Row>)
    ensures UserRows(a + b) == UserRows(a) + UserRows(b)
  {
    if a == [] {
      assert a + b == b;
    } else {
      var r, rest := a[0], a[1..];
      assert a == [r] + rest && a + b == [r] + (rest + b);
      hide UserRows;
      UserRowsFirst(r, rest);
      UserRowsFirst(r, rest + b);
      UserRowsAppend(rest, b);
    }
  }

  lemma {:induction false} NoUsersInTurn(ms: seq<Message>, n: nat)
    requires n <= |ms| && forall i | 0 <= i < n :: InTurn(ms[i])
    ensures UserMessages(ms) == UserMessages(ms[n..])
    decreases n
  {
    if n > 0 {
      NoUsersInTurn(ms[1..], n - 1);
      assert ms[1..][n - 1..] == ms[n..];
    }
  }

  /** The user rows are exactly the user messages without tool parts, each once, in order. */
  lemma {:induction false} UserRowsAreUserMessages(ms: seq<Message>)
    ensures UserRows(Rows(ms)) == UserMessages(ms)
    decreases |ms|
  {
    hide Contents, Thoughts, Calls, Returns, LastFork;
    if ms != [] {
      if InTurn(ms[0]) {
        var n := RunLength(ms);
        UserRowsAreUserMessages(ms[n..]);
        UserRowsAppend(TurnRows(ms[..n]), Rows(ms[n..]));
        NoUsersInTurn(ms, n);
        assert UserRows(TurnRows(ms[..n])) == [] by {
          if TurnRows(ms[..n]) != [] { assert TurnRows(ms[..n])[1..] == []; }
        }
      } else {
        UserRowsAreUserMessages(ms[1..]);
        UserRowsAppend(OtherRows(ms[0]), Rows(ms[1..]));
      }
    }
  }

  /** A message that gives its turn something to show. */
  predicate Visible(m: Message) {
    Strip(m.content) != "" || Strip(m.thinking) != "" || exists i | 0 <= i < |m.callIds| :: m.callIds[i] != ""
  }

  lemma {:induction false} JoinVisible(texts: seq<string>, i: nat)
    requires i < |texts| && Strip(texts[i]) != ""
    ensures JoinTexts(texts) != ""
  {
    hide Strip;
    if i < |texts| - 1 { JoinVisible(texts[..|texts| - 1], i); }
  }

  lemma {:induction false} DistinctMember(ids: seq<string>, i: nat)
    requires i < |ids| && ids[i] != ""
    ensures ids[i] in Distinct(ids)
  {
    if i < |ids| - 1 { DistinctMember(ids[..|ids| - 1], i); }
  }

  lemma {:induction false} ConcatMember(lists: seq<seq<string>>, i: nat, j: nat)
    requires i < |lists| && j < |lists[i]|
    ensures lists[i][j] in Concat(lists)
  {
    if i < |lists| - 1 { ConcatMember(lists[..|lists| - 1], i, j); }
  }

  lemma VisibleTurnHasRow(turn: seq<Message>, i: nat)
    requires i < |turn| && Visible(turn[i])
    ensures |TurnRows(turn)| == 1
  {
    hide JoinTexts, Strip, Distinct, Concat, Returns, LastFork;
    var m := turn[i];
    if Strip(m.content) != "" {
      JoinVisible(ContentsOf(turn), i);
    } else if Strip(m.thinking) != "" {
      JoinVisible(ThoughtsOf(turn), i);
    } else {
      var j :| 0 <= j < |m.callIds| && m.callIds[j] != "";
      var lists := CallsOf(turn);
      ConcatMember(lists, i, j);
      var at :| 0 <= at < |Concat(lists)| && Concat(lists)[at] == m.callIds[j];
      DistinctMember(Concat(lists), at);
    }
  }

  lemma {:induction false} JoinNothing(texts: seq<string>)
    requires forall i | 0 <= i < |texts| :: Strip(texts[i]) == ""
    ensures JoinTexts(texts) == ""
  {
    hide Strip;
    if texts != [] { JoinNothing(texts[..|texts| - 1]); }
  }

  /** Joining is in order, with a blank line between what the two parts of a list join to, unless one
      of them is empty; one text is stripped. */
  lemma {:induction false} JoinAppend(a: seq<string>, b: seq<string>)
    ensures JoinTexts(a + b) ==
      if JoinTexts(b) == "" then JoinTexts(a)
      else if JoinTexts(a) == "" then JoinTexts(b)
      else JoinTexts(a) + "\n\n" + JoinTexts(b)
    decreases |b|
  {
    hide Strip;
    if b == [] {
      assert a + b == a;
    } else {
      var n := |b| - 1;
      JoinAppend(a, b[..n]);
      assert (a + b)[..|a| + n] == a + b[..n] && (a + b)[|a| + n] == b[n];
      JoinedAssociative(JoinTexts(a), JoinTexts(b[..n]), Strip(b[n]));
    }
  }

  lemma JoinOne(text: string)
    ensures JoinTexts([text]) == Strip(text)
  {
    hide Strip;
    assert [text][..0] == [] && "" + Strip(text) == Strip(text);
  }

  lemma JoinedAssociative(a: string, b: string, c: string)
    ensures Joined(Joined(a, b), c) == Joined(a, Joined(b, c))
  {
    assert a + "\n\n" + b + "\n\n" + c == a + "\n\n" + (b + "\n\n" + c);
  }

  lemma {:induction false} LastForkMeaning(turn: seq<Message>) returns (k: nat)
    ensures k <= |turn| && forall i | k <= i < |turn| :: turn[i].fork.None?
    ensures if k == 0 then LastFork(turn).None? else turn[k - 1].fork.Some? && LastFork(turn) == turn[k - 1].fork
  {
    k := |turn|;
    if turn != [] && turn[|turn| - 1].fork.None? {
      k := LastForkMeaning(turn[..|turn| - 1]);
    }
  }

  /** The stripped texts of the two parts of a turn, in order, with a blank line between. */
  predicate JoinedFrom(whole: string, first: string, second: string) {
    if first == "" || second == "" then whole == first + second else whole == first + "\n\n" + second
  }

  lemma TextParts(turn: seq<Message>, k: nat)
    requires k <= |turn|
    ensures JoinedFrom(Contents(turn), Contents(turn[..k]), Contents(turn[k..]))
    ensures JoinedFrom(Thoughts(turn), Thoughts(turn[..k]), Thoughts(turn[k..]))
  {
    hide JoinTexts;
    assert ContentsOf(turn) == ContentsOf(turn[..k]) + ContentsOf(turn[k..]);
    assert ThoughtsOf(turn) == ThoughtsOf(turn[..k]) + ThoughtsOf(turn[k..]);
    JoinAppend(ContentsOf(turn[..k]), ContentsOf(turn[k..]));
    JoinAppend(ThoughtsOf(turn[..k]), ThoughtsOf(turn[k..]));
  }

  lemma TextOfOne(m: Message)
    ensures Contents([m]) == Strip(m.content) && Thoughts([m]) == Strip(m.thinking)
  {
    hide JoinTexts, Strip;
    assert ContentsOf([m]) == [m.content] && ThoughtsOf([m]) == [m.thinking];
    JoinOne(m.content);
    JoinOne(m.thinking);
  }

  /** A turn has a row exactly when one of its messages has something to show.  The row's text and
      thinking are those of the messages before a cut, a blank line, and those of the messages after
      it; of one message, its stripped text.  The fork point is the last one that a message of the
      turn has. */
  lemma TurnRowMeaning(turn: seq<Message>, k: nat)
    requires turn != [] && k <= |turn|
    ensures |TurnRows(turn)| == 1 <==> exists i | 0 <= i < |turn| :: Visible(turn[i])
    ensures |TurnRows(turn)| == 1 ==>
      var r := TurnRows(turn)[0];
      && JoinedFrom(r.content, Contents(turn[..k]), Contents(turn[k..]))
      && JoinedFrom(r.thinking, Thoughts(turn[..k]), Thoughts(turn[k..]))
      && (|turn| == 1 ==> r.content == Strip(turn[0].content) && r.thinking == Strip(turn[0].thinking))
      && r.callIds == Calls(turn) && r.returnIds == Returns(turn)
      && (k > 0 && turn[k - 1].fork.Some? && (forall i | k <= i < |turn| :: turn[i].fork.None?) ==>
        r.fork == turn[k - 1].fork)
      && (k == 0 && (forall i | 0 <= i < |turn| :: turn[i].fork.None?) ==> r.fork.None?)
  {
    hide Contents, Thoughts, JoinedFrom, Strip, Calls, LastFork, Returns;
    TextParts(turn, k);
    if |turn| == 1 {
      TextOfOne(turn[0]);
      assert turn == [turn[0]];
    }
    var f := LastForkMeaning(turn);
    TurnRowIff(turn);
  }

  lemma TurnRowIff(turn: seq<Message>)
    requires turn != []
    ensures |TurnRows(turn)| == 1 <==> exists i | 0 <= i < |turn| :: Visible(turn[i])
  {
    hide JoinTexts, Strip, Calls, Returns, LastFork;
    if i :| 0 <= i < |turn| && Visible(turn[i]) {
      VisibleTurnHasRow(turn, i);
    } else {
      JoinNothing(ContentsOf(turn));
      JoinNothing(ThoughtsOf(turn));
      NoCalls(turn);
    }
  }

  lemma NoCalls(turn: seq<Message>)
    requires forall i | 0 <= i < |turn| :: !Visible(turn[i])
    ensures Calls(turn) == []
  {
    hide Calls, Strip;
    if Calls(turn) != [] {
      CallsMeaning(turn, Calls(turn)[0]);
    }
  }

  /** The rows of one message alone. */
  lemma RowsOfOne(m: Message)
    ensures m.isTool || m.role == Assistant ==>
      Rows([m]) == if Visible(m)
        then [TurnRow(m.index, m.index, Strip(m.content), Strip(m.thinking), Calls([m]), Returns([m]), m.fork)] else []
    ensures !m.isTool && m.role != Assistant ==> Rows([m]) == if m.role == User then [UserRow(m)] else []
  {
    hide Rows, Contents, Thoughts, Calls, Returns, Strip;
    assert IsBlock([m]);
    BlockRows([m]);
    if InTurn(m) {
      TextOfOne(m);
      TurnRowIff([m]);
      if Visible(m) { assert Visible([m][0]); }
      assert LastFork([m]) == m.fork by { assert [m][..0] == []; }
    }
  }

  /** Adjacent turn messages share a row: a maximal run of them is one turn. */
  lemma RunIsOneTurn(ms: seq<Message>, lo: nat, hi: nat)
    requires lo < hi <= |ms| && forall i | lo <= i < hi :: ms[i].isTool || ms[i].role == Assistant
    requires lo > 0 ==> !ms[lo - 1].isTool && ms[lo - 1].role != Assistant
    requires hi < |ms| ==> !ms[hi].isTool && ms[hi].role != Assistant
    ensures Rows(ms) == Rows(ms[..lo]) + TurnRows(ms[lo..hi]) + Rows(ms[hi..])
  {
    hide Rows, TurnRows;
    Parts(ms, lo, hi);
    TurnBetween(ms[..lo], ms[lo..hi], ms[hi..]);
  }

  lemma TurnBetween(a: seq<Message>, turn: seq<Message>, c: seq<Message>)
    requires turn != [] && AllInTurn(turn) && (a == [] || !InTurn(a[|a| - 1])) && (c == [] || !InTurn(c[0]))
    ensures Rows(a + turn + c) == Rows(a) + TurnRows(turn) + Rows(c)
  {
    assert Clean(a, turn + c);
    hide Rows, TurnRows, InTurn, AllInTurn, Clean;
    RowsAppend(a, turn + c);
    RunThenOther(turn, c);
    Regroup(a, turn, c);
    Regroup(Rows(a), TurnRows(turn), Rows(c));
  }

  lemma Regroup<T>(a: seq<T>, b: seq<T>, c: seq<T>)
    ensures a + b + c == a + (b + c)
  {
  }

  predicate Covers(r: Row, index: int) { BoundaryOf(r).start <= index <= BoundaryOf(r).end }

  lemma BlockVisible(block: seq<Message>, p: nat)
    requires IsBlock(block) && p < |block| && ((InTurn(block[p]) && Visible(block[p])) || IsUser(block[p]))
    ensures |Rows(block)| == 1
  {
    hide Rows, TurnRows, Visible;
    BlockRows(block);
    if InTurn(block[p]) { VisibleTurnHasRow(block, p); }
  }

  /** Every visible turn message, and every user message, lies in a row. */
  lemma {:induction false} VisibleIsCovered(ms: seq<Message>, p: nat)
    requires Increasing(ms) && p < |ms| && ((InTurn(ms[p]) && Visible(ms[p])) || IsUser(ms[p]))
    ensures exists i | 0 <= i < |Rows(ms)| :: Covers(Rows(ms)[i], ms[p].index)
    decreases |ms|
  {
    hide Rows, Visible, Clean;
    var n := HeadBlock(ms);
    var head, rest := ms[..n], ms[n..];
    assert ms == head + rest;
    RowsAppend(head, rest);
    var k := |Rows(head)|;
    if p < n {
      assert ms[0].index <= ms[p].index <= ms[n - 1].index;
      assert Covers(Rows(ms)[0], ms[p].index) by { BlockVisible(head, p); }
    } else {
      assert rest[p - n] == ms[p];
      VisibleIsCovered(rest, p - n);
      var i :| 0 <= i < |Rows(rest)| && Covers(Rows(rest)[i], ms[p].index);
      assert Rows(ms)[k + i] == Rows(rest)[i];
    }
  }

  /** Since intervals are disjoint, it lies in exactly one. */
  lemma VisibleInExactlyOneRow(ms: seq<Message>, p: nat) returns (i: nat)
    requires Increasing(ms) && p < |ms| && ((InTurn(ms[p]) && Visible(ms[p])) || IsUser(ms[p]))
    ensures i < |Rows(ms)| && Covers(Rows(ms)[i], ms[p].index)
    ensures forall j | 0 <= j < |Rows(ms)| && Covers(Rows(ms)[j], ms[p].index) :: j == i
  {
    hide Rows, Visible, Increasing;
    VisibleIsCovered(ms, p);
    i :| 0 <= i < |Rows(ms)| && Covers(Rows(ms)[i], ms[p].index);
    forall j | 0 <= j < |Rows(ms)| && j != i ensures !Covers(Rows(ms)[j], ms[p].index) {
      if i < j { RowsAreOrdered(ms, i, j); } else { RowsAreOrdered(ms, j, i); }
    }
  }

  /** A turn's call ids are the distinct ids its messages declare that are not empty. */
  lemma CallsMeaning(turn: seq<Message>, id: string)
    ensures id in Calls(turn) <==>
      id != "" && exists i, j | 0 <= i < |turn| && 0 <= j < |turn[i].callIds| :: turn[i].callIds[j] == id
    ensures forall i, j | 0 <= i < j < |Calls(turn)| :: Calls(turn)[i] != Calls(turn)[j]
  {
    hide Distinct, Concat;
    IdsMeaning(CallsOf(turn), id);
    assert forall i | 0 <= i < |turn| :: CallsOf(turn)[i] == turn[i].callIds;
  }

  lemma ReturnsMeaning(turn: seq<Message>, id: string)
    ensures id in Returns(turn) <==>
      id != "" && exists i, j | 0 <= i < |turn| && 0 <= j < |turn[i].returnIds| :: turn[i].returnIds[j] == id
    ensures forall i, j | 0 <= i < j < |Returns(turn)| :: Returns(turn)[i] != Returns(turn)[j]
  {
    hide Distinct, Concat;
    IdsMeaning(ReturnsOf(turn), id);
    assert forall i | 0 <= i < |turn| :: ReturnsOf(turn)[i] == turn[i].returnIds;
  }

  lemma IdsMeaning(lists: seq<seq<string>>, id: string)
    ensures id in Distinct(Concat(lists)) <==>
      id != "" && exists i, j | 0 <= i < |lists| && 0 <= j < |lists[i]| :: lists[i][j] == id
    ensures var ids := Distinct(Concat(lists)); forall i, j | 0 <= i < j < |ids| :: ids[i] != ids[j]
  {
    hide Distinct, Concat;
    DistinctMeaning(Concat(lists), id);
    if id in Concat(lists) {
      ConcatMeaning(lists, id);
    }
    if i, j :| 0 <= i < |lists| && 0 <= j < |lists[i]| && lists[i][j] == id {
      ConcatMember(lists, i, j);
    }
  }

  lemma {:induction false} DistinctMeaning(ids: seq<string>, id: string)
    ensures id in Distinct(ids) <==> id != "" && id in ids
    ensures forall i, j | 0 <= i < j < |Distinct(ids)| :: Distinct(ids)[i] != Distinct(ids)[j]
  {
    if ids != [] {
      var front, last := ids[..|ids| - 1], ids[|ids| - 1];
      assert ids == front + [last];
      DistinctMeaning(front, id);
    }
  }

  /** Ids are listed by first appearance: the ids of a turn cut short anywhere, also between two ids
      of a message, begin those of the turn. */
  lemma CallsInOrder(turn: seq<Message>, k: nat, n: nat)
    requires k < |turn| && n <= |turn[k].callIds|
    ensures Calls(turn[..k] + [turn[k].(callIds := turn[k].callIds[..n])]) <= Calls(turn)
  {
    hide Distinct, Concat;
    var short := turn[..k] + [turn[k].(callIds := turn[k].callIds[..n])];
    assert CallsOf(short) == CallsOf(turn)[..k] + [CallsOf(turn)[k][..n]];
    IdsInOrder(CallsOf(turn), k, n);
  }

  lemma ReturnsInOrder(turn: seq<Message>, k: nat, n: nat)
    requires k < |turn| && n <= |turn[k].returnIds|
    ensures Returns(turn[..k] + [turn[k].(returnIds := turn[k].returnIds[..n])]) <= Returns(turn)
  {
    hide Distinct, Concat;
    var short := turn[..k] + [turn[k].(returnIds := turn[k].returnIds[..n])];
    assert ReturnsOf(short) == ReturnsOf(turn)[..k] + [ReturnsOf(turn)[k][..n]];
    IdsInOrder(ReturnsOf(turn), k, n);
  }

  lemma IdsInOrder(lists: seq<seq<string>>, k: nat, n: nat)
    requires k < |lists| && n <= |lists[k]|
    ensures Distinct(Concat(lists[..k] + [lists[k][..n]])) <= Distinct(Concat(lists))
  {
    hide Distinct, Concat;
    var short := lists[..k] + [lists[k][..n]];
    assert short[..k] == lists[..k] && lists[..k + 1][..k] == lists[..k];
    ConcatLast(short);
    ConcatLast(lists[..k + 1]);
    var rest := ConcatRest(lists, k + 1);
    var added := lists[k][n..] + rest;
    assert Concat(lists) == Concat(short) + added;
    DistinctPrefix(Concat(short), added);
  }

  lemma {:induction false} ConcatRest(lists: seq<seq<string>>, k: nat) returns (rest: seq<string>)
    requires k <= |lists|
    ensures Concat(lists) == Concat(lists[..k]) + rest
    decreases |lists| - k
  {
    if k == |lists| {
      rest := [];
      assert lists[..k] == lists;
    } else {
      var tail := ConcatRest(lists, k + 1);
      assert lists[..k + 1][..k] == lists[..k];
      rest := lists[k] + tail;
    }
  }

  lemma ConcatLast(lists: seq<seq<string>>)
    requires lists != []
    ensures Concat(lists) == Concat(lists[..|lists| - 1]) + lists[|lists| - 1]
  {
  }

  lemma {:induction false} DistinctPrefix(a: seq<string>, b: seq<string>)
    ensures Distinct(a) <= Distinct(a + b)
    decreases |b|
  {
    if b == [] {
      assert a + b == a;
    } else {
      DistinctPrefix(a, b[..|b| - 1]);
      assert (a + b)[..|a + b| - 1] == a + b[..|b| - 1];
    }
  }

  lemma {:induction false} ConcatMeaning(lists: seq<seq<string>>, id: string)
    requires id in Concat(lists)
    ensures exists i, j | 0 <= i < |lists| && 0 <= j < |lists[i]| :: lists[i][j] == id
  {
    var n := |lists| - 1;
    if id in Concat(lists[..n]) {
      ConcatMeaning(lists[..n], id);
      var i, j :| 0 <= i < n && 0 <= j < |lists[..n][i]| && lists[..n][i][j] == id;
      assert lists[i][j] == id;
    } else {
      var j :| 0 <= j < |lists[n]| && lists[n][j] == id;
    }
  }

  /** The messages whose index lies in a closed interval. */
  function Within(ms: seq<Message>, first: int, last: int): seq<Message> {
    if ms == [] then []
    else Within(ms[..|ms| - 1], first, last) + if first <= ms[|ms| - 1].index <= last then [ms[|ms| - 1]] else []
  }

  lemma WithinLast(front: seq<Message>, m: Message, first: int, last: int)
    ensures Within(front + [m], first, last) ==
            Within(front, first, last) + if first <= m.index <= last then [m] else []
  {
    assert (front + [m])[..|front|] == front;
  }

  lemma {:induction false} WithinAppend(a: seq<Message>, b: seq<Message>, first: int, last: int)
    ensures Within(a + b, first, last) == Within(a, first, last) + Within(b, first, last)
    decreases |b|
  {
    if b == [] {
      assert a + b == a;
    } else {
      var front, m := b[..|b| - 1], b[|b| - 1];
      assert b == front + [m] && a + b == (a + front) + [m];
      hide Within;
      WithinLast(front, m, first, last);
      WithinLast(a + front, m, first, last);
      WithinAppend(a, front, first, last);
    }
  }

  predicate Outside(ms: seq<Message>, first: int, last: int) {
    forall i | 0 <= i < |ms| :: ms[i].index < first || last < ms[i].index
  }

  predicate Inside(ms: seq<Message>, first: int, last: int) {
    forall i | 0 <= i < |ms| :: first <= ms[i].index <= last
  }

  lemma {:induction false} WithinNone(ms: seq<Message>, first: int, last: int)
    requires Outside(ms, first, last)
    ensures Within(ms, first, last) == []
  {
    if ms != [] { WithinNone(ms[..|ms| - 1], first, last); }
  }

  lemma {:induction false} WithinAll(ms: seq<Message>, first: int, last: int)
    requires Inside(ms, first, last)
    ensures Within(ms, first, last) == ms
  {
    if ms != [] {
      var front, m := ms[..|ms| - 1], ms[|ms| - 1];
      WithinAll(front, first, last);
      WithinLast(front, m, first, last);
      assert front + [m] == ms;
    }
  }

  lemma SliceSides(ms: seq<Message>, lo: nat, hi: nat)
    requires Increasing(ms) && lo < hi <= |ms|
    ensures var first, last := ms[lo].index, ms[hi - 1].index;
      Outside(ms[..lo], first, last) && Inside(ms[lo..hi], first, last) && Outside(ms[hi..], first, last)
  {
  }

  lemma WithinMiddle(a: seq<Message>, b: seq<Message>, c: seq<Message>, first: int, last: int)
    requires Outside(a, first, last) && Inside(b, first, last) && Outside(c, first, last)
    ensures Within(a + b + c, first, last) == b
  {
    hide Within, Outside, Inside;
    WithinAppend(a + b, c, first, last);
    WithinNone(c, first, last);
    WithinAppend(a, b, first, last);
    WithinNone(a, first, last);
    WithinAll(b, first, last);
  }

  lemma Parts(ms: seq<Message>, lo: nat, hi: nat)
    requires lo <= hi <= |ms|
    ensures ms == ms[..lo] + ms[lo..hi] + ms[hi..]
  {
    assert ms[..hi] == ms[..lo] + ms[lo..hi];
    assert ms == ms[..hi] + ms[hi..];
  }

  /** In an increasing history the interval between two messages is a slice. */
  lemma WithinIsSlice(ms: seq<Message>, lo: nat, hi: nat)
    requires Increasing(ms) && lo < hi <= |ms|
    ensures Within(ms, ms[lo].index, ms[hi - 1].index) == ms[lo..hi]
  {
    SliceSides(ms, lo, hi);
    hide Within, Increasing, Outside, Inside;
    var a, b, c := ms[..lo], ms[lo..hi], ms[hi..];
    var first, last := ms[lo].index, ms[hi - 1].index;
    assert Outside(a, first, last) && Inside(b, first, last) && Outside(c, first, last);
    Parts(ms, lo, hi);
    WithinMiddle(a, b, c, first, last);
  }

  /** Projecting only the messages between the boundaries of two rows gives exactly the rows
      from one to the other; in particular each row reprojects to itself alone. */
  lemma RangeReprojects(ms: seq<Message>, i: nat, j: nat)
    requires Increasing(ms) && i <= j < |Rows(ms)|
    ensures Rows(Within(ms, BoundaryOf(Rows(ms)[i]).start, BoundaryOf(Rows(ms)[j]).end)) == Rows(ms)[i..j + 1]
  {
    hide Rows, Within, Clean;
    var lo, hi := RowBlock(ms, i);
    var last, end := lo, hi;
    if i < j {
      last, end := RowBlock(ms, j);
      RowsAreOrdered(ms, i, j);
    }
    assert lo < end;
    WithinIsSlice(ms, lo, end);
    RowsBetween(ms, lo, end);
    assert Rows(ms)[..j + 1][i..] == Rows(ms)[i..j + 1];
  }

  /** The rows of a slice that starts at a clean cut. */
  lemma RowsBetween(ms: seq<Message>, lo: nat, hi: nat)
    requires lo < hi <= |ms| && Clean(ms[..lo], ms[lo..])
    ensures |Rows(ms[..lo])| <= |Rows(ms[..hi])| && Rows(ms[lo..hi]) == Rows(ms[..hi])[|Rows(ms[..lo])|..]
  {
    hide Rows, InTurn;
    var a, b := ms[..lo], ms[lo..hi];
    assert ms[..hi] == a + b && b[0] == ms[lo..][0];
    RowsAppend(a, b);
  }
}
