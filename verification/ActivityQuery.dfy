/** Newest-first keyset pagination over the retained activity log. */
module ActivityQuery {
  import opened Common
  import opened Text
  import opened Calendar
  import opened Sorting
  import opened Base64Url
  import opened Json

  const LINES_PER_SEGMENT: nat := 1_000_000_000
  const MAX_PAGE_SIZE := 500

  /** A log line: blank, unparsable and undated lines are ignored; `time` is in UTC. */
  datatype Line = Ignored | Event(time: nat, level: string, tag: string, raw: string)

  datatype Filters = Filters(levels: set<string>, tags: set<string>, search: string, start: Option<nat>,
      end: Option<nat>)

  datatype Key = Key(stamp: string, digest: string, ordinal: nat)

  datatype Record = Record(key: Key, time: nat, raw: string)

  datatype Page = Page(entries: seq<Record>, next: Option<string>, totalMatching: nat)

  predicate Matches(f: Filters, e: Line)
    requires e.Event?
  {
    && (f.start.Some? ==> e.time >= f.start.value) && (f.end.Some? ==> e.time <= f.end.value)
    && (f.levels != {} ==> Lower(e.level) in f.levels) && (f.tags != {} ==> e.tag in f.tags)
    && (f.search != "" ==> Contains(Lower(e.raw), f.search))
  }

  function Ordinal(segment: nat, line: nat): nat {
    segment * LINES_PER_SEGMENT + line
  }

  function RecordOf(e: Line, segment: nat, line: nat, digest: string -> string): Record
    requires e.Event?
  {
    Record(Key(IsoMillis(e.time), digest(e.raw), Ordinal(segment, line)), e.time, e.raw)
  }

  function CollectLines(lines: seq<Line>, segment: nat, f: Filters, digest: string -> string): seq<Record> {
    if lines == [] then []
    else
      var k := |lines| - 1;
      CollectLines(lines[..k], segment, f, digest)
      + if lines[k].Event? && Matches(f, lines[k]) then [RecordOf(lines[k], segment, k, digest)] else []
  }

  /** The matching records in the order they are read. */
  function Collect(segments: seq<seq<Line>>, f: Filters, digest: string -> string): seq<Record> {
    if segments == [] then []
    else
      var k := |segments| - 1;
      Collect(segments[..k], f, digest) + CollectLines(segments[k], k, f, digest)
  }

  method CollectSegment(lines: seq<Line>, segment: nat, f: Filters, digest: string -> string)
      returns (records: seq<Record>)
    ensures records == CollectLines(lines, segment, f, digest)
  {
    hide Matches, RecordOf;
    records := [];
    for j := 0 to |lines|
      invariant records == CollectLines(lines[..j], segment, f, digest)
    {
      assert lines[..j + 1][..j] == lines[..j];
      if lines[j].Event? && Matches(f, lines[j]) {
        records := records + [RecordOf(lines[j], segment, j, digest)];
      }
    }
    assert lines[..|lines|] == lines;
  }

  method CollectRecords(segments: seq<seq<Line>>, f: Filters, digest: string -> string) returns (records: seq<Record>)
    ensures records == Collect(segments, f, digest)
  {
    hide CollectLines;
    records := [];
    for i := 0 to |segments|
      invariant records == Collect(segments[..i], f, digest)
    {
      assert segments[..i + 1][..i] == segments[..i];
      var more := CollectSegment(segments[i], i, f, digest);
      records := records + more;
    }
    assert segments[..|segments|] == segments;
  }

  /** The line at a position is a matching event and gives the record. */
  ghost predicate Yields(lines: seq<Line>, segment: nat, j: nat, f: Filters, digest: string -> string, r: Record) {
    && j < |lines| && lines[j].Event? && Selected(f, lines[j])
    && r.time == lines[j].time && r.raw == lines[j].raw
    && r.key.stamp == IsoMillis(r.time) && r.key.digest == digest(r.raw)
    && r.key.ordinal == segment * 1_000_000_000 + j
  }

  /** What the filters ask of an event: its time within the bounds, both included, its level and tag
      among those given, if any are, and the search text somewhere in its line. */
  ghost predicate Selected(f: Filters, e: Line)
    requires e.Event?
  {
    && (f.start.None? || f.start.value <= e.time) && (f.end.None? || e.time <= f.end.value)
    && (f.levels == {} || Lower(e.level) in f.levels) && (f.tags == {} || e.tag in f.tags)
    && (f.search == "" || exists i: nat :: FoundAt(Lower(e.raw), f.search, i))
  }

  lemma SelectedIff(f: Filters, e: Line)
    requires e.Event?
    ensures Matches(f, e) <==> Selected(f, e)
  {
    hide Contains, Lower, FoundAt;
    ContainsMeaning(Lower(e.raw), f.search);
  }

  lemma {:induction false} LineMember(lines: seq<Line>, segment: nat, f: Filters, digest: string -> string, r: Record)
    ensures r in CollectLines(lines, segment, f, digest) <==> exists j: nat :: Yields(lines, segment, j, f, digest, r)
  {
    hide Matches, Selected, IsoMillis;
    if lines != [] {
      var k := |lines| - 1;
      var front := lines[..k];
      LineMember(front, segment, f, digest, r);
      if lines[k].Event? { SelectedIff(f, lines[k]); }
      assert forall j: nat | j < k ::
          Yields(lines, segment, j, f, digest, r) <==> Yields(front, segment, j, f, digest, r);
      if r in CollectLines(lines, segment, f, digest) && r !in CollectLines(front, segment, f, digest) {
        assert Yields(lines, segment, k, f, digest, r);
      }
    }
  }

  /** A record is collected exactly when some line of some segment matches and gives it. */
  lemma {:induction false} CollectMember(segments: seq<seq<Line>>, f: Filters, digest: string -> string, r: Record)
    ensures r in Collect(segments, f, digest) <==>
            exists i: nat, j: nat :: i < |segments| && Yields(segments[i], i, j, f, digest, r)
  {
    hide CollectLines, Yields;
    if segments != [] {
      var k := |segments| - 1;
      var front := segments[..k];
      CollectMember(front, f, digest, r);
      LineMember(segments[k], k, f, digest, r);
      assert forall i: nat | i < k :: front[i] == segments[i];
      if r in Collect(front, f, digest) {
        var i: nat, j: nat :| i < |front| && Yields(front[i], i, j, f, digest, r);
        assert Yields(segments[i], i, j, f, digest, r);
      }
    }
  }

  // ---------------------------------------------------------------------------
  // Order of keys

  /** Tuple comparison of keys. */
  predicate KeyLess(a: Key, b: Key) {
    Less(a.stamp, b.stamp) ||
      (a.stamp == b.stamp && (Less(a.digest, b.digest) || (a.digest == b.digest && a.ordinal < b.ordinal)))
  }

  predicate Newer(a: Record, b: Record) { KeyLess(b.key, a.key) }

  lemma KeyTotal(a: Key, b: Key)
    ensures KeyLess(a, b) || a == b || KeyLess(b, a)
  {
    LessTotal(a.stamp, b.stamp);
    LessTotal(a.digest, b.digest);
  }

  lemma KeyTransitive(a: Key, b: Key, c: Key)
    requires KeyLess(a, b) && KeyLess(b, c)
    ensures KeyLess(a, c)
  {
    if Less(a.stamp, b.stamp) && Less(b.stamp, c.stamp) { LessTransitive(a.stamp, b.stamp, c.stamp); }
    if Less(a.digest, b.digest) && Less(b.digest, c.digest) { LessTransitive(a.digest, b.digest, c.digest); }
  }

  lemma KeyIrreflexive(a: Key)
    ensures !KeyLess(a, a)
  {
    LessIrreflexive(a.stamp);
    LessIrreflexive(a.digest);
  }

  lemma NewerIsOrder()
    ensures WeakOrder(Newer)
  {
    hide KeyLess;
    forall a: Record, b: Record | Newer(a, b) ensures !Newer(b, a) {
      if Newer(b, a) { KeyTransitive(a.key, b.key, a.key); KeyIrreflexive(a.key); }
    }
    forall a: Record, b: Record, c: Record | Newer(a, c) ensures Newer(a, b) || Newer(b, c) {
      KeyTotal(a.key, b.key);
      if KeyLess(a.key, b.key) { KeyTransitive(c.key, a.key, b.key); }
    }
  }

  // ---------------------------------------------------------------------------
  // Cursor

  predicate PlainKey(k: Key) { Plain(k.stamp) && Plain(k.digest) }

  function KeyItems(k: Key): seq<Item> {
    [Item(None, Str(k.stamp)), Item(None, Str(k.digest)), Item(None, Num(k.ordinal))]
  }

  function EncodeCursor(k: Key): string
    requires PlainKey(k)
  {
    CursorAscii(k);
    Encode(Bytes("[" + PrintItems(KeyItems(k), ']')))
  }

  lemma CursorAscii(k: Key)
    requires PlainKey(k)
    ensures PlainItems(KeyItems(k), false) && IsAscii("[" + PrintItems(KeyItems(k), ']'))
  {
    ItemsAreAscii(KeyItems(k), false, ']');
  }

  /** The text that a cursor encodes. */
  lemma CursorIs(k: Key)
    requires PlainKey(k)
    ensures var text :=
        "[" + (JoinWith(["\"" + k.stamp + "\"", "\"" + k.digest + "\"", Decimal(k.ordinal)], ',') + "]");
      IsAscii(text) && EncodeCursor(k) == Encode(Bytes(text))
  {
    hide Encode, Bytes, Decimal, PrintItems, JoinWith;
    CursorAscii(k);
    var xs := KeyItems(k);
    PrintedText(xs, ']');
    assert ItemTexts(xs) == ["\"" + k.stamp + "\"", "\"" + k.digest + "\"", Decimal(k.ordinal)];
  }

  /** None stands for the rejection of a malformed cursor. */
  function DecodeCursor(s: string): Option<Key> {
    match Decode(s)
    case None => None
    case Some(bytes) =>
      match TextOf(bytes)
      case None => None
      case Some(text) =>
        if text == "" || text[0] != '[' then None
        else
          match ReadItems(text[1..], false, ']')
          case None => None
          case Some(xs) =>
            if |xs| == 3 && xs[0].value.Str? && xs[1].value.Str? && xs[2].value.Num? && xs[2].value.number >= 0
            then Some(Key(xs[0].value.text, xs[1].value.text, xs[2].value.number)) else None
  }

  /** A cursor decodes to the key it was made from. */
  lemma CursorRoundTrip(k: Key)
    requires PlainKey(k)
    ensures DecodeCursor(EncodeCursor(k)) == Some(k) && EncodeCursor(k) != ""
  {
    hide Encode, Decode, Bytes, TextOf, PrintItems, ReadItems;
    CursorAscii(k);
    var text := "[" + PrintItems(KeyItems(k), ']');
    DecodeEncode(Bytes(text));
    TextRoundTrip(text);
    EncodedText(Bytes(text));
    ReadPrintedItems(KeyItems(k), false, ']');
    assert text[1..] == PrintItems(KeyItems(k), ']');
  }

  // ---------------------------------------------------------------------------
  // Pages

  function Below(k: Key): Record -> bool {
    (r: Record) => KeyLess(r.key, k)
  }

  ghost predicate PlainRecords(rs: seq<Record>) {
    forall i | 0 <= i < |rs| :: PlainKey(rs[i].key)
  }

  function PageSize(limit: int): (k: nat)
    ensures 1 <= k <= MAX_PAGE_SIZE
  {
    if limit < 1 then 1 else if limit > MAX_PAGE_SIZE then MAX_PAGE_SIZE else limit
  }

  function PageOf(rest: seq<Record>, k: nat): Page
    requires k >= 1 && PlainRecords(rest)
  {
    if |rest| > k then Page(rest[..k], Some(EncodeCursor(rest[k - 1].key)), |rest|) else Page(rest, None, |rest|)
  }

  /** What is left of the sorted records below a cursor; the empty cursor leaves everything. */
  function Remaining(sorted: seq<Record>, cursor: string): Option<seq<Record>> {
    if cursor == "" then Some(sorted)
    else match DecodeCursor(cursor) case None => None case Some(key) => Some(Filter(sorted, Below(key)))
  }

  /** One query over the collected records. */
  function Query(records: seq<Record>, limit: int, cursor: string): Result<Page>
    requires PlainRecords(records)
  {
    SortedPlain(records);
    var sorted := Sort(records, Newer);
    match Remaining(sorted, cursor)
    case None => Err
    case Some(rest) => RestPlain(sorted, cursor); Ok(PageOf(rest, PageSize(limit)))
  }

  lemma SortedPlain(records: seq<Record>)
    requires PlainRecords(records)
    ensures PlainRecords(Sort(records, Newer))
  {
    hide PlainKey;
    var s := Sort(records, Newer);
    NewerIsOrder();
    forall i | 0 <= i < |s| ensures PlainKey(s[i].key) {
      SortMembers(records, Newer, s[i]);
      assert s[i] in records;
    }
  }

  lemma FilterPlain(s: seq<Record>, key: Key)
    requires PlainRecords(s)
    ensures PlainRecords(Filter(s, Below(key)))
  {
    hide PlainKey;
    var r := Filter(s, Below(key));
    forall i | 0 <= i < |r| ensures PlainKey(r[i].key) {
      FilterMembers(s, Below(key), r[i]);
      assert r[i] in s;
    }
  }

  lemma RestPlain(sorted: seq<Record>, cursor: string)
    requires PlainRecords(sorted) && Remaining(sorted, cursor).Some?
    ensures PlainRecords(Remaining(sorted, cursor).value)
  {
    if cursor != "" { FilterPlain(sorted, DecodeCursor(cursor).value); }
  }

  // ---------------------------------------------------------------------------
  // Following the cursors

  /** Keys never increase along the list. */
  ghost predicate Descending(s: seq<Record>) {
    Sorted(s, Newer)
  }

  /** The rest of the list below a key, as a suffix. */
  lemma BelowIsSuffix(s: seq<Record>, key: Key) returns (j: nat)
    requires Descending(s)
    ensures j <= |s| && Filter(s, Below(key)) == s[j..]
    ensures forall i | 0 <= i < |s| :: KeyLess(s[i].key, key) <==> j <= i
  {
    hide KeyLess, Descending, Filter;
    j := FirstBelow(s, key);
    FilterSuffix(s, Below(key), j);
  }

  lemma {:induction false} FirstBelow(s: seq<Record>, key: Key) returns (j: nat)
    requires Descending(s)
    ensures j <= |s| && forall i | 0 <= i < |s| :: KeyLess(s[i].key, key) <==> j <= i
  {
    hide KeyLess;
    j := |s|;
    if s != [] && KeyLess(s[|s| - 1].key, key) {
      j := FirstBelow(s[..|s| - 1], key);
    } else if s != [] {
      NoneBelow(s, key);
    }
  }

  lemma NoneBelow(s: seq<Record>, key: Key)
    requires Descending(s) && s != [] && !KeyLess(s[|s| - 1].key, key)
    ensures forall i | 0 <= i < |s| :: !KeyLess(s[i].key, key)
  {
    hide KeyLess;
    var last := s[|s| - 1];
    forall i | 0 <= i < |s| - 1 ensures !KeyLess(s[i].key, key) {
      assert !Newer(last, s[i]);
      KeyTotal(s[i].key, last.key);
      if KeyLess(last.key, s[i].key) && KeyLess(s[i].key, key) { KeyTransitive(last.key, s[i].key, key); }
    }
  }

  /** `i` is a positive multiple of the page size. */
  predicate AtBoundary(i: nat, k: nat)
    requires k >= 1
  {
    i >= k && (i == k || AtBoundary(i - k, k))
  }

  /** No page boundary falls between two records with the same key. */
  ghost predicate NoSplit(s: seq<Record>, k: nat)
    requires k >= 1
  {
    forall i: nat | i < |s| && AtBoundary(i, k) :: s[i - 1].key != s[i].key
  }

  /** All entries obtained by following `next` from the page of `rest`. */
  function Follow(rest: seq<Record>, k: nat): seq<Page>
    requires k >= 1 && PlainRecords(rest) && Descending(rest)
    decreases |rest|
  {
    if |rest| <= k then [PageOf(rest, k)]
    else
      NextShrinks(rest, k);
      [PageOf(rest, k)] + Follow(Filter(rest, Below(rest[k - 1].key)), k)
  }

  lemma NextShrinks(rest: seq<Record>, k: nat)
    requires k >= 1 && PlainRecords(rest) && Descending(rest) && |rest| > k
    ensures var more := Filter(rest, Below(rest[k - 1].key));
      && PlainRecords(more) && Descending(more) && |more| <= |rest| - k
      && (rest[k - 1].key != rest[k].key ==> more == rest[k..])
      && (rest[k - 1].key == rest[k].key ==> |more| < |rest| - k)
  {
    hide KeyLess;
    var key := rest[k - 1].key;
    FilterPlain(rest, key);
    var j := BelowIsSuffix(rest, key);
    KeyIrreflexive(key);
    assert j >= k;
    if rest[k].key != key {
      assert !Newer(rest[k], rest[k - 1]);
      KeyTotal(rest[k].key, key);
      assert j == k;
    }
  }

  /** Each step of `Follow` is the query that the previous page's cursor asks for. */
  lemma FollowIsQuery(sorted: seq<Record>, cursor: string, rest: seq<Record>, k: nat)
    requires k >= 1 && PlainRecords(sorted) && Descending(sorted) && Remaining(sorted, cursor) == Some(rest)
    requires PlainRecords(rest) && Descending(rest) && |rest| > k
    ensures PageOf(rest, k).next.Some?
    ensures Remaining(sorted, PageOf(rest, k).next.value) == Some(Filter(rest, Below(rest[k - 1].key)))
  {
    hide KeyLess, EncodeCursor, DecodeCursor;
    var key := rest[k - 1].key;
    CursorRoundTrip(key);
    if cursor != "" {
      var c := DecodeCursor(cursor).value;
      assert rest == Filter(sorted, Below(c));
      FilterMembers(sorted, Below(c), rest[k - 1]);
      forall r: Record ensures Below(key)(r) <==> Below(c)(r) && Below(key)(r) {
        if KeyLess(r.key, key) { KeyTransitive(r.key, key, c); }
      }
      FilterTwice(sorted, Below(c), Below(key), Below(key));
    }
  }

  /** The pages a client collects: query with the empty cursor, then with each `next`. */
  function Chain(sorted: seq<Record>, k: nat, cursor: string): seq<Page>
    requires k >= 1 && PlainRecords(sorted) && Descending(sorted) && Remaining(sorted, cursor).Some?
    decreases |Remaining(sorted, cursor).value|
  {
    var rest := Remaining(sorted, cursor).value;
    RestPlain(sorted, cursor);
    RestDescending(sorted, cursor);
    var page := PageOf(rest, k);
    if page.next.None? then [page]
    else
      NextShrinks(rest, k);
      FollowIsQuery(sorted, cursor, rest, k);
      [page] + Chain(sorted, k, page.next.value)
  }

  lemma RestDescending(sorted: seq<Record>, cursor: string)
    requires Descending(sorted) && Remaining(sorted, cursor).Some?
    ensures Descending(Remaining(sorted, cursor).value)
  {
    if cursor != "" { var j := BelowIsSuffix(sorted, DecodeCursor(cursor).value); }
  }

  /** Following the cursor texts is working through the rest of the list. */
  lemma {:induction false} ChainIsFollow(sorted: seq<Record>, k: nat, cursor: string, rest: seq<Record>)
    requires k >= 1 && PlainRecords(sorted) && Descending(sorted) && Remaining(sorted, cursor) == Some(rest)
    ensures PlainRecords(rest) && Descending(rest) && Chain(sorted, k, cursor) == Follow(rest, k)
    decreases |rest|
  {
    hide Remaining, EncodeCursor, KeyLess;
    RestPlain(sorted, cursor);
    RestDescending(sorted, cursor);
    if |rest| > k {
      NextShrinks(rest, k);
      FollowIsQuery(sorted, cursor, rest, k);
      ChainIsFollow(sorted, k, PageOf(rest, k).next.value, Filter(rest, Below(rest[k - 1].key)));
    }
  }

  function Entries(pages: seq<Page>): seq<Record> {
    if pages == [] then [] else pages[0].entries + Entries(pages[1..])
  }

  /** The pages cut the list into consecutive pieces of `k`, and each total counts what the
      earlier pages have not returned. */
  ghost predicate Chunks(pages: seq<Page>, s: seq<Record>, k: nat)
    requires k >= 1
    decreases |s|
  {
    if |s| <= k then |pages| == 1 && pages[0].entries == s && pages[0].next.None? && pages[0].totalMatching == |s|
    else
      && |pages| > 1 && pages[0].entries == s[..k] && pages[0].next.Some? && pages[0].totalMatching == |s|
      && Chunks(pages[1..], s[k..], k)
  }

  lemma {:induction false} FollowChunks(s: seq<Record>, k: nat)
    requires k >= 1 && PlainRecords(s) && Descending(s) && NoSplit(s, k)
    ensures Chunks(Follow(s, k), s, k)
    decreases |s|
  {
    if |s| > k {
      hide PageOf;
      NextShrinks(s, k);
      NoSplitRest(s, k);
      FollowChunks(s[k..], k);
      PageShape(s, k);
      assert Follow(s, k)[1..] == Follow(s[k..], k);
    }
  }

  lemma PageShape(s: seq<Record>, k: nat)
    requires k >= 1 && PlainRecords(s) && |s| > k
    ensures PageOf(s, k).entries == s[..k] && PageOf(s, k).next.Some? && PageOf(s, k).totalMatching == |s|
  {
  }

  lemma NoSplitRest(s: seq<Record>, k: nat)
    requires k >= 1 && |s| > k
    ensures NoSplit(s, k) <==> s[k - 1].key != s[k].key && NoSplit(s[k..], k)
  {
    var t := s[k..];
    assert AtBoundary(k, k);
    if NoSplit(s, k) {
      forall i: nat | i < |t| && AtBoundary(i, k) ensures t[i - 1].key != t[i].key {
        assert AtBoundary(i + k, k);
        assert t[i] == s[i + k] && t[i - 1] == s[i + k - 1];
      }
    }
    if s[k - 1].key != s[k].key && NoSplit(t, k) {
      forall i: nat | i < |s| && AtBoundary(i, k) ensures s[i - 1].key != s[i].key {
        if i > k { assert t[i - k] == s[i] && t[i - k - 1] == s[i - 1]; }
      }
    }
  }

  lemma {:induction false} ChunksCover(pages: seq<Page>, s: seq<Record>, k: nat)
    requires k >= 1 && Chunks(pages, s, k)
    ensures Entries(pages) == s
    decreases |s|
  {
    if |s| > k {
      ChunksCover(pages[1..], s[k..], k);
      assert s == s[..k] + s[k..];
    } else {
      assert pages[1..] == [];
    }
  }

  lemma {:induction false} FollowBound(s: seq<Record>, k: nat)
    requires k >= 1 && PlainRecords(s) && Descending(s)
    ensures |Entries(Follow(s, k))| <= |s|
    ensures !NoSplit(s, k) ==> |Entries(Follow(s, k))| < |s|
    decreases |s|
  {
    hide PageOf, EncodeCursor, KeyLess;
    if |s| > k {
      NextShrinks(s, k);
      var more := Filter(s, Below(s[k - 1].key));
      FollowBound(more, k);
      NoSplitRest(s, k);
      PageShape(s, k);
      assert Follow(s, k)[1..] == Follow(more, k);
      assert Entries(Follow(s, k)) == s[..k] + Entries(Follow(more, k));
    } else {
      LastPage(s, k);
    }
  }

  lemma LastPage(s: seq<Record>, k: nat)
    requires k >= 1 && PlainRecords(s) && Descending(s) && |s| <= k
    ensures Entries(Follow(s, k)) == s && NoSplit(s, k)
  {
    assert Follow(s, k)[1..] == [];
  }

  /** Following the cursors yields every record exactly once, in order, if and only if no page
      boundary splits records with equal keys; a split loses records. */
  lemma FollowCompleteIff(s: seq<Record>, k: nat)
    requires k >= 1 && PlainRecords(s) && Descending(s)
    ensures Entries(Chain(s, k, "")) == s <==> NoSplit(s, k)
  {
    hide Chain;
    ChainIsFollow(s, k, "", s);
    FollowBound(s, k);
    if NoSplit(s, k) {
      FollowChunks(s, k);
      ChunksCover(Follow(s, k), s, k);
    }
  }

  /** The first page, for any limit: at least 1 and at most 500 records, otherwise the limit, the
      first of the sorted matches, with a cursor exactly when more remain. */
  lemma FirstPage(records: seq<Record>, limit: int)
    requires PlainRecords(records)
    ensures var k := if limit < 1 then 1 else if limit <= 500 then limit else 500;
      var page := Query(records, limit, "");
      && page.Ok? && |page.value.entries| == (if |records| < k then |records| else k)
      && page.value.entries <= Sort(records, Newer)
      && (page.value.next.Some? <==> |records| > k) && page.value.totalMatching == |records|
  {
    hide Sort, PlainRecords;
  }

  /** Keys are compared by stamp, then by digest, then by ordinal. */
  lemma KeyOrder(a: Key, b: Key)
    ensures a.stamp != b.stamp ==> (KeyLess(a, b) <==> Less(a.stamp, b.stamp))
    ensures a.stamp == b.stamp && a.digest != b.digest ==> (KeyLess(a, b) <==> Less(a.digest, b.digest))
    ensures a.stamp == b.stamp && a.digest == b.digest ==> (KeyLess(a, b) <==> a.ordinal < b.ordinal)
  {
    LessIrreflexive(a.stamp);
    LessIrreflexive(a.digest);
  }

  /** One query of the log: the cursor is decoded before the log is read. */
  method QueryLog(segments: seq<seq<Line>>, f: Filters, digest: string -> string, limit: int, cursor: string)
    returns (page: Result<Page>)
    requires forall s :: Plain(digest(s))
    ensures PlainRecords(Collect(segments, f, digest))
    ensures page == Query(Collect(segments, f, digest), limit, cursor)
    ensures cursor == "" ==>
      var k := if limit < 1 then 1 else if limit <= 500 then limit else 500;
      var n := |Collect(segments, f, digest)|;
      && page.Ok? && |page.value.entries| == (if n < k then n else k) && (page.value.next.Some? <==> n > k)
  {
    hide Collect, Sort, DecodeCursor, PlainRecords;
    CollectPlain(segments, f, digest);
    FirstPage(Collect(segments, f, digest), limit);
    var key := if cursor == "" then None else DecodeCursor(cursor);
    if cursor != "" && key.None? {
      return Err;
    }
    var records := CollectRecords(segments, f, digest);
    SortedPlain(records);
    records := Sort(records, Newer);
    RestPlain(records, cursor);
    if key.Some? {
      records := Filter(records, Below(key.value));
    }
    return Ok(PageOf(records, PageSize(limit)));
  }

  // ---------------------------------------------------------------------------
  // From the log to distinct keys

  ghost predicate OrdinalsIncrease(rs: seq<Record>) {
    forall i, j | 0 <= i < j < |rs| :: rs[i].key.ordinal < rs[j].key.ordinal
  }

  ghost predicate OrdinalsWithin(rs: seq<Record>, low: nat, high: nat) {
    forall i | 0 <= i < |rs| :: low <= rs[i].key.ordinal < high
  }

  lemma {:induction false} LinesIncrease(lines: seq<Line>, segment: nat, f: Filters, digest: string -> string)
    ensures var rs := CollectLines(lines, segment, f, digest);
      OrdinalsIncrease(rs) && OrdinalsWithin(rs, Ordinal(segment, 0), Ordinal(segment, |lines|))
  {
    hide Matches, IsoMillis;
    if lines != [] { LinesIncrease(lines[..|lines| - 1], segment, f, digest); }
  }

  /** Ordinals grow along the log as long as no segment reaches the line bound. */
  lemma {:induction false} CollectIncreases(segments: seq<seq<Line>>, f: Filters, digest: string -> string)
    requires forall i | 0 <= i < |segments| :: |segments[i]| <= LINES_PER_SEGMENT
    ensures var rs := Collect(segments, f, digest);
      OrdinalsIncrease(rs) && OrdinalsWithin(rs, 0, Ordinal(|segments|, 0))
  {
    if segments != [] {
      var n := |segments| - 1;
      hide CollectLines;
      CollectIncreases(segments[..n], f, digest);
      LinesIncrease(segments[n], n, f, digest);
      AppendIncreases(Collect(segments[..n], f, digest), CollectLines(segments[n], n, f, digest), Ordinal(n, 0),
        Ordinal(n, |segments[n]|), Ordinal(n + 1, 0));
    }
  }

  lemma AppendIncreases(a: seq<Record>, b: seq<Record>, mid: nat, high: nat, top: nat)
    requires OrdinalsIncrease(a) && OrdinalsWithin(a, 0, mid) && OrdinalsIncrease(b) && OrdinalsWithin(b, mid, high)
    requires mid <= high <= top
    ensures OrdinalsIncrease(a + b) && OrdinalsWithin(a + b, 0, top)
  {
  }

  lemma IncreasingNoSplit(records: seq<Record>, k: nat)
    requires k >= 1 && OrdinalsIncrease(records)
    ensures Descending(Sort(records, Newer)) && NoSplit(Sort(records, Newer), k)
  {
    hide KeyLess, Sort;
    NewerIsOrder();
    SortCorrect(records, Newer);
    forall i, j | 0 <= i < j < |records| ensures Newer(records[i], records[j]) || Newer(records[j], records[i]) {
      KeyTotal(records[i].key, records[j].key);
    }
    SortStrict(records, Newer);
    var s := Sort(records, Newer);
    forall i: nat | i < |s| && AtBoundary(i, k) ensures s[i - 1].key != s[i].key {
      assert Newer(s[i - 1], s[i]);
      KeyIrreflexive(s[i].key);
    }
  }

  /** Stamps are plain text. */
  lemma {:induction false} RenderPlain(f: seq<nat>, widths: seq<nat>, seps: seq<string>, tail: string)
    requires |f| == |widths| == |seps| && Plain(tail) && forall i | 0 <= i < |seps| :: Plain(seps[i])
    ensures Plain(Render(f, widths, seps, tail))
  {
    if f != [] {
      RenderPlain(f[1..], widths[1..], seps[1..], tail);
      DigitsArePlain(Padded(f[0], widths[0]));
    }
  }

  lemma StampPlain(t: nat)
    ensures Plain(IsoMillis(t))
  {
    DigitsArePlain(Padded(t % SECOND / 1000, 3));
    assert Plain("+00:00") && Plain("-") && Plain("T") && Plain(":") && Plain(".");
    RenderPlain(Fields(t / SECOND), WIDTHS, ["-", "-", "T", ":", ":", "."], Padded(t % SECOND / 1000, 3) + "+00:00");
  }

  lemma {:induction false} LinesPlain(lines: seq<Line>, segment: nat, f: Filters, digest: string -> string)
    requires forall s :: Plain(digest(s))
    ensures PlainRecords(CollectLines(lines, segment, f, digest))
  {
    hide Matches, IsoMillis, Plain;
    if lines != [] {
      var k := |lines| - 1;
      LinesPlain(lines[..k], segment, f, digest);
      if lines[k].Event? { StampPlain(lines[k].time); }
    }
  }

  lemma {:induction false} CollectPlain(segments: seq<seq<Line>>, f: Filters, digest: string -> string)
    requires forall s :: Plain(digest(s))
    ensures PlainRecords(Collect(segments, f, digest))
  {
    hide CollectLines, Plain;
    if segments != [] {
      CollectPlain(segments[..|segments| - 1], f, digest);
      LinesPlain(segments[|segments| - 1], |segments| - 1, f, digest);
    }
  }

  /** Over an unchanged log whose segments keep within the line bound, the pages obtained by
      following cursors from the first query are consecutive pieces of the sorted matches,
      and together return each match once. */
  lemma PagesPartitionMatches(segments: seq<seq<Line>>, f: Filters, digest: string -> string, limit: int)
    requires (forall i | 0 <= i < |segments| :: |segments[i]| <= LINES_PER_SEGMENT) && forall s :: Plain(digest(s))
    ensures var records := Collect(segments, f, digest);
      var s := Sort(records, Newer);
      var k := if limit < 1 then 1 else if limit <= 500 then limit else 500;
      && PlainRecords(records) && PlainRecords(s) && Descending(s)
      && Query(records, limit, "") == Ok(PageOf(s, k))
      && Chunks(Chain(s, k, ""), s, k)
      && Entries(Chain(s, k, "")) == s && multiset(s) == multiset(records)
  {
    hide Collect, Sort, Follow, Chain, PageOf, KeyLess;
    var records := Collect(segments, f, digest);
    CollectPlain(segments, f, digest);
    CollectIncreases(segments, f, digest);
    SortedPlain(records);
    IncreasingNoSplit(records, PageSize(limit));
    NewerIsOrder();
    SortCorrect(records, Newer);
    var s := Sort(records, Newer);
    FollowChunks(s, PageSize(limit));
    ChunksCover(Follow(s, PageSize(limit)), s, PageSize(limit));
    ChainIsFollow(s, PageSize(limit), "", s);
  }

  /** Matches are listed from newest to oldest, to the millisecond. */
  lemma NewestFirst(records: seq<Record>, i: nat, j: nat)
    requires i < j < |records|
    requires forall n | 0 <= n < |records| ::
      records[n].time < END && records[n].key.stamp == IsoMillis(records[n].time)
    ensures var s := Sort(records, Newer); s[i].time / 1000 >= s[j].time / 1000
  {
    hide Sort, IsoMillis, Less;
    var s := Sort(records, Newer);
    NewerIsOrder();
    SortCorrect(records, Newer);
    SortMembers(records, Newer, s[i]);
    SortMembers(records, Newer, s[j]);
    assert s[i] in records && s[j] in records;
    assert !Newer(s[j], s[i]);
    IsoMillisOrder(s[i].time, s[j].time);
  }

  /** So are the records of a log whose events have representable times. */
  lemma LogNewestFirst(segments: seq<seq<Line>>, f: Filters, digest: string -> string, i: nat, j: nat)
    requires forall s, k | 0 <= s < |segments| && 0 <= k < |segments[s]| && segments[s][k].Event? ::
      segments[s][k].time < END
    requires i < j < |Collect(segments, f, digest)|
    ensures var s := Sort(Collect(segments, f, digest), Newer); s[i].time / 1000 >= s[j].time / 1000
  {
    hide Collect, Sort, IsoMillis, Selected;
    var records := Collect(segments, f, digest);
    forall n | 0 <= n < |records| ensures records[n].time < END && records[n].key.stamp == IsoMillis(records[n].time) {
      CollectMember(segments, f, digest, records[n]);
      var s: nat, k: nat :| s < |segments| && Yields(segments[s], s, k, f, digest, records[n]);
    }
    NewestFirst(records, i, j);
  }

  // ---------------------------------------------------------------------------
  // Beyond the line bound

  lemma {:induction false} IgnoredLines(n: nat, segment: nat, f: Filters, digest: string -> string)
    ensures CollectLines(seq(n, i => Ignored), segment, f, digest) == []
  {
    if n > 0 {
      var lines := seq(n, i => Ignored);
      assert lines[..n - 1] == seq(n - 1, i => Ignored);
      IgnoredLines(n - 1, segment, f, digest);
    }
  }

  /** A segment with more lines than the bound: its last event and the first event of the next
      segment, when they read the same, get one key, and a page of one record loses the second. */
  lemma OverlongSegmentLosesARecord(e: Line, digest: string -> string)
    requires e.Event? && forall s :: Plain(digest(s))
    ensures var none := Filters({}, {}, "", None, None);
      var log := [seq(LINES_PER_SEGMENT, i => Ignored) + [e], [e]];
      var s := Sort(Collect(log, none, digest), Newer);
      |s| == 2 && PlainRecords(s) && Descending(s) && Entries(Chain(s, 1, "")) != s
  {
    hide Sort, KeyLess, Chain, Collect;
    var none := Filters({}, {}, "", None, None);
    var log := [seq(LINES_PER_SEGMENT, i => Ignored) + [e], [e]];
    var r := RecordOf(e, 0, LINES_PER_SEGMENT, digest);
    OverlongCollected(e, digest);
    CollectPlain(log, none, digest);
    SortedPlain([r, r]);
    NewerIsOrder();
    SortCorrect([r, r], Newer);
    var s := Sort([r, r], Newer);
    SortMembers([r, r], Newer, s[0]);
    SortMembers([r, r], Newer, s[1]);
    assert s[0] in [r, r] && s[1] in [r, r];
    assert AtBoundary(1, 1);
    FollowCompleteIff(s, 1);
  }

  lemma OverlongCollected(e: Line, digest: string -> string)
    requires e.Event?
    ensures var none := Filters({}, {}, "", None, None);
      var r := RecordOf(e, 0, LINES_PER_SEGMENT, digest);
      Collect([seq(LINES_PER_SEGMENT, i => Ignored) + [e], [e]], none, digest) == [r, r]
  {
    hide RecordOf;
    var none := Filters({}, {}, "", None, None);
    var long := seq(LINES_PER_SEGMENT, i => Ignored) + [e];
    var log := [long, [e]];
    IgnoredLines(LINES_PER_SEGMENT, 0, none, digest);
    assert long[..LINES_PER_SEGMENT] == seq(LINES_PER_SEGMENT, i => Ignored);
    var r := RecordOf(e, 0, LINES_PER_SEGMENT, digest);
    assert CollectLines(long, 0, none, digest) == [r];
    assert [e][..0] == [];
    SameRecord(e, digest);
    assert CollectLines([e], 1, none, digest) == [r];
    assert log[..1] == [long] && [long][..0] == [];
    assert Collect([long], none, digest) == [r];
  }

  lemma SameRecord(e: Line, digest: string -> string)
    requires e.Event?
    ensures RecordOf(e, 1, 0, digest) == RecordOf(e, 0, LINES_PER_SEGMENT, digest)
  {
  }
}
