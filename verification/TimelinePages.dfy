/** Timeline items, which are rows with the summaries of their tool calls, and the projection of
    pages from their boundaries.

    A summary is shown for a call whose return is among the projected messages.  `known` gives the
    rest of what decides it: the details of a call that is declared once and whose stored events
    are unambiguous. */
module TimelinePages {
  import opened Common
  import opened Sorting
  import opened Timeline

  datatype ToolCall = ToolCall(id: string, details: string)

  datatype Item = Item(row: Row, toolCalls: seq<ToolCall>)

  // ---------------------------------------------------------------------------
  // Effective calls

  function Nonempty(ids: seq<string>): set<string> { set i | 0 <= i < |ids| && ids[i] != "" :: ids[i] }

  /** The ids returned by some message. */
  function Returned(ms: seq<Message>): set<string> {
    if ms == [] then {} else Returned(ms[..|ms| - 1]) + Nonempty(ms[|ms| - 1].returnIds)
  }

  lemma {:induction false} ReturnedMeaning(ms: seq<Message>, id: string)
    ensures id in Returned(ms) <==> exists i | 0 <= i < |ms| :: id in Nonempty(ms[i].returnIds)
  {
    hide Nonempty;
    if ms != [] {
      ReturnedMeaning(ms[..|ms| - 1], id);
    }
  }

  function OneOf(ids: set<string>): string -> bool { id => id in ids }

  /** Called and returned ids, by first call. */
  function EffectiveIds(ms: seq<Message>): seq<string> { Filter(Calls(ms), OneOf(Returned(ms))) }

  lemma CallsLast(ms: seq<Message>, i: nat)
    requires i < |ms|
    ensures Concat(CallsOf(ms[..i + 1])) == Concat(CallsOf(ms[..i])) + ms[i].callIds
  {
    hide Concat;
    var lists := CallsOf(ms[..i + 1]);
    ConcatLast(lists);
    assert lists[..i] == CallsOf(ms[..i]) && lists[i] == ms[i].callIds;
  }

  lemma DistinctLast(ids: seq<string>, id: string)
    ensures Distinct(ids + [id]) == if id == "" || id in Distinct(ids) then Distinct(ids) else Distinct(ids) + [id]
  {
    assert (ids + [id])[..|ids|] == ids;
  }

  /** Adds the ids of one message that were not seen before. */
  method AddCalls(ordered: seq<string>, ids: seq<string>, ghost before: seq<string>) returns (r: seq<string>)
    requires ordered == Distinct(before)
    ensures r == Distinct(before + ids)
  {
    hide Distinct;
    r := ordered;
    var seen := set id | id in ordered;
    assert before + ids[..0] == before;
    for j := 0 to |ids|
      invariant r == Distinct(before + ids[..j]) && seen == set id | id in r
    {
      DistinctLast(before + ids[..j], ids[j]);
      assert (before + ids[..j]) + [ids[j]] == before + ids[..j + 1];
      if ids[j] != "" && ids[j] !in seen {
        seen := seen + {ids[j]};
        r := r + [ids[j]];
      }
    }
    assert ids[..|ids|] == ids;
  }

  /** The loop over messages that gathers calls in order and returns. */
  method EffectiveToolCallIds(ms: seq<Message>) returns (ids: seq<string>)
    ensures ids == EffectiveIds(ms)
  {
    hide Distinct, Concat, Nonempty, Filter;
    var ordered: seq<string> := [];
    var returned: set<string> := {};
    NoCallsYet(ms);
    for i := 0 to |ms|
      invariant ordered == Distinct(Concat(CallsOf(ms[..i]))) && returned == Returned(ms[..i])
    {
      assert ms[..i + 1][..i] == ms[..i];
      returned := returned + Nonempty(ms[i].returnIds);
      CallsLast(ms, i);
      ordered := AddCalls(ordered, ms[i].callIds, Concat(CallsOf(ms[..i])));
    }
    assert ms[..|ms|] == ms;
    return Filter(ordered, OneOf(returned));
  }

  lemma NoCallsYet(ms: seq<Message>)
    ensures Distinct(Concat(CallsOf(ms[..0]))) == [] && Returned(ms[..0]) == {}
  {
    assert CallsOf(ms[..0]) == [];
  }

  /** The effective ids are those that some message calls and some message returns. */
  lemma EffectiveMember(ms: seq<Message>, id: string)
    ensures id in EffectiveIds(ms) <==>
      && id != ""
      && (exists i, j | 0 <= i < |ms| && 0 <= j < |ms[i].callIds| :: ms[i].callIds[j] == id)
      && (exists i, j | 0 <= i < |ms| && 0 <= j < |ms[i].returnIds| :: ms[i].returnIds[j] == id)
  {
    hide Calls, Returned, Filter;
    FilterMembers(Calls(ms), OneOf(Returned(ms)), id);
    CallsMeaning(ms, id);
    ReturnedMeaning(ms, id);
    if i :| 0 <= i < |ms| && id in Nonempty(ms[i].returnIds) {
      var j :| 0 <= j < |ms[i].returnIds| && ms[i].returnIds[j] == id;
    }
    if i, j :| 0 <= i < |ms| && 0 <= j < |ms[i].returnIds| && ms[i].returnIds[j] == id {
      assert id == "" || id in Nonempty(ms[i].returnIds);
    }
  }

  /** The summaries of the effective calls. */
  function Table(ms: seq<Message>, known: string -> Option<string>): map<string, string> {
    map id | id in Calls(ms) && id in Returned(ms) && known(id).Some? :: known(id).value
  }

  method EffectiveToolCallInfo(ms: seq<Message>, known: string -> Option<string>) returns (table: map<string, string>)
    ensures table == Table(ms, known)
  {
    hide Calls, Returned, Filter;
    var ids := EffectiveToolCallIds(ms);
    table := map[];
    for i := 0 to |ids|
      invariant table == map id | id in ids[..i] && known(id).Some? :: known(id).value
    {
      assert ids[..i + 1] == ids[..i] + [ids[i]];
      if known(ids[i]).Some? {
        table := table[ids[i] := known(ids[i]).value];
      }
    }
    assert ids[..|ids|] == ids;
    forall id ensures id in ids <==> id in Calls(ms) && id in Returned(ms) {
      FilterMembers(Calls(ms), OneOf(Returned(ms)), id);
    }
  }

  // ---------------------------------------------------------------------------
  // Items

  /** The summaries of some calls, in order. */
  function Shown(ids: seq<string>, table: map<string, string>): seq<ToolCall> {
    if ids == [] then []
    else
      var id := ids[|ids| - 1];
      Shown(ids[..|ids| - 1], table) + if id in table then [ToolCall(id, table[id])] else []
  }

  function CallIdsOf(r: Row): seq<string> { if r.TurnRow? then r.callIds else [] }

  function ItemOf(r: Row, table: map<string, string>): Item { Item(r, Shown(CallIdsOf(r), table)) }

  function Decorate(rows: seq<Row>, table: map<string, string>): seq<Item> {
    seq(|rows|, i requires 0 <= i < |rows| => ItemOf(rows[i], table))
  }

  function Items(ms: seq<Message>, known: string -> Option<string>): seq<Item> {
    Decorate(Rows(ms), Table(ms, known))
  }

  /** The fold of the source: a pending turn that is flushed when another message arrives. */
  method CanonicalItems(ms: seq<Message>, known: string -> Option<string>) returns (displayed: seq<Item>)
    ensures displayed == Items(ms, known)
  {
    hide Rows, TurnRows, Flush, Finished, InTurn, Shown;
    var summaries := EffectiveToolCallInfo(ms, known);
    hide Table;
    displayed := [];
    var turn: seq<Message> := [];
    ghost var rows: seq<Row> := [];
    FinishedStart(ms);
    assert ms[0..] == ms;
    for i := 0 to |ms|
      invariant AllInTurn(turn) && displayed == Decorate(rows, summaries)
      invariant Finished(rows, turn, ms[i..]) == Rows(ms)
    {
      var m := ms[i];
      assert ms[i..] == [m] + ms[i + 1..];
      if InTurn(m) {
        FinishedTurn(rows, turn, m, ms[i + 1..]);
        turn := turn + [m];
      } else {
        FinishedOther(rows, turn, m, ms[i + 1..]);
        displayed := displayed + Decorate(Flush(turn), summaries);
        rows := rows + Flush(turn);
        turn := [];
        if IsUser(m) {
          displayed := displayed + [Item(UserRow(m), [])];
          rows := rows + [UserRow(m)];
          NothingShown(summaries);
        } else {
          assert rows + [] == rows;
        }
      }
    }
    assert ms[|ms|..] == [];
    FinishedEnd(rows, turn);
    displayed := displayed + Decorate(Flush(turn), summaries);
  }

  lemma NothingShown(table: map<string, string>)
    ensures Shown([], table) == []
  {
  }

  // ---------------------------------------------------------------------------
  // Summaries of a slice

  lemma {:induction false} ShownMember(ids: seq<string>, table: map<string, string>, call: ToolCall)
    ensures call in Shown(ids, table) <==> call.id in ids && call.id in table && call.details == table[call.id]
  {
    if ids != [] {
      var front, id := ids[..|ids| - 1], ids[|ids| - 1];
      assert ids == front + [id];
      ShownMember(front, table, call);
    }
  }

  /** The ids of the summaries are those of the row that the table has, in the row's order. */
  lemma {:induction false} ShownInOrder(ids: seq<string>, table: map<string, string>)
    ensures var shown := Shown(ids, table);
      var kept := Filter(ids, OneOf(table.Keys));
      && |shown| == |kept|
      && forall i | 0 <= i < |shown| :: kept[i] in table && shown[i] == ToolCall(kept[i], table[kept[i]])
  {
    if ids != [] {
      ShownInOrder(ids[..|ids| - 1], table);
    }
  }

  /** The item of a row: under a user's message nothing; under a turn the known summaries of its calls
      that some projected message returns, in the order of the calls. */
  lemma ItemMeaning(ms: seq<Message>, known: string -> Option<string>, k: nat)
    requires k < |Rows(ms)|
    ensures |Items(ms, known)| == |Rows(ms)| && Items(ms, known)[k].row == Rows(ms)[k]
    ensures Rows(ms)[k].UserRow? ==> Items(ms, known)[k].toolCalls == []
    ensures Rows(ms)[k].TurnRow? ==>
      var shown := Items(ms, known)[k].toolCalls;
      var kept := Filter(Rows(ms)[k].callIds, id => known(id).Some? && id in Returned(ms));
      && |shown| == |kept|
      && forall i | 0 <= i < |shown| :: shown[i].id == kept[i] && Some(shown[i].details) == known(kept[i])
  {
    hide Rows, Shown, Calls, Returned, Filter;
    NothingShown(Table(ms, known));
    if Rows(ms)[k].TurnRow? {
      var ids, table := Rows(ms)[k].callIds, Table(ms, known);
      ShownInOrder(ids, table);
      forall id | id in ids ensures id in Calls(ms) { RowCalls(ms, k, id); }
      FilterSame(ids, OneOf(table.Keys), id => known(id).Some? && id in Returned(ms));
    }
  }

  lemma {:induction false} ShownSame(ids: seq<string>, part: map<string, string>, whole: map<string, string>)
    requires forall id | id in part :: id in whole && part[id] == whole[id]
    requires forall id | id in ids && id in whole :: id in part
    ensures Shown(ids, part) == Shown(ids, whole)
  {
    if ids != [] {
      var front, id := ids[..|ids| - 1], ids[|ids| - 1];
      assert ids == front + [id];
      ShownSame(front, part, whole);
    }
  }

  /** A smaller table shows the same summaries exactly when it lacks none of the calls. */
  lemma ShownIff(ids: seq<string>, part: map<string, string>, whole: map<string, string>)
    requires forall id | id in part :: id in whole && part[id] == whole[id]
    ensures Shown(ids, part) == Shown(ids, whole) <==> forall id | id in ids && id in whole :: id in part
  {
    hide Shown;
    if forall id | id in ids && id in whole :: id in part {
      ShownSame(ids, part, whole);
    } else {
      var id :| id in ids && id in whole && id !in part;
      ShownMember(ids, part, ToolCall(id, whole[id]));
      ShownMember(ids, whole, ToolCall(id, whole[id]));
    }
  }

  ghost predicate Among(part: seq<Message>, whole: seq<Message>) {
    forall i | 0 <= i < |part| :: part[i] in whole
  }

  lemma AmongCalls(part: seq<Message>, whole: seq<Message>, id: string)
    requires Among(part, whole)
    ensures id in Calls(part) ==> id in Calls(whole)
    ensures id in Returned(part) ==> id in Returned(whole)
  {
    hide Calls, Returned, Nonempty;
    CallsMeaning(part, id);
    CallsMeaning(whole, id);
    ReturnedMeaning(part, id);
    ReturnedMeaning(whole, id);
    if id in Calls(part) {
      var i, j :| 0 <= i < |part| && 0 <= j < |part[i].callIds| && part[i].callIds[j] == id;
      var k :| 0 <= k < |whole| && whole[k] == part[i];
      assert whole[k].callIds[j] == id;
    }
    if id in Returned(part) {
      var i :| 0 <= i < |part| && id in Nonempty(part[i].returnIds);
      var k :| 0 <= k < |whole| && whole[k] == part[i];
    }
  }

  /** A row's calls are calls of the projected messages. */
  lemma {:induction false} RowCalls(ms: seq<Message>, i: nat, id: string)
    requires i < |Rows(ms)| && id in CallIdsOf(Rows(ms)[i])
    ensures id in Calls(ms)
    decreases |ms|
  {
    hide Rows, Clean, IsBlock, InTurn, Calls;
    EmptyRows();
    var n := HeadBlock(ms);
    var head, rest := ms[..n], ms[n..];
    assert ms == head + rest;
    RowsAppend(head, rest);
    if i < |Rows(head)| {
      HeadCalls(head);
      AmongCalls(head, ms, id);
    } else {
      assert Rows(ms)[i] == Rows(rest)[i - |Rows(head)|];
      RowCalls(rest, i - |Rows(head)|, id);
      AmongCalls(rest, ms, id);
    }
  }

  lemma HeadCalls(block: seq<Message>)
    requires IsBlock(block)
    ensures forall i | 0 <= i < |Rows(block)| && Rows(block)[i].TurnRow? :: Rows(block)[i].callIds == Calls(block)
  {
    hide Rows, Contents, Thoughts, Calls, Returns, LastFork;
    BlockRows(block);
  }

  /** Every known call of the row that returns in the whole history returns in the slice. */
  ghost predicate ReturnsInside(r: Row, known: string -> Option<string>, part: seq<Message>, whole: seq<Message>) {
    forall id | id in CallIdsOf(r) && known(id).Some? && id in Returned(whole) :: id in Returned(part)
  }

  /** A row common to a history and a part of it is the same item in both exactly when its calls
      that return in the history return inside the part. */
  lemma SameItemIff(
    part: seq<Message>, i: nat, whole: seq<Message>, j: nat, known: string -> Option<string>)
    requires Among(part, whole) && i < |Rows(part)| && j < |Rows(whole)| && Rows(part)[i] == Rows(whole)[j]
    ensures Items(part, known)[i] == Items(whole, known)[j] <==> ReturnsInside(Rows(whole)[j], known, part, whole)
  {
    hide Rows, Shown, Calls, Returned;
    var r := Rows(whole)[j];
    var few, all := Table(part, known), Table(whole, known);
    forall id ensures id in Table(part, known) ==> id in all { AmongCalls(part, whole, id); }
    ShownIff(CallIdsOf(r), few, all);
    forall id | id in CallIdsOf(r) ensures id in Calls(part) && id in Calls(whole) {
      RowCalls(part, i, id);
      RowCalls(whole, j, id);
    }
  }

  lemma {:induction false} WithinAmong(ms: seq<Message>, first: int, last: int)
    ensures Among(Within(ms, first, last), ms)
  {
    if ms != [] { WithinAmong(ms[..|ms| - 1], first, last); }
  }

  // ---------------------------------------------------------------------------
  // Pages

  function Find(items: seq<Item>, b: Boundary): (r: Option<Item>)
    ensures r.Some? ==> r.value in items && BoundaryOf(r.value.row) == b
    ensures r.None? ==> forall i | 0 <= i < |items| :: BoundaryOf(items[i].row) != b
  {
    if items == [] then None else if BoundaryOf(items[0].row) == b then Some(items[0]) else Find(items[1..], b)
  }

  /** The last item with a boundary: what a dictionary filled in order holds for it. */
  function FindLast(items: seq<Item>, b: Boundary): (r: Option<Item>)
    ensures r.Some? ==> r.value in items && BoundaryOf(r.value.row) == b
    ensures r.None? ==> forall i | 0 <= i < |items| :: BoundaryOf(items[i].row) != b
  {
    if items == [] then None
    else if BoundaryOf(items[|items| - 1].row) == b then Some(items[|items| - 1])
    else FindLast(items[..|items| - 1], b)
  }

  function Projected(messages: seq<Message>, known: string -> Option<string>, b: Boundary): (r: Option<Item>)
    ensures r.Some? ==> BoundaryOf(r.value.row) == b
  {
    var own := FindLast(Items(messages, known), b);
    if own.Some? then own else Find(Items(Within(messages, b.start, b.end), known), b)
  }

  /** Projects a page: one item per requested boundary, in order, or an error.  A boundary missing
      from the page's own projection is tried on the messages of its interval alone. */
  method ProjectBoundaries(stored: seq<Message>, known: string -> Option<string>, boundaries: seq<Boundary>)
    returns (page: Result<seq<Item>>)
    ensures page.Ok? ==> |page.value| == |boundaries|
    ensures page.Ok? ==> forall i | 0 <= i < |boundaries| :: BoundaryOf(page.value[i].row) == boundaries[i]
    ensures boundaries == [] ==> page == Ok([])
    ensures boundaries != [] ==>
      var messages := Within(stored, boundaries[0].start, boundaries[|boundaries| - 1].end);
      && (page.Ok? <==> forall i | 0 <= i < |boundaries| :: Projected(messages, known, boundaries[i]).Some?)
      && (page.Ok? ==>
            forall i | 0 <= i < |boundaries| :: Projected(messages, known, boundaries[i]) == Some(page.value[i]))
  {
    hide Items, Within;
    if boundaries == [] {
      return Ok([]);
    }
    var messages := Within(stored, boundaries[0].start, boundaries[|boundaries| - 1].end);
    var items := CanonicalItems(messages, known);
    var projected: seq<Item> := [];
    for i := 0 to |boundaries|
      invariant |projected| == i
      invariant forall k | 0 <= k < i :: Projected(messages, known, boundaries[k]) == Some(projected[k])
    {
      var item := FindLast(items, boundaries[i]);
      if item.None? {
        var scoped := CanonicalItems(Within(messages, boundaries[i].start, boundaries[i].end), known);
        item := Find(scoped, boundaries[i]);
        if item.None? {
          return Err;
        }
      }
      projected := projected + [item.value];
    }
    return Ok(projected);
  }

  /** The messages between the boundaries of two rows. */
  function Slice(stored: seq<Message>, i: nat, j: nat): seq<Message>
    requires i <= j < |Rows(stored)|
  {
    Within(stored, BoundaryOf(Rows(stored)[i]).start, BoundaryOf(Rows(stored)[j]).end)
  }

  /** A page asked for the boundaries of consecutive rows of the history finds, in the messages
      between them alone, exactly those rows.  The item it shows is that of the whole history if
      and only if every known call of the row that returns at all returns inside the page. */
  lemma PageShowsTheRows(stored: seq<Message>, known: string -> Option<string>, i: nat, j: nat, k: nat)
    requires Increasing(stored) && i <= k <= j < |Rows(stored)|
    ensures var page := Slice(stored, i, j);
      var row := Rows(stored)[k];
      var shown := Projected(page, known, BoundaryOf(row));
      && shown.Some? && shown.value.row == row
      && (shown.value == Items(stored, known)[k] <==> ReturnsInside(row, known, page, stored))
  {
    hide Rows, Within, Items, Increasing, Slice, ReturnsInside, FindLast;
    PageFinds(stored, known, i, j, k);
    SliceAmong(stored, i, j);
    SameItemIff(Slice(stored, i, j), k - i, stored, k, known);
  }

  lemma SliceAmong(stored: seq<Message>, i: nat, j: nat)
    requires Increasing(stored) && i <= j < |Rows(stored)|
    ensures Among(Slice(stored, i, j), stored) && Rows(Slice(stored, i, j)) == Rows(stored)[i..j + 1]
  {
    hide Rows, Within, Increasing;
    RangeReprojects(stored, i, j);
    WithinAmong(stored, BoundaryOf(Rows(stored)[i]).start, BoundaryOf(Rows(stored)[j]).end);
  }

  /** Boundaries in a page are distinct, so each finds its own item. */
  lemma PageFinds(stored: seq<Message>, known: string -> Option<string>, i: nat, j: nat, k: nat)
    requires Increasing(stored) && i <= k <= j < |Rows(stored)|
    ensures var items := Items(Slice(stored, i, j), known);
      && |items| == j - i + 1 && items[k - i].row == Rows(stored)[k] &&
        Rows(Slice(stored, i, j))[k - i] == Rows(stored)[k]
      && Projected(Slice(stored, i, j), known, BoundaryOf(Rows(stored)[k])) == Some(items[k - i])
  {
    hide Rows, Within, Table, Shown, Increasing, Slice;
    var rows := Rows(stored);
    SliceAmong(stored, i, j);
    var items := Items(Slice(stored, i, j), known);
    assert forall n | 0 <= n < |items| :: items[n].row == rows[i + n];
    hide Items;
    hide BoundaryOf;
    forall n | 0 <= n < |items| && BoundaryOf(items[n].row) == BoundaryOf(rows[k]) ensures n == k - i {
      DistinctBoundaries(stored, i + n, k);
    }
    FindsOnly(items, BoundaryOf(rows[k]), k - i);
  }

  lemma DistinctBoundaries(stored: seq<Message>, a: nat, b: nat)
    requires Increasing(stored) && a < |Rows(stored)| && b < |Rows(stored)|
    requires BoundaryOf(Rows(stored)[a]) == BoundaryOf(Rows(stored)[b])
    ensures a == b
  {
    hide Rows, Increasing;
    if a < b { RowsAreOrdered(stored, a, b); }
    if b < a { RowsAreOrdered(stored, b, a); }
  }

  lemma FindsOnly(items: seq<Item>, b: Boundary, at: nat)
    requires at < |items| && BoundaryOf(items[at].row) == b
    requires forall n | 0 <= n < |items| && BoundaryOf(items[n].row) == b :: n == at
    ensures FindLast(items, b) == Some(items[at])
  {
    hide BoundaryOf;
    var found := FindLast(items, b);
    var n :| 0 <= n < |items| && items[n] == found.value;
  }

  /** Reprojecting the messages of one row alone is the case of a page of one row. */
  lemma RowReprojectsIff(stored: seq<Message>, known: string -> Option<string>, k: nat)
    requires Increasing(stored) && k < |Rows(stored)|
    ensures Rows(Slice(stored, k, k)) == [Rows(stored)[k]]
    ensures Items(Slice(stored, k, k), known) == [Items(stored, known)[k]] <==>
            ReturnsInside(Rows(stored)[k], known, Slice(stored, k, k), stored)
  {
    hide Rows, Within, Table, Shown, Increasing;
    var rows, page := Rows(stored), Slice(stored, k, k);
    SliceAmong(stored, k, k);
    assert rows[k..k + 1] == [rows[k]];
    SameItemIff(page, 0, stored, k, known);
  }

  function AlwaysKnown(id: string): Option<string> { Some("details") }

  /** A call whose return comes after the next user message: the page of its own row shows no
      summary for it, the whole history does. */
  lemma LateReturnLosesTheSummary()
    ensures var call := Message(1, Assistant, true, "", "", ["c"], [], None);
      var user := Message(2, User, false, "go on", "", [], [], None);
      var reply := Message(3, OtherRole, true, "", "", [], ["c"], None);
      var stored := [call, user, reply];
      && Increasing(stored) && |Rows(stored)| > 0
      && Items(stored, AlwaysKnown)[0].toolCalls == [ToolCall("c", "details")]
      && |Items(Slice(stored, 0, 0), AlwaysKnown)| == 1 && Items(Slice(stored, 0, 0), AlwaysKnown)[0].toolCalls == []
  {
    hide Rows, Within, Calls, Returned, Table;
    var call := Message(1, Assistant, true, "", "", ["c"], [], None);
    var user := Message(2, User, false, "go on", "", [], [], None);
    var reply := Message(3, OtherRole, true, "", "", [], ["c"], None);
    var stored := [call, user, reply];
    CallRow(call);
    assert stored == [call] + [user, reply];
    RowsAppend([call], [user, reply]);
    WithinIsSlice(stored, 0, 1);
    assert stored[0..1] == [call];
    assert Slice(stored, 0, 0) == [call];
    AmongCalls([call], stored, "c");
    ReturnedMeaning(stored, "c");
    assert "c" == stored[2].returnIds[0];
    ReturnedMeaning([call], "c");
    assert "c" in Table(stored, AlwaysKnown) && "c" !in Table([call], AlwaysKnown) by {
      TableHolds(stored);
      TableHolds([call]);
    }
    OneShown("c", Table(stored, AlwaysKnown));
    OneShown("c", Table([call], AlwaysKnown));
    assert Table(stored, AlwaysKnown)["c"] == "details" by { TableHolds(stored); }
  }

  lemma CallRow(call: Message)
    requires call.role.Assistant? && call.callIds == ["c"]
    ensures |Rows([call])| == 1 && Rows([call])[0].TurnRow? && Rows([call])[0].callIds == ["c"] && "c" in Calls([call])
    ensures BoundaryOf(Rows([call])[0]) == Boundary(call.index, call.index, false)
  {
    hide Rows, Contents, Thoughts, Calls, Returns, LastFork;
    BlockRows([call]);
    OneCall(call);
  }

  lemma OneCall(call: Message)
    requires call.callIds == ["c"]
    ensures Calls([call]) == ["c"]
  {
    var lists, ids := CallsOf([call]), ["c"];
    ConcatLast(lists);
    assert lists[..0] == [] && Concat([]) == [];
    DistinctLast([], "c");
    assert [] + ids == ids;
  }

  lemma TableHolds(ms: seq<Message>)
    ensures forall id :: id in Table(ms, AlwaysKnown) <==> id in Calls(ms) && id in Returned(ms)
    ensures forall id | id in Table(ms, AlwaysKnown) :: Table(ms, AlwaysKnown)[id] == "details"
  {
    hide Calls, Returned;
  }

  lemma OneShown(id: string, table: map<string, string>)
    ensures Shown([id], table) == if id in table then [ToolCall(id, table[id])] else []
  {
    var ids := [id];
    assert ids[..|ids| - 1] == [];
  }
}
