/** Paged listing of the direct children of a vault directory. */
module ChildPaging {
  import opened Common
  import Sorting
  import Text

  const MAX_PAGE: nat := 100

  /** A directory entry: its name, whether the picker shows it at all, and whether
      it resolves to a reference inside the vault. */
  datatype Child = Child(isDir: bool, name: string, shown: bool, listable: bool)

  function Key(c: Child): string { Text.Lower(c.name) }

  /** Directories first, then by name in lower case. */
  predicate Before(a: Child, b: Child) {
    (a.isDir && !b.isDir) || (a.isDir == b.isDir && Text.Less(Key(a), Key(b)))
  }

  predicate Shown(c: Child) { c.shown }

  predicate Listable(c: Child) { c.listable }

  function Eligible(entries: seq<Child>): seq<Child> { Sorting.Filter(Sorting.Sort(entries, Before), Shown) }

  /** The children that a complete listing has. */
  function References(children: seq<Child>): seq<Child> { Sorting.Filter(children, Listable) }

  /** The size of a page; zero stands for the default. */
  function BoundedLimit(limit: int): (r: nat)
    ensures 1 <= r <= MAX_PAGE
  {
    if limit == 0 || limit > MAX_PAGE then MAX_PAGE else if limit < 1 then 1 else limit
  }

  function BoundedOffset(offset: int): nat { if offset < 0 then 0 else offset }

  function Skip(s: seq<Child>, k: int): seq<Child> {
    if k <= 0 then s else if |s| <= k then [] else s[k..]
  }

  // ---------------------------------------------------------------------------
  // One page

  /** The first `limit` references. */
  function Items(children: seq<Child>, limit: nat): seq<Child> {
    var all := References(children);
    if |all| <= limit then all else all[..limit]
  }

  /** Whether `limit` references come before the last child. */
  predicate Truncated(children: seq<Child>, limit: nat) {
    children != [] && |References(children[..|children| - 1])| >= limit
  }

  /** The page and whether it is truncated, given what was collected before `children`. */
  function Continued(items: seq<Child>, children: seq<Child>, limit: nat): (seq<Child>, bool)
    requires |items| <= limit
  {
    (items + Items(children, limit - |items|), Truncated(children, limit - |items|))
  }

  lemma ContinuedStart(children: seq<Child>, limit: nat)
    ensures Continued([], children, limit) == (Items(children, limit), Truncated(children, limit))
  {
    assert [] + Items(children, limit) == Items(children, limit);
  }

  lemma ContinuedEnd(items: seq<Child>, limit: nat)
    requires |items| <= limit
    ensures Continued(items, [], limit) == (items, false)
  {
    assert items + [] == items;
  }

  lemma ContinuedFull(items: seq<Child>, children: seq<Child>)
    requires children != []
    ensures Continued(items, children, |items|) == (items, true)
  {
    assert items + [] == items && Items(children, 0) == [];
  }

  lemma ContinuedNext(items: seq<Child>, c: Child, rest: seq<Child>, limit: nat)
    requires |items| < limit
    ensures Continued(items, [c] + rest, limit) == Continued(if c.listable then items + [c] else items, rest, limit)
  {
    hide Items, Truncated;
    FirstChild(c, rest, limit - |items|);
    if c.listable {
      var tail := Items(rest, limit - |items| - 1);
      assert items + ([c] + tail) == (items + [c]) + tail;
    } else {
      assert [] + Items(rest, limit - |items|) == Items(rest, limit - |items|);
    }
  }

  lemma FirstChild(c: Child, rest: seq<Child>, limit: nat)
    requires limit > 0
    ensures var left := if c.listable then limit - 1 else limit;
      Items([c] + rest, limit) == (if c.listable then [c] else []) + Items(rest, left)
      && (Truncated([c] + rest, limit) <==> Truncated(rest, left))
  {
    hide Sorting.Filter;
    Sorting.FilterFirst(c, rest, Listable);
    var all := [c] + rest;
    if rest == [] {
      assert all[..|all| - 1] == [];
      NoReferences();
    } else {
      var front := rest[..|rest| - 1];
      assert all[..|all| - 1] == [c] + front;
      Sorting.FilterFirst(c, front, Listable);
    }
  }

  lemma NoReferences()
    ensures References([]) == []
  {
  }

  lemma SkipFirst(children: seq<Child>, i: nat, k: int)
    requires i < |children|
    ensures var c := children[i];
      var rest := Sorting.Filter(children[i + 1..], Shown);
      Skip(Sorting.Filter(children[i..], Shown), k) ==
        if !c.shown then Skip(rest, k) else if k > 0 then Skip(rest, k - 1) else [c] + rest
  {
    hide Sorting.Filter;
    assert children[i..] == [children[i]] + children[i + 1..];
    Sorting.FilterFirst(children[i], children[i + 1..], Shown);
  }

  /** The loop over the sorted children: the first references after the skipped children, as many as
      the bounded limit, whether a child was left for a next page, and where that page starts. */
  method ListChildren(entries: seq<Child>, requestedLimit: int, requestedOffset: int)
    returns (items: seq<Child>, truncated: bool, next: Option<nat>)
    ensures var limit := if requestedLimit == 0 || requestedLimit > 100 then 100
        else if requestedLimit < 1 then 1 else requestedLimit;
      var offset := if requestedOffset < 0 then 0 else requestedOffset;
      var all := Eligible(entries);
      var remaining := if offset < |all| then all[offset..] else [];
      && items <= References(remaining)
      && |items| == (if |References(remaining)| < limit then |References(remaining)| else limit)
      && (truncated <==> remaining != [] && |References(remaining[..|remaining| - 1])| >= limit)
      && next == if truncated then Some(offset + |items|) else None
  {
    hide Items, Truncated, Continued, Skip, Sorting.Filter, Sorting.Sort, Before, Eligible;
    var limit, offset := BoundedLimit(requestedLimit), BoundedOffset(requestedOffset);
    var children := Sorting.Sort(entries, Before);
    items, truncated := [], false;
    var index: nat, i := 0, 0;
    ghost var remaining := Skip(Eligible(entries), offset);
    EligibleIs(entries);
    ghost var rest := remaining;
    assert children[0..] == children;
    ContinuedStart(remaining, limit);
    while i < |children|
      invariant i <= |children| && |items| <= limit && (index < offset ==> items == [])
      invariant rest == Skip(Sorting.Filter(children[i..], Shown), offset - index)
      invariant Continued(items, rest, limit) == (Items(remaining, limit), Truncated(remaining, limit))
      decreases |children| - i
    {
      var c := children[i];
      SkipFirst(children, i, offset - index);
      if !c.shown {
      } else if index < offset {
        index := index + 1;
      } else {
        SkipNone(Sorting.Filter(children[i + 1..], Shown), offset - index);
        rest := Sorting.Filter(children[i + 1..], Shown);
        if |items| >= limit {
          ContinuedFull(items, [c] + rest);
          truncated := true;
          break;
        }
        ContinuedNext(items, c, rest, limit);
        if c.listable {
          items := items + [c];
        }
        index := index + 1;
        SkipNone(rest, offset - index);
      }
      i := i + 1;
    }
    if !truncated {
      assert children[i..] == [];
      NothingLeft(offset - index);
      ContinuedEnd(items, limit);
    }
    next := if truncated then Some(offset + |items|) else None;
    PageMeaning(Eligible(entries), offset, limit);
  }

  lemma PageMeaning(all: seq<Child>, offset: nat, limit: nat)
    ensures var remaining := if offset < |all| then all[offset..] else [];
      && Skip(all, offset) == remaining
      && Items(remaining, limit) <= References(remaining)
      && |Items(remaining, limit)| == (if |References(remaining)| < limit then |References(remaining)| else limit)
      && (Truncated(remaining, limit) <==>
            remaining != [] && |References(remaining[..|remaining| - 1])| >= limit)
  {
    hide References;
  }

  lemma EligibleIs(entries: seq<Child>)
    ensures Eligible(entries) == Sorting.Filter(Sorting.Sort(entries, Before), Shown)
  {
  }

  lemma SkipNone(s: seq<Child>, k: int)
    requires k <= 0
    ensures Skip(s, k) == s
  {
  }

  lemma NothingLeft(k: int)
    ensures Skip(Sorting.Filter([], Shown), k) == []
  {
  }

  // ---------------------------------------------------------------------------
  // Following the pages

  lemma TruncatedPage(children: seq<Child>, limit: nat)
    requires Truncated(children, limit)
    ensures |Items(children, limit)| == limit < |children|
  {
    var front, last := children[..|children| - 1], children[|children| - 1];
    assert children == front + [last];
    Sorting.FilterAppend(front, [last], Listable);
  }

  lemma CompletePage(children: seq<Child>, limit: nat)
    requires !Truncated(children, limit)
    ensures Items(children, limit) == References(children)
  {
    if children != [] {
      var front, last := children[..|children| - 1], children[|children| - 1];
      assert children == front + [last];
      Sorting.FilterAppend(front, [last], Listable);
    }
  }

  /** All pages from here on, each next one starting `limit` children further. */
  function Follow(children: seq<Child>, limit: nat): seq<Child>
    requires limit > 0
    decreases |children|
  {
    if Truncated(children, limit) then
      TruncatedPage(children, limit);
      Items(children, limit) + Follow(children[limit..], limit)
    else Items(children, limit)
  }

  lemma SplitReferences(children: seq<Child>, k: nat)
    requires k <= |children|
    ensures References(children) == References(children[..k]) + References(children[k..])
  {
    assert children == children[..k] + children[k..];
    Sorting.FilterAppend(children[..k], children[k..], Listable);
  }

  /** Following the offsets omits no reference. */
  lemma {:induction false} FollowOmitsNone(children: seq<Child>, limit: nat)
    requires limit > 0
    ensures multiset(References(children)) <= multiset(Follow(children, limit))
    ensures |References(children)| <= |Follow(children, limit)|
    decreases |children|
  {
    hide References, Truncated, Items;
    if Truncated(children, limit) {
      TruncatedPage(children, limit);
      FollowOmitsNone(children[limit..], limit);
      SplitReferences(children, limit);
      PageStartsWith(children, limit);
      PrefixMultiset(References(children[..limit]), Items(children, limit));
    } else {
      CompletePage(children, limit);
    }
  }

  /** A truncated page has the references of the children that the next page skips. */
  lemma PageStartsWith(children: seq<Child>, limit: nat)
    requires Truncated(children, limit)
    ensures limit <= |children| && References(children[..limit]) <= Items(children, limit)
  {
    hide References;
    TruncatedPage(children, limit);
    SplitReferences(children, limit);
    AtMost(children[..limit]);
  }

  lemma PrefixMultiset(a: seq<Child>, b: seq<Child>)
    requires a <= b
    ensures multiset(a) <= multiset(b)
  {
    assert b == a + b[|a|..];
  }

  lemma AtMost(children: seq<Child>)
    ensures |References(children)| <= |children|
  {
  }

  /** Number of leading children that are references. */
  function Leading(children: seq<Child>): (n: nat)
    ensures n <= |children| && (forall i | 0 <= i < n :: children[i].listable) &&
      (n < |children| ==> !children[n].listable)
  {
    if children == [] || !children[0].listable then 0 else 1 + Leading(children[1..])
  }

  lemma {:induction false} LeadingAppend(children: seq<Child>, k: nat)
    requires k <= Leading(children)
    ensures Leading(children) == k + Leading(children[k..])
  {
    if k == 0 {
      assert children[0..] == children;
    } else {
      LeadingAppend(children[1..], k - 1);
      assert children[1..][k - 1..] == children[k..];
    }
  }

  lemma AllReferences(children: seq<Child>)
    requires forall i | 0 <= i < |children| :: children[i].listable
    ensures References(children) == children
  {
    Sorting.FilterAll(children, Listable);
  }

  lemma {:induction false} GapLeavesOut(children: seq<Child>, k: nat)
    requires Leading(children) < k <= |children|
    ensures |References(children[..k])| < k
  {
    var g := Leading(children);
    var a, c, b := children[..g], children[g], children[g + 1..k];
    assert children[..k] == a + ([c] + b);
    Sorting.FilterAppend(a, [c] + b, Listable);
    Sorting.FilterFirst(c, b, Listable);
  }

  /** Fewer references remain further on. */
  lemma TruncatedEarlier(children: seq<Child>, k: nat, limit: nat)
    requires k <= |children| && Truncated(children[k..], limit)
    ensures Truncated(children, limit)
  {
    var front := children[..|children| - 1];
    assert children[k..][..|children[k..]| - 1] == front[k..];
    SplitReferences(front, k);
  }

  /** The greatest multiple of `d` that is not above `n`. */
  function Multiple(n: nat, d: nat): (o: nat)
    requires d > 0
    ensures o <= n < o + d && (n < d ==> o == 0)
  {
    if n < d then 0 else d + Multiple(n - d, d)
  }

  /** Where the page starts that meets the first child which is no reference. */
  function GapPage(children: seq<Child>, limit: nat): (o: nat)
    requires limit > 0
    ensures o <= Leading(children) < o + limit && o <= |children|
  {
    Multiple(Leading(children), limit)
  }

  lemma MultipleStep(n: nat, d: nat)
    requires d > 0
    ensures Multiple(d + n, d) == d + Multiple(n, d)
  {
  }

  /** The pages together are the complete listing, each reference once and in order, exactly when
      the page that starts at the block of the first child that is no reference is the last one:
      when fewer than `limit` references remain there before the last child.  In particular they
      are when every child is a reference. */
  lemma {:induction false} FollowExactIff(children: seq<Child>, limit: nat)
    requires limit > 0
    ensures Follow(children, limit) == References(children) <==> !Truncated(children[GapPage(children, limit)..], limit)
    decreases |children|
  {
    hide References, Leading, Truncated, Items, Multiple;
    var o := GapPage(children, limit);
    if !Truncated(children, limit) {
      CompletePage(children, limit);
      if Truncated(children[o..], limit) { TruncatedEarlier(children, o, limit); }
    } else {
      TruncatedPage(children, limit);
      SplitReferences(children, limit);
      var rest := children[limit..];
      FollowOmitsNone(rest, limit);
      if limit <= Leading(children) {
        AllReferences(children[..limit]);
        LeadingAppend(children, limit);
        MultipleStep(Leading(rest), limit);
        assert o == limit + GapPage(rest, limit);
        assert children[o..] == rest[o - limit..];
        FullPage(children, limit);
        assert Follow(children, limit)[limit..] == Follow(rest, limit) &&
          References(children)[limit..] == References(rest);
        FollowExactIff(rest, limit);
      } else {
        GapLeavesOut(children, limit);
        EarlyGap(children, limit);
        assert children[o..] == children;
      }
    }
  }

  lemma EarlyGap(children: seq<Child>, limit: nat)
    requires 0 < limit && Leading(children) < limit
    ensures GapPage(children, limit) == 0
  {
  }

  lemma FullPage(children: seq<Child>, limit: nat)
    requires limit <= |children| && References(children[..limit]) == children[..limit]
    ensures Items(children, limit) == children[..limit]
  {
    hide Sorting.Filter;
    SplitReferences(children, limit);
  }

  lemma AllListable(children: seq<Child>, limit: nat)
    requires limit > 0 && forall i | 0 <= i < |children| :: children[i].listable
    ensures Follow(children, limit) == children
  {
    hide References;
    assert Leading(children) == |children|;
    var rest := children[GapPage(children, limit)..];
    AtMost(rest[..if rest == [] then 0 else |rest| - 1]);
    FollowExactIff(children, limit);
    AllReferences(children);
  }

  lemma BeforeIsWeakOrder()
    ensures Sorting.WeakOrder(Before)
  {
    hide Key, Text.Less;
    forall a, b | Before(a, b) ensures !Before(b, a) {
      if Text.Less(Key(a), Key(b)) && Text.Less(Key(b), Key(a)) {
        Text.LessTransitive(Key(a), Key(b), Key(a));
        Text.LessIrreflexive(Key(a));
      }
    }
    forall a, b, c | Before(a, c) ensures Before(a, b) || Before(b, c) {
      if a.isDir == b.isDir == c.isDir {
        Text.LessTotal(Key(a), Key(b));
        if Text.Less(Key(b), Key(a)) { Text.LessTransitive(Key(b), Key(a), Key(c)); }
      }
    }
  }

  predicate NotAfter(a: Child, b: Child) { !Before(b, a) }

  /** The complete listing has every entry that is shown and a reference, as often as the directory
      has it, directories first and by name within each kind; the offsets count the shown entries. */
  lemma ListingInOrder(entries: seq<Child>, c: Child)
    ensures var all := References(Eligible(entries));
      forall i, j | 0 <= i < j < |all| ::
        && (all[j].isDir ==> all[i].isDir)
        && (all[i].isDir == all[j].isDir ==> !Text.Less(Text.Lower(all[j].name), Text.Lower(all[i].name)))
    ensures multiset(Eligible(entries))[c] == if c.shown then multiset(entries)[c] else 0
    ensures multiset(References(Eligible(entries)))[c] == if c.shown && c.listable then multiset(entries)[c] else 0
  {
    hide Before, Sorting.Filter, Sorting.Sort;
    BeforeIsWeakOrder();
    var sorted := Sorting.Sort(entries, Before);
    Sorting.SortCorrect(entries, Before);
    InOrderNotAfter(sorted);
    Sorting.FilterPairs(sorted, Shown, NotAfter);
    Sorting.FilterPairs(Eligible(entries), Listable, NotAfter);
    Sorting.FilterCounts(sorted, Shown, c);
    Sorting.FilterCounts(Eligible(entries), Listable, c);
    InOrderMeaning(References(Eligible(entries)));
  }

  lemma InOrderMeaning(all: seq<Child>)
    requires forall i, j | 0 <= i < j < |all| :: NotAfter(all[i], all[j])
    ensures forall i, j | 0 <= i < j < |all| ::
      && (all[j].isDir ==> all[i].isDir)
      && (all[i].isDir == all[j].isDir ==> !Text.Less(Text.Lower(all[j].name), Text.Lower(all[i].name)))
  {
    hide Text.Less, Text.Lower;
    forall i, j | 0 <= i < j < |all|
      ensures (all[j].isDir ==> all[i].isDir) &&
        (all[i].isDir == all[j].isDir ==> !Text.Less(Text.Lower(all[j].name), Text.Lower(all[i].name)))
    {
      assert NotAfter(all[i], all[j]);
    }
  }

  lemma InOrderNotAfter(s: seq<Child>)
    requires Sorting.Sorted(s, Before)
    ensures forall i, j | 0 <= i < j < |s| :: NotAfter(s[i], s[j])
  {
  }

  /** The reported next offset is where the following page of the same directory starts, and lies
      inside it, so following offsets ends. */
  lemma NextOffset(entries: seq<Child>, offset: nat, limit: nat)
    requires Truncated(Skip(Eligible(entries), offset), limit)
    ensures var remaining := Skip(Eligible(entries), offset);
      var next := offset + |Items(remaining, limit)|;
      next == offset + limit < |Eligible(entries)| && Skip(Eligible(entries), next) == remaining[limit..]
  {
    hide Eligible, Items;
    var all := Eligible(entries);
    TruncatedPage(Skip(all, offset), limit);
  }

  /** A directory with a child outside the vault: pages of one repeat what follows it. */
  lemma GapRepeats()
    ensures var b, link, c, d := Child(true, "b", true, true), Child(true, "a", true, false),
      Child(true, "c", true, true), Child(true, "d", true, true);
      Follow([link, b, c, d], 1) != References([link, b, c, d])
  {
    var b, link, c, d := Child(true, "b", true, true), Child(true, "a", true, false), Child(true, "c", true, true),
      Child(true, "d", true, true);
    var s := [link, b, c, d];
    assert Leading(s) == 0;
    assert s[0..] == s && s[..3] == [link, b, c];
    Sorting.FilterFirst(link, [b, c], Listable);
    Sorting.FilterFirst(b, [c], Listable);
    FollowExactIff(s, 1);
  }
}
