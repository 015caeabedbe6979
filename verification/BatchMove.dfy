/** Moving several selections as one preflighted activity, with compensation. */
module BatchMove {
  import opened Common
  import opened VaultTree

  datatype MoveError =
    | TooFewSources
    | InvalidPath
    | DuplicateSource
    | TraversalPath
    | OverlappingSources
    | DestinationNotDirectory
    | TargetCollision
    | SourceNotFound(index: nat)
    | SourceEqualsDestination(index: nat)
    | DestinationInsideSource(index: nat)
    | TargetExists(index: nat)

  datatype CompensationError = StillMoved(index: nat) | AmbiguousState(index: nat)

  datatype BatchResult =
    | Moved
    | Rejected(error: MoveError)
    | Reraised
    | StateUncertain(errors: seq<CompensationError>)
    | ActivityUnfinished

  /** A batch with resolved sources; every target keeps its source's name. */
  datatype Batch = Batch(sources: seq<Path>, destination: Path) {
    ghost predicate Named() {
      forall i | 0 <= i < |sources| :: sources[i] != []
    }

    function Target(i: nat): Path
      requires i < |sources| && sources[i] != []
    {
      destination + [Name(sources[i])]
    }
  }

  predicate PairwiseApart(ps: seq<Path>) {
    forall i, j | 0 <= i < j < |ps| :: Apart(ps[i], ps[j])
  }

  lemma WithinIsNotApart(a: Path, b: Path)
    requires a <= b
    ensures !Apart(a, b) && !Apart(b, a)
  {
  }

  // ---------------------------------------------------------------------------
  // Preflight

  /** The checks made for one item, in order. */
  function PreflightItem(t: Tree, b: Batch, i: nat): (r: Option<MoveError>)
    requires i < |b.sources| && b.sources[i] != []
    ensures r.Some? ==> !r.value.DestinationNotDirectory? && !r.value.TargetCollision?
  {
    var s, d := b.sources[i], b.Target(i);
    if s !in t then Some(SourceNotFound(i))
    else if d == s then Some(SourceEqualsDestination(i))
    else if t[s].Directory? && s <= d then Some(DestinationInsideSource(i))
    else if d in t then Some(TargetExists(i))
    else None
  }

  /** Which check an item fails, each given that the ones before it pass. */
  lemma PreflightItemMeaning(t: Tree, b: Batch, i: nat)
    requires i < |b.sources| && b.sources[i] != []
    ensures var r := PreflightItem(t, b, i);
      var s, d := b.sources[i], b.destination + [b.sources[i][|b.sources[i]| - 1]];
      && (r == Some(SourceNotFound(i)) <==> s !in t)
      && (r == Some(SourceEqualsDestination(i)) <==> s in t && d == s)
      && (r == Some(DestinationInsideSource(i)) <==> s in t && d != s && t[s].Directory? && s <= d)
      && (r == Some(TargetExists(i)) <==> s in t && d != s && !(t[s].Directory? && s <= d) && d in t)
      && (r.None? <==> s in t && d != s && !(t[s].Directory? && s <= d) && d !in t)
  {
  }

  ghost predicate DistinctTargets(b: Batch)
    requires b.Named()
  {
    forall i, j | 0 <= i < j < |b.sources| :: b.Target(i) != b.Target(j)
  }

  /** Everything preflight and the source checks establish. */
  ghost predicate Admissible(t: Tree, b: Batch) {
    && WellFormed(t) && b.Named() && PairwiseApart(b.sources)
    && b.destination in t && t[b.destination].Directory?
    && DistinctTargets(b)
    && forall i | 0 <= i < |b.sources| :: PreflightItem(t, b, i).None?
  }

  /** The first failing check of the items from `i` on. */
  function FirstItemError(t: Tree, b: Batch, i: nat): (r: Option<MoveError>)
    requires i <= |b.sources| && b.Named()
    ensures r.None? <==> forall j | i <= j < |b.sources| :: PreflightItem(t, b, j).None?
    ensures r.Some? ==> !r.value.DestinationNotDirectory? && !r.value.TargetCollision?
    decreases |b.sources| - i
  {
    if i == |b.sources| then None
    else if PreflightItem(t, b, i).Some? then PreflightItem(t, b, i)
    else FirstItemError(t, b, i + 1)
  }

  /** The first failing check, in the order they are made. */
  ghost function PreflightError(t: Tree, b: Batch): Option<MoveError>
    requires b.Named()
  {
    if !(b.destination in t && t[b.destination].Directory?) then Some(DestinationNotDirectory)
    else if !DistinctTargets(b) then Some(TargetCollision)
    else FirstItemError(t, b, 0)
  }

  /** `len(set(targets)) != len(targets)`. */
  method TargetsCollide(b: Batch) returns (collide: bool)
    requires b.Named()
    ensures collide <==> !DistinctTargets(b)
  {
    var seen: set<Path> := {};
    for i := 0 to |b.sources|
      invariant forall j | 0 <= j < i :: b.Target(j) in seen
      invariant forall p | p in seen :: exists j | 0 <= j < i :: b.Target(j) == p
      invariant forall j, k | 0 <= j < k < i :: b.Target(j) != b.Target(k)
    {
      if b.Target(i) in seen {
        return true;
      }
      seen := seen + {b.Target(i)};
    }
    return false;
  }

  /** Reports the first failing check in source order, if any. */
  method Preflight(t: Tree, b: Batch) returns (r: Option<MoveError>)
    requires WellFormed(t) && b.Named() && PairwiseApart(b.sources)
    ensures r == PreflightError(t, b)
    ensures r.None? <==> Admissible(t, b)
    ensures r == Some(DestinationNotDirectory) <==> !(b.destination in t && t[b.destination].Directory?)
    ensures r == Some(TargetCollision) <==>
            b.destination in t && t[b.destination].Directory? && !DistinctTargets(b)
    ensures r.Some? && !r.value.DestinationNotDirectory? && !r.value.TargetCollision? ==>
            exists i | 0 <= i < |b.sources| ::
              r == PreflightItem(t, b, i) && forall j | 0 <= j < i :: PreflightItem(t, b, j).None?
  {
    hide PreflightItem, WellFormed, PairwiseApart, DistinctTargets;
    if b.destination !in t || !t[b.destination].Directory? {
      return Some(DestinationNotDirectory);
    }
    var collide := TargetsCollide(b);
    if collide {
      return Some(TargetCollision);
    }
    for i := 0 to |b.sources|
      invariant forall j | 0 <= j < i :: PreflightItem(t, b, j).None?
      invariant FirstItemError(t, b, 0) == FirstItemError(t, b, i)
    {
      r := PreflightItem(t, b, i);
      if r.Some? {
        return;
      }
    }
    return None;
  }

  lemma PreflightPassesIff(t: Tree, b: Batch)
    requires WellFormed(t) && b.Named() && PairwiseApart(b.sources)
    ensures PreflightError(t, b).None? <==> Admissible(t, b)
  {
    hide PreflightItem, WellFormed, PairwiseApart, DistinctTargets;
  }

  // ---------------------------------------------------------------------------
  // Independence of the moves

  /** Every source and target is apart from every other one, and every target is free. */
  ghost predicate Independent(t: Tree, b: Batch)
  {
    && b.Named()
    && (forall i, j | 0 <= i < |b.sources| && 0 <= j < |b.sources| && i != j :: Apart(b.sources[i], b.sources[j]))
    && (forall i, j | 0 <= i < |b.sources| && 0 <= j < |b.sources| && i != j :: Apart(b.Target(i), b.Target(j)))
    && (forall i, j | 0 <= i < |b.sources| && 0 <= j < |b.sources| :: Apart(b.sources[i], b.Target(j)))
    && (forall i | 0 <= i < |b.sources| :: Free(t, b.Target(i)) && b.sources[i] in t)
  }

  lemma SourceNotAboveDestination(t: Tree, b: Batch, i: nat)
    requires Admissible(t, b) && i < |b.sources|
    ensures !(b.sources[i] <= b.destination)
  {
    var s := b.sources[i];
    assert PreflightItem(t, b, i).None?;
    assert s <= b.destination ==> s <= b.Target(i);
    if s <= b.destination { AncestorsExist(t, s, b.destination); }
  }

  lemma SourceTargetApart(t: Tree, b: Batch, i: nat, j: nat)
    requires Admissible(t, b) && i < |b.sources| && j < |b.sources|
    ensures Apart(b.sources[i], b.Target(j))
  {
    assert PreflightItem(t, b, i).None? && PreflightItem(t, b, j).None?;
    SourceNotAboveDestination(t, b, i);
    AbsentIsFree(t, b.Target(j));
    var s, d := b.sources[i], b.Target(j);
    assert s <= d && s != d ==> s <= b.destination;
  }

  /** The overlap checks and preflight make the moves independent of each other. */
  lemma AdmissibleIsIndependent(t: Tree, b: Batch)
    requires Admissible(t, b)
    ensures Independent(t, b)
  {
    forall i, j | 0 <= i < |b.sources| && 0 <= j < |b.sources|
      ensures Apart(b.sources[i], b.Target(j))
    {
      SourceTargetApart(t, b, i, j);
    }
    forall i | 0 <= i < |b.sources| ensures Free(t, b.Target(i)) && b.sources[i] in t {
      assert PreflightItem(t, b, i).None?;
      AbsentIsFree(t, b.Target(i));
    }
    forall i, j | 0 <= i < |b.sources| && 0 <= j < |b.sources| && i != j
      ensures Apart(b.Target(i), b.Target(j)) && Apart(b.sources[i], b.sources[j])
    {
      if i < j { assert b.Target(i) != b.Target(j); } else { assert b.Target(j) != b.Target(i); }
    }
  }

  ghost predicate Indexes(b: Batch, moved: set<nat>) {
    forall i | i in moved :: i < |b.sources|
  }

  /** Where a node of the starting tree is once the items in `moved` have moved. */
  ghost function Away(b: Batch, moved: set<nat>, p: Path): Path
    requires b.Named() && Indexes(b, moved)
  {
    if exists i | i in moved :: b.sources[i] <= p then
      var i :| i in moved && b.sources[i] <= p;
      Shift(b.sources[i], b.Target(i), p)
    else p
  }

  lemma AwayCovered(t: Tree, b: Batch, moved: set<nat>, p: Path, i: nat)
    requires Independent(t, b) && Indexes(b, moved) && i in moved && b.sources[i] <= p
    ensures Away(b, moved, p) == Shift(b.sources[i], b.Target(i), p)
  {
    forall j | j in moved && b.sources[j] <= p ensures j == i {
      assert j != i ==> Apart(b.sources[i], b.sources[j]);
    }
  }

  lemma AwayUncovered(b: Batch, moved: set<nat>, p: Path)
    requires b.Named() && Indexes(b, moved) && forall i | i in moved :: !(b.sources[i] <= p)
    ensures Away(b, moved, p) == p
  {
  }

  /** Nothing lies below both of two paths that are apart. */
  lemma BelowOne(a: Path, c: Path, p: Path)
    requires Apart(a, c) && a <= p
    ensures !(c <= p)
  {
    assert a == p[..|a|];
    if |c| <= |a| { assert c <= a <==> c <= p; }
  }

  /** One more item moved: the images compose. */
  lemma AwayForward(t: Tree, b: Batch, moved: set<nat>, i: nat, p: Path)
    requires Independent(t, b) && Indexes(b, moved) && i < |b.sources| && i !in moved && p in t
    ensures Shift(b.sources[i], b.Target(i), Away(b, moved, p)) == Away(b, moved + {i}, p)
  {
    hide Away, Shift, Apart;
    var more := moved + {i};
    if j :| j in moved && b.sources[j] <= p {
      AwayCovered(t, b, moved, p, j);
      AwayCovered(t, b, more, p, j);
      TargetsKeepOut(t, b, i, j, p);
    } else {
      AwayUncovered(b, moved, p);
      if b.sources[i] <= p {
        AwayCovered(t, b, more, p, i);
      } else {
        AwayUncovered(b, more, p);
        ShiftElsewhere(b.sources[i], b.Target(i), p);
      }
    }
  }

  lemma ShiftElsewhere(s: Path, d: Path, p: Path)
    requires !(s <= p)
    ensures Shift(s, d, p) == p
  {
  }

  lemma ShiftBelow(s: Path, d: Path, p: Path)
    requires s <= p
    ensures d <= Shift(s, d, p)
  {
  }

  /** What lies below one target is not moved with another source. */
  lemma TargetsKeepOut(t: Tree, b: Batch, i: nat, j: nat, p: Path)
    requires Independent(t, b) && i < |b.sources| && j < |b.sources| && b.sources[j] <= p
    ensures var q := Shift(b.sources[j], b.Target(j), p); Shift(b.sources[i], b.Target(i), q) == q
  {
    assert Apart(b.sources[i], b.Target(j));
    hide Independent, Shift;
    var q := Shift(b.sources[j], b.Target(j), p);
    ShiftBelow(b.sources[j], b.Target(j), p);
    BelowOne(b.Target(j), b.sources[i], q);
    ShiftElsewhere(b.sources[i], b.Target(i), q);
  }

  /** One item moved back: the image forgets that item. */
  lemma AwayBackward(t: Tree, b: Batch, moved: set<nat>, i: nat, p: Path)
    requires Independent(t, b) && Indexes(b, moved) && i in moved && p in t
    ensures Shift(b.Target(i), b.sources[i], Away(b, moved, p)) == Away(b, moved - {i}, p)
  {
    if b.sources[i] <= p {
      AwayCovered(t, b, moved, p, i);
      var q := Away(b, moved, p);
      assert q[|b.Target(i)|..] == p[|b.sources[i]|..];
      assert Shift(b.Target(i), b.sources[i], q) == p;
      forall j | j in moved - {i} ensures !(b.sources[j] <= p) {
        BelowOne(b.sources[i], b.sources[j], p);
      }
    } else if j :| j in moved && b.sources[j] <= p {
      AwayCovered(t, b, moved, p, j);
      AwayCovered(t, b, moved - {i}, p, j);
      var q := Away(b, moved, p);
      assert i != j;
      BelowOne(b.Target(j), b.Target(i), q);
    }
  }

  lemma AwayInjective(t: Tree, b: Batch, moved: set<nat>, p: Path, q: Path)
    requires Independent(t, b) && Indexes(b, moved) && p in t && q in t
    requires Away(b, moved, p) == Away(b, moved, q)
    ensures p == q
    decreases moved
  {
    if i :| i in moved {
      AwayBackward(t, b, moved, i, p);
      AwayBackward(t, b, moved, i, q);
      AwayInjective(t, b, moved - {i}, p, q);
    }
  }

  /** The tree in which exactly the items in `moved` sit at their targets. */
  ghost function Placed(t: Tree, b: Batch, moved: set<nat>): Tree
    requires Independent(t, b) && Indexes(b, moved)
  {
    PlacedKeys(t, b, moved);
    map p | p in t :: Away(b, moved, p) := t[p]
  }

  lemma PlacedKeys(t: Tree, b: Batch, moved: set<nat>)
    requires Independent(t, b) && Indexes(b, moved)
    ensures forall p, q | p in t && q in t && Away(b, moved, p) == Away(b, moved, q) :: p == q
  {
    forall p, q | p in t && q in t && Away(b, moved, p) == Away(b, moved, q) ensures p == q {
      AwayInjective(t, b, moved, p, q);
    }
  }

  lemma PlacedAt(t: Tree, b: Batch, moved: set<nat>, p: Path)
    requires Independent(t, b) && Indexes(b, moved) && p in t
    ensures var u := Placed(t, b, moved); var q := Away(b, moved, p); q in u && u[q] == t[p]
  {
    PlacedKeys(t, b, moved);
  }

  lemma PlacedFrom(t: Tree, b: Batch, moved: set<nat>, q: Path) returns (p: Path)
    requires Independent(t, b) && Indexes(b, moved) && q in Placed(t, b, moved)
    ensures p in t && Away(b, moved, p) == q
  {
    p :| p in t && Away(b, moved, p) == q;
  }

  lemma PlacedNothing(t: Tree, b: Batch)
    requires Independent(t, b)
    ensures Placed(t, b, {}) == t
  {
    var r := Placed(t, b, {});
    assert forall p :: Away(b, {}, p) == p;
    forall p | p in t ensures p in r && r[p] == t[p] {
      PlacedAt(t, b, {}, p);
    }
    forall q | q in r ensures q in t {
      var p := PlacedFrom(t, b, {}, q);
    }
  }

  /** Every intermediate tree is determined by the set of moved items: an item that has not
      moved is at its source and its target is free; an item that has moved, the reverse. */
  lemma PlacedPresence(t: Tree, b: Batch, moved: set<nat>, i: nat)
    requires Independent(t, b) && Indexes(b, moved) && i < |b.sources|
    ensures i !in moved ==> b.sources[i] in Placed(t, b, moved) && Free(Placed(t, b, moved), b.Target(i))
    ensures i in moved ==> b.Target(i) in Placed(t, b, moved) && Free(Placed(t, b, moved), b.sources[i])
  {
    hide Placed, Away;
    PlacedRoot(t, b, moved, i);
    forall q | q in Placed(t, b, moved)
      ensures !((if i in moved then b.sources[i] else b.Target(i)) <= q)
    {
      PlacedBelow(t, b, moved, i, q);
    }
  }

  lemma PlacedRoot(t: Tree, b: Batch, moved: set<nat>, i: nat)
    requires Independent(t, b) && Indexes(b, moved) && i < |b.sources|
    ensures (if i in moved then b.Target(i) else b.sources[i]) in Placed(t, b, moved)
  {
    hide Placed;
    var s := b.sources[i];
    PlacedAt(t, b, moved, s);
    if i in moved {
      AwayCovered(t, b, moved, s, i);
      assert Shift(s, b.Target(i), s) == b.Target(i);
    } else {
      assert forall j | j in moved :: Apart(b.sources[j], s);
    }
  }

  lemma PlacedBelow(t: Tree, b: Batch, moved: set<nat>, i: nat, q: Path)
    requires Independent(t, b) && Indexes(b, moved) && i < |b.sources| && q in Placed(t, b, moved)
    ensures !((if i in moved then b.sources[i] else b.Target(i)) <= q)
  {
    hide Placed;
    var p := PlacedFrom(t, b, moved, q);
    var vacated := if i in moved then b.sources[i] else b.Target(i);
    if j :| j in moved && b.sources[j] <= p {
      AwayCovered(t, b, moved, p, j);
      assert b.Target(j) <= q;
      assert Apart(b.Target(j), vacated);
      BelowOne(b.Target(j), vacated, q);
    }
  }

  lemma PlacedForward(t: Tree, b: Batch, moved: set<nat>, i: nat)
    requires Independent(t, b) && Indexes(b, moved) && i < |b.sources| && i !in moved
    ensures Free(Placed(t, b, moved), b.Target(i))
    ensures Relocate(Placed(t, b, moved), b.sources[i], b.Target(i)) == Placed(t, b, moved + {i})
  {
    hide Placed, Away, Relocate;
    PlacedPresence(t, b, moved, i);
    forall p | p in t
      ensures Shift(b.sources[i], b.Target(i), Away(b, moved, p)) == Away(b, moved + {i}, p)
    {
      AwayForward(t, b, moved, i, p);
    }
    PlacedCompose(t, b, moved, moved + {i}, b.sources[i], b.Target(i));
  }

  lemma PlacedBackward(t: Tree, b: Batch, moved: set<nat>, i: nat)
    requires Independent(t, b) && Indexes(b, moved) && i in moved
    ensures Free(Placed(t, b, moved), b.sources[i])
    ensures Relocate(Placed(t, b, moved), b.Target(i), b.sources[i]) == Placed(t, b, moved - {i})
  {
    hide Placed, Away, Relocate;
    PlacedPresence(t, b, moved, i);
    forall p | p in t
      ensures Shift(b.Target(i), b.sources[i], Away(b, moved, p)) == Away(b, moved - {i}, p)
    {
      AwayBackward(t, b, moved, i, p);
    }
    PlacedCompose(t, b, moved, moved - {i}, b.Target(i), b.sources[i]);
  }

  /** A rename that takes every image under `m0` to its image under `m1` takes one placed
      tree to the other. */
  lemma PlacedCompose(t: Tree, b: Batch, m0: set<nat>, m1: set<nat>, s: Path, d: Path)
    requires Independent(t, b) && Indexes(b, m0) && Indexes(b, m1)
    requires Free(Placed(t, b, m0), d)
    requires forall p | p in t :: Shift(s, d, Away(b, m0, p)) == Away(b, m1, p)
    ensures Relocate(Placed(t, b, m0), s, d) == Placed(t, b, m1)
  {
    hide Placed, Away;
    assert b.Named();
    var u, v := Placed(t, b, m0), Placed(t, b, m1);
    var r := Relocate(u, s, d);
    forall q | q in v ensures q in r && r[q] == v[q] {
      var p := PlacedFrom(t, b, m1, q);
      PlacedAt(t, b, m0, p);
      PlacedAt(t, b, m1, p);
      RelocateAt(u, s, d, Away(b, m0, p));
    }
    forall q | q in r ensures q in v {
      var q0 :| q0 in u && Shift(s, d, q0) == q;
      var p := PlacedFrom(t, b, m0, q0);
      PlacedAt(t, b, m1, p);
    }
  }

  /** The tree after moving the items in `moved`, said without naming how it is computed:
      each moved subtree is found unchanged below its target, nothing is left below its
      source, and every other path is as before. */
  lemma PlacedMeaning(t: Tree, b: Batch, moved: set<nat>)
    requires Independent(t, b) && Indexes(b, moved)
    ensures var u := Placed(t, b, moved);
      && (forall i, r: Path | i in moved ::
            && (b.Target(i) + r in u <==> b.sources[i] + r in t)
            && (b.sources[i] + r in t ==> u[b.Target(i) + r] == t[b.sources[i] + r]))
      && (forall i | i in moved :: Free(u, b.sources[i]))
      && (forall p: Path | forall i | i in moved :: !(b.sources[i] <= p) && !(b.Target(i) <= p) ::
            (p in u <==> p in t) && (p in t ==> u[p] == t[p]))
  {
    hide Placed, Away;
    var u := Placed(t, b, moved);
    forall i, r: Path | i in moved
      ensures b.Target(i) + r in u <==> b.sources[i] + r in t
      ensures b.sources[i] + r in t ==> b.Target(i) + r in u && u[b.Target(i) + r] == t[b.sources[i] + r]
    {
      PlacedSubtree(t, b, moved, i, r);
    }
    forall i | i in moved ensures Free(u, b.sources[i]) {
      PlacedPresence(t, b, moved, i);
    }
    forall p: Path | forall i | i in moved :: !(b.sources[i] <= p) && !(b.Target(i) <= p)
      ensures (p in u <==> p in t) && (p in t ==> u[p] == t[p])
    {
      PlacedElsewhere(t, b, moved, p);
    }
  }

  lemma PlacedSubtree(t: Tree, b: Batch, moved: set<nat>, i: nat, r: Path)
    requires Independent(t, b) && Indexes(b, moved) && i in moved
    ensures var u := Placed(t, b, moved);
      && (b.Target(i) + r in u <==> b.sources[i] + r in t)
      && (b.sources[i] + r in t ==> u[b.Target(i) + r] == t[b.sources[i] + r])
  {
    hide Placed, Away;
    var s, d := b.sources[i], b.Target(i);
    AwayCovered(t, b, moved, s + r, i);
    assert Shift(s, d, s + r) == d + r;
    if s + r in t {
      PlacedAt(t, b, moved, s + r);
    }
    if d + r in Placed(t, b, moved) {
      var p := PlacedFrom(t, b, moved, d + r);
      AwayBelow(t, b, moved, i, p);
      assert (d + p[|s|..])[|d|..] == (d + r)[|d|..];
      assert p == s + r;
    }
  }

  /** What is found below a moved target came from below its source. */
  lemma AwayBelow(t: Tree, b: Batch, moved: set<nat>, i: nat, p: Path)
    requires Independent(t, b) && Indexes(b, moved) && i in moved && p in t && b.Target(i) <= Away(b, moved, p)
    ensures b.sources[i] <= p && Away(b, moved, p) == b.Target(i) + p[|b.sources[i]|..]
  {
    if j :| j in moved && b.sources[j] <= p {
      AwayCovered(t, b, moved, p, j);
      if i != j { BelowOne(b.Target(j), b.Target(i), Away(b, moved, p)); }
    }
  }

  lemma PlacedElsewhere(t: Tree, b: Batch, moved: set<nat>, p: Path)
    requires Independent(t, b) && Indexes(b, moved)
    requires forall i | i in moved :: !(b.sources[i] <= p) && !(b.Target(i) <= p)
    ensures var u := Placed(t, b, moved); (p in u <==> p in t) && (p in t ==> u[p] == t[p])
  {
    hide Placed;
    if p in t {
      PlacedAt(t, b, moved, p);
    }
    if p in Placed(t, b, moved) {
      var p0 := PlacedFrom(t, b, moved, p);
      if j :| j in moved && b.sources[j] <= p0 {
        AwayCovered(t, b, moved, p0, j);
        assert false;
      }
    }
  }

  /** No node is lost or duplicated, whatever has moved. */
  lemma {:induction false} PlacedConserves(t: Tree, b: Batch, moved: set<nat>)
    requires Independent(t, b) && Indexes(b, moved)
    ensures |Placed(t, b, moved)| == |t|
    ensures moved != {} ==> Placed(t, b, moved) != t
  {
    hide Placed, Away;
    var u := Placed(t, b, moved);
    forall p | p in t ensures Away(b, moved, p) in u { PlacedAt(t, b, moved, p); }
    forall q | q in u ensures exists p | p in t :: Away(b, moved, p) == q { var p := PlacedFrom(t, b, moved, q); }
    PlacedKeys(t, b, moved);
    ImageSize(t.Keys, u.Keys, p requires b.Named() && Indexes(b, moved) => Away(b, moved, p));
    if i :| i in moved {
      PlacedPresence(t, b, moved, i);
      assert b.sources[i] in t;
    }
  }

  lemma {:induction false} ImageSize(a: set<Path>, c: set<Path>, f: Path --> Path)
    requires forall p | p in a :: f.requires(p) && f(p) in c
    requires forall q | q in c :: exists p | p in a :: f.requires(p) && f(p) == q
    requires forall p, q | p in a && q in a && f(p) == f(q) :: p == q
    ensures |a| == |c|
    decreases a
  {
    if p :| p in a {
      ImageSize(a - {p}, c - {f(p)}, f);
    } else {
      assert c == {};
    }
  }
}
