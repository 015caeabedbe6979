/** The request that moves a batch: its path texts, its moves, and the compensation that goes by
    what the tree shows. */
module MoveRequest {
  import opened Common
  import opened Text
  import opened VaultTree
  import opened VaultText
  import opened BatchMove

  // ---------------------------------------------------------------------------
  // From texts to a batch

  datatype Plan = Refused(error: MoveError) | Planned(texts: seq<string>, destination: Path)

  /** `other.startswith(f"{source}/")`. */
  predicate TextContains(source: string, other: string) {
    source + "/" <= other
  }

  predicate HasDuplicate(xs: seq<string>) {
    exists i, j | 0 <= i < j < |xs| :: xs[i] == xs[j]
  }

  predicate HasTextOverlap(xs: seq<string>) {
    exists i, j | 0 <= i < |xs| && 0 <= j < |xs| :: xs[i] != xs[j] && TextContains(xs[i], xs[j])
  }

  function Resolve(xs: seq<string>): (ps: seq<Path>)
    ensures |ps| == |xs| && forall i | 0 <= i < |xs| :: ps[i] == Components(xs[i])
  {
    seq(|xs|, i requires 0 <= i < |xs| => Components(xs[i]))
  }

  predicate AllAccepted(raws: seq<string>) { forall i | 0 <= i < |raws| :: Accept(raws[i]).Some? }

  function Texts(raws: seq<string>): (xs: seq<string>)
    requires AllAccepted(raws)
    ensures |xs| == |raws| && forall i | 0 <= i < |raws| :: Some(xs[i]) == Accept(raws[i])
  {
    seq(|raws|, i requires 0 <= i < |raws| => Accept(raws[i]).value)
  }

  /** An empty destination is the vault root. */
  function DestinationText(raw: string): Option<string> { if Strip(raw) == "" then Some("") else Accept(raw) }

  predicate NoTraversal(xs: seq<string>) { forall i | 0 <= i < |xs| :: NoDots(xs[i]) }

  /** The checks made before the lock is taken, in the order they are made. */
  function PlanOf(raws: seq<string>, destination: string): Plan {
    if |raws| < 2 then Refused(TooFewSources)
    else if !AllAccepted(raws) then Refused(InvalidPath)
    else
      var xs, d := Texts(raws), DestinationText(destination);
      if HasDuplicate(xs) then Refused(DuplicateSource)
      else if HasTextOverlap(xs) then Refused(OverlappingSources)
      else if d.None? then Refused(InvalidPath)
      else if !NoDots(d.value) || !NoTraversal(xs) then Refused(TraversalPath)
      else if !PairwiseApart(Resolve(xs)) then Refused(OverlappingSources)
      else Planned(xs, Components(d.value))
  }

  /** The two textual checks never reject a batch that the check on resolved paths would
      accept. */
  lemma OverlapIsNotApart(xs: seq<string>)
    ensures HasDuplicate(xs) || HasTextOverlap(xs) ==> !PairwiseApart(Resolve(xs))
  {
    hide Components, Apart;
    var ps := Resolve(xs);
    if HasDuplicate(xs) {
      var i, j :| 0 <= i < j < |xs| && xs[i] == xs[j];
      WithinIsNotApart(ps[i], ps[j]);
    } else if HasTextOverlap(xs) {
      var i, j :| 0 <= i < |xs| && 0 <= j < |xs| && xs[i] != xs[j] && TextContains(xs[i], xs[j]);
      var rest := xs[j][|xs[i]| + 1..];
      assert xs[j] == xs[i] + "/" + rest;
      ComponentsAppend(xs[i], rest);
      WithinIsNotApart(ps[i], ps[j]);
    }
  }

  /** A request is planned exactly when it has two or more sources, every path text is accepted and
      free of traversal, and the sources are pairwise apart. */
  lemma PlannedIff(raws: seq<string>, destination: string)
    ensures PlanOf(raws, destination).Planned? <==>
      && |raws| >= 2
      && (forall i | 0 <= i < |raws| :: Accept(raws[i]).Some? && NoDots(Accept(raws[i]).value))
      && (Strip(destination) == "" || (Accept(destination).Some? && NoDots(Accept(destination).value)))
      && (forall i, j | 0 <= i < j < |raws| ::
            var a, b := Components(Accept(raws[i]).value), Components(Accept(raws[j]).value);
            !(a <= b) && !(b <= a))
  {
    hide HasDuplicate, HasTextOverlap, NoDots, Accept, Components, Strip;
    assert NoDots("") by { NothingDotted(); }
    if AllAccepted(raws) {
      var xs := Texts(raws);
      OverlapIsNotApart(xs);
      assert forall i | 0 <= i < |raws| :: Accept(raws[i]) == Some(xs[i]) && Resolve(xs)[i] == Components(xs[i]);
    }
  }

  lemma NothingDotted()
    ensures NoDots("")
  {
  }

  /** Which refusal a request gets, each given that the checks before it pass. */
  lemma RefusedAs(raws: seq<string>, destination: string)
    ensures var p := PlanOf(raws, destination);
      var accepted := |raws| >= 2 && AllAccepted(raws);
      var unlike := accepted && forall i, j | 0 <= i < j < |raws| :: Accept(raws[i]) != Accept(raws[j]);
      var apart := unlike && !HasTextOverlap(Texts(raws));
      var placed := apart && (Strip(destination) == "" || Accept(destination).Some?);
      && (p == Refused(TooFewSources) <==> |raws| < 2)
      && (p == Refused(DuplicateSource) <==> accepted && !unlike)
      && (p == Refused(InvalidPath) <==> |raws| >= 2 && (!accepted || (apart && !placed)))
      && (p == Refused(TraversalPath) ==> placed)
      && (p == Refused(OverlappingSources) ==> unlike)
  {
    hide Accept, NoDots, HasTextOverlap, PairwiseApart, Components, Strip;
    if AllAccepted(raws) {
      var xs := Texts(raws);
      assert forall i | 0 <= i < |raws| :: Accept(raws[i]) == Some(xs[i]);
      assert HasDuplicate(xs) <==> exists i, j | 0 <= i < j < |raws| :: Accept(raws[i]) == Accept(raws[j]);
    }
  }

  /** What the texts of a planned request are like. */
  ghost predicate Sound(xs: seq<string>, b: Batch) {
    && b.sources == Resolve(xs) && GoodPath(b.destination) && b.Named()
    && (forall i | 0 <= i < |xs| :: Bare(xs[i]) && NoDots(xs[i]))
    && (forall i | 0 <= i < |xs| && !HasEdgeSpace(xs[i]) :: Accept(xs[i]) == Some(xs[i]))
  }

  lemma PlannedIsSound(raws: seq<string>, destination: string)
    requires PlanOf(raws, destination).Planned?
    ensures var p := PlanOf(raws, destination);
      var b := Batch(Resolve(p.texts), p.destination);
      Sound(p.texts, b) && PairwiseApart(b.sources) && |b.sources| >= 2
  {
    hide HasDuplicate, HasTextOverlap, NoDots, Accept, Components, HasEdgeSpace, Bare, IsSpace, GoodPath;
    var xs, d := Texts(raws), DestinationText(destination).value;
    forall i | 0 <= i < |xs|
      ensures Bare(xs[i]) && Components(xs[i]) != [] && (!HasEdgeSpace(xs[i]) ==> Accept(xs[i]) == Some(xs[i]))
    {
      AcceptedText(raws[i]);
    }
    DestinationGood(destination);
  }

  lemma DestinationGood(raw: string)
    requires DestinationText(raw).Some? && NoDots(DestinationText(raw).value)
    ensures GoodPath(Components(DestinationText(raw).value))
  {
    hide Accept, Strip, IsSpace;
    if Strip(raw) != "" { AcceptedText(raw); }
    hide Components, GoodPath, NoDots;
    ComponentsGood(DestinationText(raw).value);
  }

  function TargetText(b: Batch, i: nat): string {
    if i < |b.sources| && b.sources[i] != [] then Render(b.Target(i)) else ""
  }

  lemma TargetTextGood(xs: seq<string>, b: Batch, i: nat)
    requires Sound(xs, b) && i < |xs|
    ensures Bare(TargetText(b, i)) && NoDots(TargetText(b, i)) && Components(TargetText(b, i)) == b.Target(i)
  {
    assert Bare(xs[i]) && NoDots(xs[i]) && b.sources[i] == Components(xs[i]);
    hide Components, NoDots, Bare, GoodName, Render;
    BareHasNoBackslash(xs[i]);
    ComponentsGood(xs[i]);
    assert GoodPath(b.Target(i));
    RenderGood(b.Target(i));
  }

  lemma BareHasNoBackslash(s: string)
    requires Bare(s)
    ensures NoBackslash(s)
  {
  }

  // ---------------------------------------------------------------------------
  // One move, by its texts

  /** One attributed move.  What exists and is a directory is looked up under the paths given; what
      is moved, and where to, are the paths of the normalized texts. */
  ghost function MoveText(t: Tree, src: string, dst: string, o: Outcome): (r: (Tree, bool))
    requires WellFormed(t)
    ensures WellFormed(r.0)
  {
    var own, landing := Components(src), Landing(dst);
    if own !in t || landing.None? || !NoDots(src) || !NoDots(dst) then (t, false)
    else
      var s, d := Components(Normalize(src)), landing.value;
      if s == [] || d == [] || s !in t || t[s].Directory? != t[own].Directory? then (t, false)
      else MoveStep(t, s, d, o)
  }

  /** A move with an accepted destination acts on the very paths it was given exactly when neither
      text begins or ends with white space. */
  lemma ActsOnItsPathsIff(src: string, dst: string)
    requires Bare(src) && Bare(dst) && Accept(dst).Some?
    ensures Components(Normalize(src)) == Components(src) && Landing(dst) == Some(Components(dst)) <==>
            !HasEdgeSpace(src) && !HasEdgeSpace(dst)
  {
    hide Components, Normalize, Landing, HasEdgeSpace, Accept;
    NormalizeKeepsPathIff(src);
    LandingKeepsPathIff(dst);
  }

  /** A destination text that is refused makes its move raise before it takes effect. */
  function Allowed(dst: string, o: Outcome): Outcome { if Accept(dst).None? then RaisesBefore else o }

  lemma MoveTextActs(t: Tree, src: string, dst: string, o: Outcome)
    requires WellFormed(t) && Bare(src) && Bare(dst) && NoDots(src) && NoDots(dst)
    requires !HasEdgeSpace(src) && !HasEdgeSpace(dst)
    requires Components(src) != [] && Components(dst) != []
    ensures MoveText(t, src, dst, o) == MoveStep(t, Components(src), Components(dst), Allowed(dst, o))
  {
    hide Components, Normalize, HasEdgeSpace, Accept, Bare, NoDots, MkdirParents, Relocate, WellFormed;
    NormalizeKeepsPathIff(src);
    if Accept(dst).Some? { LandingKeepsPathIff(dst); }
  }

  /** A completed move whose destination text has edge space: nothing is at its target, the path of
      the normalized source is gone, and the item itself is gone from its source only if it was at
      or below that path.  So compensation finds the item ambiguous, or takes it for unmoved. */
  lemma SpacedTargetMisses(t: Tree, src: string, dst: string, o: Outcome)
    requires WellFormed(t) && Bare(dst) && HasEdgeSpace(dst)
    requires Components(dst) != [] && Components(dst) !in t && Parent(Components(dst)) in t
    requires MoveText(t, src, dst, o).1
    ensures var u := MoveText(t, src, dst, o).0;
      var s := Components(Normalize(src));
      Components(dst) !in u && s !in u && (Components(src) in u <==> !(s <= Components(src)))
  {
    hide Components, Normalize, HasEdgeSpace, Accept, Bare, NoDots, Landing, MkdirParents, Relocate, WellFormed;
    LandsElsewhere(dst);
    CompletedLeaves(t, Components(Normalize(src)), Landing(dst).value, Components(dst), Components(src), o);
  }

  lemma LandsElsewhere(dst: string)
    requires Bare(dst) && HasEdgeSpace(dst) && Landing(dst).Some?
    ensures !(Components(dst) <= Landing(dst).value)
  {
    hide Components, Normalize, HasEdgeSpace, Accept, Bare, Spaces;
    LandingHasLessSpace(dst);
    if Components(dst) <= Landing(dst).value { PathSpacesPrefix(Components(dst), Landing(dst).value); }
  }

  lemma CompletedLeaves(t: Tree, s: Path, d: Path, other: Path, own: Path, o: Outcome)
    requires WellFormed(t) && s != [] && d != [] && MoveStep(t, s, d, o).1
    requires other != [] && !(other <= d) && other !in t && Parent(other) in t && own in t
    ensures var u := MoveStep(t, s, d, o).0; s !in u && other !in u && (own in u <==> !(s <= own))
  {
    hide Relocate, MkdirParents;
    var made := MkdirParents(t, Parent(d)).value;
    MkdirWellFormed(t, Parent(d));
    AbsentIsFree(made, d);
    var above := Parent(other);
    assert above in made && (d <= other ==> d <= above);
    assert !(other <= Parent(d)) && other !in made;
    assert own in made && s in made;
    RelocatedAbsent(made, s, d, s);
    RelocatedAbsent(made, s, d, other);
    if s <= own { RelocatedAbsent(made, s, d, own); } else { RelocateAt(made, s, d, own); }
  }

  lemma RelocatedAbsent(t: Tree, s: Path, d: Path, q: Path)
    requires Free(t, d) && !(d <= q) && (q !in t || s <= q)
    ensures q !in Relocate(t, s, d)
  {
    RelocateKeys(t, s, d);
  }

  // ---------------------------------------------------------------------------
  // The request

  /** The moves from item `i` on, up to the first that raises. */
  ghost function Moves(t: Tree, xs: seq<string>, b: Batch, forward: nat -> Outcome, i: nat): (r: (Tree, bool))
    requires WellFormed(t) && i <= |xs|
    ensures WellFormed(r.0)
    decreases |xs| - i
  {
    if i == |xs| then (t, true)
    else
      var (u, ok) := MoveText(t, xs[i], TargetText(b, i), forward(i));
      if ok then Moves(u, xs, b, forward, i + 1) else (u, false)
  }

  /** What compensation does about item `i`, going by what the tree shows. */
  ghost function Restore(t: Tree, xs: seq<string>, b: Batch, i: nat, o: Outcome): (r: (Tree, Option<CompensationError>))
    requires WellFormed(t) && i < |xs| == |b.sources| && b.Named()
    ensures WellFormed(r.0)
  {
    var s, d := b.sources[i], b.Target(i);
    if s in t && d !in t then (t, None)
    else if s !in t && d in t then
      var (u, ok) := MoveText(t, TargetText(b, i), xs[i], o);
      (u, if !ok && !(s in u && d !in u) then Some(StillMoved(i)) else None)
    else (t, Some(AmbiguousState(i)))
  }

  /** Compensation of the first `k` items, from the last to the first. */
  ghost function RestoreAll(t: Tree, xs: seq<string>, b: Batch, backward: nat -> Outcome, k: nat)
    : (r: (Tree, seq<CompensationError>))
    requires WellFormed(t) && k <= |xs| == |b.sources| && b.Named()
    ensures WellFormed(r.0)
    decreases k
  {
    if k == 0 then (t, [])
    else
      var (u, e) := Restore(t, xs, b, k - 1, backward(k - 1));
      var (v, errors) := RestoreAll(u, xs, b, backward, k - 1);
      (v, (if e.Some? then [e.value] else []) + errors)
  }

  /** What compensation ends with, given the errors reported before the first `k` items are left. */
  ghost function StillToRestore(
    t: Tree, found: seq<CompensationError>, xs: seq<string>, b: Batch, backward: nat -> Outcome, k: nat)
    : (Tree, seq<CompensationError>)
    requires WellFormed(t) && k <= |xs| == |b.sources| && b.Named()
  {
    var (v, errors) := RestoreAll(t, xs, b, backward, k);
    (v, found + errors)
  }

  lemma RestoreStart(t: Tree, xs: seq<string>, b: Batch, backward: nat -> Outcome, k: nat)
    requires WellFormed(t) && k <= |xs| == |b.sources| && b.Named()
    ensures StillToRestore(t, [], xs, b, backward, k) == RestoreAll(t, xs, b, backward, k)
  {
    hide RestoreAll, WellFormed;
    assert [] + RestoreAll(t, xs, b, backward, k).1 == RestoreAll(t, xs, b, backward, k).1;
  }

  lemma RestoreNext(
    t: Tree, found: seq<CompensationError>, xs: seq<string>, b: Batch, backward: nat -> Outcome, k: nat)
    requires WellFormed(t) && k < |xs| == |b.sources| && b.Named()
    ensures var (u, e) := Restore(t, xs, b, k, backward(k));
      StillToRestore(t, found, xs, b, backward, k + 1) ==
      StillToRestore(u, if e.Some? then found + [e.value] else found, xs, b, backward, k)
  {
    hide Restore, WellFormed;
    var (u, e) := Restore(t, xs, b, k, backward(k));
    var rest := RestoreAll(u, xs, b, backward, k).1;
    assert found + ((if e.Some? then [e.value] else []) + rest) ==
      (if e.Some? then found + [e.value] else found) + rest;
  }

  lemma RestoreEnd(t: Tree, found: seq<CompensationError>, xs: seq<string>, b: Batch, backward: nat -> Outcome)
    requires WellFormed(t) && |xs| == |b.sources| && b.Named()
    ensures StillToRestore(t, found, xs, b, backward, 0) == (t, found)
  {
    assert found + [] == found;
  }

  /** What compensation reports about an item, whatever the texts: an ambiguity exactly when the tree
      has both its paths or neither, and otherwise an error exactly when the move back raised and left
      it elsewhere than at its source alone. */
  lemma RestoreReports(t: Tree, xs: seq<string>, b: Batch, i: nat, o: Outcome)
    requires WellFormed(t) && i < |xs| == |b.sources| && b.Named()
    ensures var (u, e) := Restore(t, xs, b, i, o);
      var s, d := b.sources[i], b.Target(i);
      var back := MoveText(t, TargetText(b, i), xs[i], o);
      && (e == Some(AmbiguousState(i)) <==> (s in t <==> d in t))
      && (e == Some(StillMoved(i)) <==> s !in t && d in t && !back.1 && (s !in u || d in u))
      && u == if s !in t && d in t then back.0 else t
  {
    hide MoveText, TargetText, WellFormed;
  }

  ghost function Transaction(t: Tree, xs: seq<string>, b: Batch, forward: nat -> Outcome, backward: nat -> Outcome)
    : (r: (Tree, BatchResult))
    requires WellFormed(t) && |xs| == |b.sources| && b.Named()
    ensures WellFormed(r.0)
  {
    var (u, ok) := Moves(t, xs, b, forward, 0);
    if ok then (u, Moved)
    else
      var (v, errors) := RestoreAll(u, xs, b, backward, |xs|);
      (v, if errors == [] then Reraised else StateUncertain(errors))
  }

  /** The whole request.  `completed` and `failed` say whether the write succeeds that closes the
      activity after the moves, or after an error: it comes after compensation, and when it fails
      the request raises whatever the tree is by then. */
  ghost function Request(
    t: Tree, raws: seq<string>, destination: string, forward: nat -> Outcome, backward: nat -> Outcome,
    completed: bool, failed: bool): (r: (Tree, BatchResult))
    requires WellFormed(t)
    ensures WellFormed(r.0)
  {
    match PlanOf(raws, destination)
    case Refused(e) => (t, Rejected(e))
    case Planned(xs, d) =>
      PlannedIsSound(raws, destination);
      var b := Batch(Resolve(xs), d);
      match PreflightError(t, b)
      case Some(e) => (t, Rejected(e))
      case None =>
        var (u, r) := Transaction(t, xs, b, forward, backward);
        (u, if (if r.Moved? then completed else failed) then r else ActivityUnfinished)
  }

  // ---------------------------------------------------------------------------
  // Whatever the texts: nothing is lost or overwritten

  predicate Sends(f: map<Path, Path>, t: Tree, u: Tree) {
    forall p | p in f :: p in t && t[p].File? && f[p] in u && u[f[p]] == t[p]
  }

  predicate Injective(f: map<Path, Path>) { forall p, q | p in f && q in f && f[p] == f[q] :: p == q }

  predicate ReachedBy(f: map<Path, Path>, q: Path) { exists p | p in f :: f[p] == q }

  /** `f` says where each file of `t` is in `u`: every file is somewhere, with its content, no two
      in one place, and `u` has no other file. */
  predicate Carries(f: map<Path, Path>, t: Tree, u: Tree) {
    && Sends(f, t, u) && (forall p | p in t && t[p].File? :: p in f) && Injective(f)
    && (forall q | q in u && u[q].File? :: ReachedBy(f, q))
  }

  ghost predicate Rearranged(t: Tree, u: Tree) { exists f: map<Path, Path> :: Carries(f, t, u) }

  lemma RearrangedSame(t: Tree)
    ensures Rearranged(t, t)
  {
    var f := map p | p in t && t[p].File? :: p;
    forall q | q in t && t[q].File? ensures ReachedBy(f, q) { assert f[q] == q; }
    assert Carries(f, t, t);
  }

  lemma RearrangedThen(t: Tree, u: Tree, v: Tree)
    requires Rearranged(t, u) && Rearranged(u, v)
    ensures Rearranged(t, v)
  {
    hide Carries;
    var f: map<Path, Path> :| Carries(f, t, u);
    var g: map<Path, Path> :| Carries(g, u, v);
    var h := CarriesThen(f, g, t, u, v);
  }

  lemma CarriesThen(f: map<Path, Path>, g: map<Path, Path>, t: Tree, u: Tree, v: Tree) returns (h: map<Path, Path>)
    requires Carries(f, t, u) && Carries(g, u, v)
    ensures Carries(h, t, v)
  {
    hide ReachedBy, Injective, Sends;
    FollowsOn(f, g, t, u, v);
    h := map p | p in f :: g[f[p]];
    SourcesAreFiles(g, u, v);
    forall q | q in v && v[q].File? ensures ReachedBy(h, q) { ReachedThen(f, g, h, u, q); }
  }

  lemma SourcesAreFiles(f: map<Path, Path>, t: Tree, u: Tree)
    requires Sends(f, t, u)
    ensures forall p | p in f :: p in t && t[p].File?
  {
  }

  lemma FollowsOn(f: map<Path, Path>, g: map<Path, Path>, t: Tree, u: Tree, v: Tree)
    requires Sends(f, t, u) && Injective(f) && Sends(g, u, v) && Injective(g)
    requires forall p | p in u && u[p].File? :: p in g
    ensures forall p | p in f :: f[p] in g
    ensures var h := map p | p in f :: g[f[p]]; Sends(h, t, v) && Injective(h)
  {
    forall p | p in f ensures f[p] in g { assert u[f[p]] == t[p]; }
    var h := map p | p in f :: g[f[p]];
    forall p, q | p in h && q in h && h[p] == h[q] ensures p == q { assert f[p] == f[q]; }
  }

  lemma ReachedThen(f: map<Path, Path>, g: map<Path, Path>, h: map<Path, Path>, u: Tree, q: Path)
    requires ReachedBy(g, q) && (forall p | p in g :: p in u && u[p].File?)
    requires forall m | m in u && u[m].File? :: ReachedBy(f, m)
    requires (forall p | p in f :: f[p] in g) && h == map p | p in f :: g[f[p]]
    ensures ReachedBy(h, q)
  {
    var m :| m in g && g[m] == q;
    assert ReachedBy(f, m);
    var p :| p in f && f[p] == m;
    assert h[p] == q;
  }

  lemma MkdirRearranges(t: Tree, p: Path)
    requires MkdirParents(t, p).Some?
    ensures Rearranged(t, MkdirParents(t, p).value)
  {
    var u := MkdirParents(t, p).value;
    var f := map q | q in t && t[q].File? :: q;
    forall q | q in Ancestors(p) ensures q !in t || t[q].Directory? {
      var k :| 0 <= k <= |p| && p[..k] == q;
    }
    forall q | q in u && u[q].File? ensures ReachedBy(f, q) { assert f[q] == q; }
    assert Carries(f, t, u);
  }

  lemma RelocateRearranges(t: Tree, s: Path, d: Path)
    requires Free(t, d)
    ensures Rearranged(t, Relocate(t, s, d))
  {
    var u := Relocate(t, s, d);
    var f := map p | p in t && t[p].File? :: Shift(s, d, p);
    RelocateKeys(t, s, d);
    forall p | p in t ensures Shift(s, d, p) in u && u[Shift(s, d, p)] == t[p] { RelocateAt(t, s, d, p); }
    forall q | q in u && u[q].File? ensures ReachedBy(f, q) {
      var p :| p in t && Shift(s, d, p) == q;
      assert p in f && f[p] == q;
    }
    hide Relocate, Shift;
    assert Carries(f, t, u);
  }

  lemma MoveStepRearranges(t: Tree, s: Path, d: Path, o: Outcome)
    requires WellFormed(t) && s != [] && d != []
    ensures Rearranged(t, MoveStep(t, s, d, o).0)
  {
    hide Rearranged, Relocate, MkdirParents;
    RearrangedSame(t);
    if d !in t && MkdirParents(t, Parent(d)).Some? {
      var made := MkdirParents(t, Parent(d)).value;
      MkdirRearranges(t, Parent(d));
      MkdirWellFormed(t, Parent(d));
      AbsentIsFree(made, d);
      RelocateRearranges(made, s, d);
      RearrangedThen(t, made, Relocate(made, s, d));
    }
  }

  lemma MoveTextRearranges(t: Tree, src: string, dst: string, o: Outcome)
    requires WellFormed(t)
    ensures Rearranged(t, MoveText(t, src, dst, o).0)
  {
    hide Rearranged, MoveStep, Components, Landing, Normalize, NoDots;
    RearrangedSame(t);
    var s, landing := Components(Normalize(src)), Landing(dst);
    if s != [] && landing.Some? && landing.value != [] { MoveStepRearranges(t, s, landing.value, o); }
  }

  lemma {:induction false} MovesRearrange(t: Tree, xs: seq<string>, b: Batch, forward: nat -> Outcome, i: nat)
    requires WellFormed(t) && i <= |xs|
    ensures Rearranged(t, Moves(t, xs, b, forward, i).0)
    decreases |xs| - i
  {
    hide Rearranged, MoveText, TargetText, WellFormed;
    if i == |xs| {
      RearrangedSame(t);
    } else {
      var (u, ok) := MoveText(t, xs[i], TargetText(b, i), forward(i));
      MoveTextRearranges(t, xs[i], TargetText(b, i), forward(i));
      if ok {
        MovesRearrange(u, xs, b, forward, i + 1);
        RearrangedThen(t, u, Moves(u, xs, b, forward, i + 1).0);
      }
    }
  }

  lemma {:induction false} RestoreAllRearranges(t: Tree, xs: seq<string>, b: Batch, backward: nat -> Outcome, k: nat)
    requires WellFormed(t) && k <= |xs| == |b.sources| && b.Named()
    ensures Rearranged(t, RestoreAll(t, xs, b, backward, k).0)
    decreases k
  {
    hide Rearranged, MoveText, TargetText, WellFormed;
    RearrangedSame(t);
    if k > 0 {
      MoveTextRearranges(t, TargetText(b, k - 1), xs[k - 1], backward(k - 1));
      var u := Restore(t, xs, b, k - 1, backward(k - 1)).0;
      RestoreAllRearranges(u, xs, b, backward, k - 1);
      RearrangedThen(t, u, RestoreAll(u, xs, b, backward, k - 1).0);
    }
  }

  /** Every request, whatever its texts and however its moves fail, leaves each file somewhere in
      the vault with its content, and no file besides. */
  lemma RequestRearranges(
    t: Tree, raws: seq<string>, destination: string, forward: nat -> Outcome, backward: nat -> Outcome,
    completed: bool, failed: bool)
    requires WellFormed(t)
    ensures var u := Request(t, raws, destination, forward, backward, completed, failed).0;
      WellFormed(u) && Rearranged(t, u)
  {
    hide Rearranged, PlanOf, Moves, RestoreAll, Resolve, PreflightError;
    RearrangedSame(t);
    var p := PlanOf(raws, destination);
    if p.Planned? {
      PlannedIsSound(raws, destination);
      var b := Batch(Resolve(p.texts), p.destination);
      MovesRearrange(t, p.texts, b, forward, 0);
      var u := Moves(t, p.texts, b, forward, 0).0;
      RestoreAllRearranges(u, p.texts, b, backward, |p.texts|);
      RearrangedThen(t, u, RestoreAll(u, p.texts, b, backward, |p.texts|).0);
    }
  }

  // ---------------------------------------------------------------------------
  // Texts without edge space: the steps on placed trees

  /** No source or target text begins or ends with white space. */
  predicate Steady(xs: seq<string>, b: Batch) {
    forall i | 0 <= i < |xs| :: !HasEdgeSpace(xs[i]) && !HasEdgeSpace(TargetText(b, i))
  }

  /** What the transaction is about: an admitted batch with texts that have no edge space. */
  ghost predicate Ready(t: Tree, xs: seq<string>, b: Batch) {
    Sound(xs, b) && Steady(xs, b) && Admissible(t, b) && Independent(t, b)
  }

  /** The forward outcomes, with the moves refused for their target text. */
  function Effective(b: Batch, forward: nat -> Outcome): nat -> Outcome {
    (i: nat) => Allowed(TargetText(b, i), forward(i))
  }

  lemma SteadyForward(t: Tree, xs: seq<string>, b: Batch, i: nat, o: Outcome)
    requires WellFormed(t) && Sound(xs, b) && Steady(xs, b) && i < |xs|
    ensures MoveText(t, xs[i], TargetText(b, i), o) ==
            MoveStep(t, b.sources[i], b.Target(i), Allowed(TargetText(b, i), o))
  {
    TargetTextGood(xs, b, i);
    assert Bare(xs[i]) && NoDots(xs[i]);
    hide MoveText, MoveStep, Components, Bare, NoDots, HasEdgeSpace, TargetText, Accept, GoodPath;
    MoveTextActs(t, xs[i], TargetText(b, i), o);
  }

  lemma SteadyBackward(t: Tree, xs: seq<string>, b: Batch, i: nat, o: Outcome)
    requires WellFormed(t) && Sound(xs, b) && Steady(xs, b) && i < |xs|
    ensures MoveText(t, TargetText(b, i), xs[i], o) == MoveStep(t, b.Target(i), b.sources[i], o)
  {
    TargetTextGood(xs, b, i);
    assert Bare(xs[i]) && NoDots(xs[i]);
    hide MoveText, MoveStep, Components, Bare, NoDots, HasEdgeSpace, TargetText, Accept, GoodPath;
    MoveTextActs(t, TargetText(b, i), xs[i], o);
  }

  /** A rename of an item to its target, from a placed tree, passes every check and creates no
      directory: it places the item or changes nothing. */
  lemma RenameForward(t: Tree, b: Batch, moved: set<nat>, i: nat, o: Outcome, after: set<nat>)
    requires Admissible(t, b) && Independent(t, b) && Indexes(b, moved) && i < |b.sources| && i !in moved
    requires after == (if o.Applies() then moved + {i} else moved) && Indexes(b, after)
    requires WellFormed(Placed(t, b, moved))
    ensures MoveStep(Placed(t, b, moved), b.sources[i], b.Target(i), o) == (Placed(t, b, after), o.Completes?)
  {
    hide Placed, Away, Relocate, MkdirParents;
    PlacedPresence(t, b, moved, i);
    PlacedForward(t, b, moved, i);
    forall j | j in moved ensures !(b.sources[j] <= b.destination) { SourceNotAboveDestination(t, b, j); }
    UnmovedPath(t, b, moved, b.destination);
    assert Parent(b.Target(i)) == b.destination;
    MkdirExisting(Placed(t, b, moved), b.destination);
    assert Apart(b.sources[i], b.Target(i));
  }

  lemma RenameBackward(t: Tree, b: Batch, moved: set<nat>, i: nat, o: Outcome, after: set<nat>)
    requires Admissible(t, b) && Independent(t, b) && Indexes(b, moved) && i in moved
    requires after == (if o.Applies() then moved - {i} else moved) && Indexes(b, after)
    requires WellFormed(Placed(t, b, moved))
    ensures MoveStep(Placed(t, b, moved), b.Target(i), b.sources[i], o) == (Placed(t, b, after), o.Completes?)
  {
    hide Placed, Away, Relocate, MkdirParents;
    PlacedPresence(t, b, moved, i);
    PlacedBackward(t, b, moved, i);
    var s := b.sources[i];
    forall j | j in moved ensures !(b.sources[j] <= Parent(s)) {
      assert j != i ==> Apart(b.sources[j], s);
      assert Parent(s) <= s;
    }
    UnmovedPath(t, b, moved, Parent(s));
    MkdirExisting(Placed(t, b, moved), Parent(s));
    assert Apart(s, b.Target(i));
  }

  /** A forward move of the transaction places its item or changes nothing. */
  lemma ForwardStep(t: Tree, xs: seq<string>, b: Batch, moved: set<nat>, i: nat, o: Outcome, after: set<nat>)
    requires Ready(t, xs, b) && Indexes(b, moved) && i < |xs| && i !in moved
    requires var e := Allowed(TargetText(b, i), o); after == (if e.Applies() then moved + {i} else moved)
    requires Indexes(b, after) && WellFormed(Placed(t, b, moved))
    ensures MoveText(Placed(t, b, moved), xs[i], TargetText(b, i), o) ==
            (Placed(t, b, after), Allowed(TargetText(b, i), o).Completes?)
  {
    hide Placed, Sound, Steady, Admissible, Independent, WellFormed, TargetText, Allowed, MoveText, MoveStep;
    SoundLength(xs, b);
    SteadyForward(Placed(t, b, moved), xs, b, i, o);
    RenameForward(t, b, moved, i, Allowed(TargetText(b, i), o), after);
  }

  /** A compensating move likewise returns its item or changes nothing. */
  lemma BackwardStep(t: Tree, xs: seq<string>, b: Batch, moved: set<nat>, i: nat, o: Outcome, after: set<nat>)
    requires Ready(t, xs, b) && Indexes(b, moved) && i < |xs| && i in moved
    requires after == (if o.Applies() then moved - {i} else moved) && Indexes(b, after)
    requires WellFormed(Placed(t, b, moved))
    ensures MoveText(Placed(t, b, moved), TargetText(b, i), xs[i], o) == (Placed(t, b, after), o.Completes?)
  {
    hide Placed, Sound, Steady, Admissible, Independent, WellFormed, TargetText, MoveText, MoveStep;
    SoundLength(xs, b);
    SteadyBackward(Placed(t, b, moved), xs, b, i, o);
    RenameBackward(t, b, moved, i, o, after);
  }

  lemma UnmovedPath(t: Tree, b: Batch, moved: set<nat>, p: Path)
    requires Independent(t, b) && Indexes(b, moved) && p in t
    requires forall j | j in moved :: !(b.sources[j] <= p)
    ensures p in Placed(t, b, moved) && Placed(t, b, moved)[p] == t[p]
  {
    hide Placed;
    PlacedAt(t, b, moved, p);
  }

  ghost function FirstItems(k: nat): (r: set<nat>)
    ensures forall i: nat :: i in r <==> i < k
  {
    if k == 0 then {} else FirstItems(k - 1) + {k - 1}
  }

  ghost function ErrorIndexes(errors: seq<CompensationError>): set<nat> {
    set i | 0 <= i < |errors| :: errors[i].index
  }

  // ---------------------------------------------------------------------------
  // Where a request leaves its items

  /** The position of the first move that does not complete, or `n`. */
  ghost function FirstFailure(forward: nat -> Outcome, n: nat): (k: nat)
    ensures k <= n && (forall i: nat | i < k :: forward(i).Completes?) && (k < n ==> !forward(k).Completes?)
  {
    if n == 0 then 0
    else
      var k := FirstFailure(forward, n - 1);
      if k < n - 1 || !forward(n - 1).Completes? then k else n
  }

  /** The items at their targets when the first failure stops the moves. */
  ghost function MovedByThen(forward: nat -> Outcome, n: nat): (moved: set<nat>)
    ensures forall i | i in moved :: i < n
  {
    var k := FirstFailure(forward, n);
    if k < n then MovedAt(forward, k) else FirstItems(n)
  }

  /** The items at their targets after move `i`, when the moves before it completed. */
  ghost function MovedAt(forward: nat -> Outcome, i: nat): set<nat> {
    if forward(i).Applies() then FirstItems(i) + {i} else FirstItems(i)
  }

  /** The moved items that a compensation pass does not move back. */
  ghost function Unrestored(moved: set<nat>, backward: nat -> Outcome): set<nat> {
    set i | i in moved && !backward(i).Applies()
  }

  /** The items at their targets when the request ends: all of them when every move completes,
      otherwise those that had moved and whose compensating move takes no effect. */
  ghost function LeftMoved(forward: nat -> Outcome, backward: nat -> Outcome, n: nat): (left: set<nat>)
    ensures forall i | i in left :: i < n
  {
    if FirstFailure(forward, n) == n then FirstItems(n)
    else Unrestored(MovedByThen(forward, n), backward)
  }

  /** The tree is the starting tree with exactly the items in `left` at their targets. */
  ghost predicate IsPlaced(tree: Tree, t: Tree, b: Batch, left: set<nat>) {
    Independent(t, b) && Indexes(b, left) && tree == Placed(t, b, left)
  }

  /** A tree with items at their targets is the starting tree exactly when there are none. */
  lemma StartingTreeIff(t: Tree, b: Batch, left: set<nat>)
    requires Independent(t, b) && Indexes(b, left)
    ensures Placed(t, b, left) == t <==> left == {}
  {
    hide Placed, Independent;
    PlacedConserves(t, b, left);
    PlacedNothing(t, b);
  }

  ghost predicate AllComplete(forward: nat -> Outcome, n: nat) {
    forall i: nat | i < n :: forward(i).Completes?
  }

  lemma LeftAfterAll(forward: nat -> Outcome, backward: nat -> Outcome, n: nat)
    requires AllComplete(forward, n)
    ensures LeftMoved(forward, backward, n) == FirstItems(n)
  {
    assert FirstFailure(forward, n) == n;
  }

  lemma UnrestoredNone(moved: set<nat>, backward: nat -> Outcome)
    ensures Unrestored(moved, backward) == {} <==> forall i | i in moved :: backward(i).Applies()
  {
    if i :| i in moved && !backward(i).Applies() { assert i in Unrestored(moved, backward); }
  }

  lemma UnrestoredAll(moved: set<nat>, backward: nat -> Outcome, n: nat)
    ensures Unrestored(moved, backward) == FirstItems(n) && moved <= FirstItems(n) <==>
            moved == FirstItems(n) && forall i: nat | i < n :: !backward(i).Applies()
  {
    if Unrestored(moved, backward) == FirstItems(n) {
      forall i: nat | i < n ensures i in moved && !backward(i).Applies() {
        assert i in FirstItems(n);
        assert i in Unrestored(moved, backward);
      }
    }
  }

  // ---------------------------------------------------------------------------
  // The transaction in closed form

  /** From the tree with the first `i` items moved, the moves end with the items moved that the
      first failure leaves moved. */
  lemma {:induction false} MovesEnd(t: Tree, xs: seq<string>, b: Batch, forward: nat -> Outcome, i: nat)
    requires Ready(t, xs, b) && i <= |xs| && AllComplete(Effective(b, forward), i)
    requires Indexes(b, FirstItems(i)) && WellFormed(Placed(t, b, FirstItems(i)))
    ensures var f := Effective(b, forward);
      var (u, ok) := Moves(Placed(t, b, FirstItems(i)), xs, b, forward, i);
      IsPlaced(u, t, b, MovedByThen(f, |xs|)) && (ok <==> AllComplete(f, |xs|))
    decreases |xs| - i
  {
    hide Placed, MoveText, Sound, Steady, Admissible, Independent, WellFormed, TargetText, Allowed;
    var f, n := Effective(b, forward), |xs|;
    SoundLength(xs, b);
    if i == n {
      AllMoved(f, n);
    } else {
      var after := MovedAt(f, i);
      var before := Placed(t, b, FirstItems(i));
      assert Indexes(b, after);
      ForwardStep(t, xs, b, FirstItems(i), i, forward(i), after);
      var (u, ok) := MoveText(before, xs[i], TargetText(b, i), forward(i));
      if ok {
        assert after == FirstItems(i + 1);
        MovesEnd(t, xs, b, forward, i + 1);
      } else {
        StoppedAt(f, n, i);
      }
    }
  }

  lemma SoundAt(xs: seq<string>, b: Batch, i: nat)
    requires Sound(xs, b) && i < |xs|
    ensures |xs| == |b.sources| && Bare(xs[i]) && NoDots(xs[i]) && b.sources[i] == Components(xs[i]) != []
    ensures !HasEdgeSpace(xs[i]) ==> Accept(xs[i]) == Some(xs[i])
  {
    hide Bare, NoDots, Components, Accept, HasEdgeSpace, GoodPath;
  }

  lemma SoundLength(xs: seq<string>, b: Batch)
    requires Sound(xs, b)
    ensures |xs| == |b.sources| && b.Named()
  {
  }

  lemma AllMoved(f: nat -> Outcome, n: nat)
    requires AllComplete(f, n)
    ensures MovedByThen(f, n) == FirstItems(n)
  {
    assert FirstFailure(f, n) == n;
  }

  lemma StoppedAt(f: nat -> Outcome, n: nat, i: nat)
    requires i < n && AllComplete(f, i) && !f(i).Completes?
    ensures MovedByThen(f, n) == MovedAt(f, i) && !AllComplete(f, n)
  {
    assert FirstFailure(f, n) == i;
  }

  /** One item is put back if the tree shows it at its target; an error is reported exactly when it
      stays there, and never an ambiguity. */
  lemma RestoreStep(t: Tree, xs: seq<string>, b: Batch, moved: set<nat>, i: nat, o: Outcome, after: set<nat>)
    requires Ready(t, xs, b) && Indexes(b, moved) && i < |xs| == |b.sources| && b.Named()
    requires after == (if o.Applies() then moved - {i} else moved) && Indexes(b, after)
    requires WellFormed(Placed(t, b, moved))
    ensures Restore(Placed(t, b, moved), xs, b, i, o) ==
            (Placed(t, b, after), if i in after then Some(StillMoved(i)) else None)
  {
    hide Placed, MoveText, Sound, Steady, Admissible, Independent, TargetText, WellFormed;
    PlacedPresence(t, b, moved, i);
    PlacedPresence(t, b, after, i);
    if i in moved {
      BackwardStep(t, xs, b, moved, i, o, after);
    } else {
      assert after == moved;
    }
  }

  /** What compensation of the first `k` items makes of a set of moved items: those are left whose
      compensating move takes no effect, and exactly those are reported. */
  ghost predicate Compensated(
    t: Tree, b: Batch, moved: set<nat>, backward: nat -> Outcome, k: nat, r: (Tree, seq<CompensationError>))
  {
    && IsPlaced(r.0, t, b, set i | i in moved && (i >= k || !backward(i).Applies()))
    && ErrorIndexes(r.1) == (set i | i in moved && i < k && !backward(i).Applies())
    && forall e | e in r.1 :: e.StillMoved?
  }

  /** Compensation from any set of moved items leaves exactly those whose compensating move takes no
      effect, and reports exactly those. */
  lemma {:induction false} RestoreAllEnds(
    t: Tree, xs: seq<string>, b: Batch, tree: Tree, moved: set<nat>, backward: nat -> Outcome, k: nat)
    requires Ready(t, xs, b) && k <= |xs| == |b.sources| && b.Named()
    requires WellFormed(tree) && IsPlaced(tree, t, b, moved)
    ensures Compensated(t, b, moved, backward, k, RestoreAll(tree, xs, b, backward, k))
    decreases k
  {
    hide Placed, Sound, Steady, Admissible, Independent, Restore, WellFormed;
    if k == 0 {
      assert moved == set i | i in moved && (i >= k || !backward(i).Applies());
    } else {
      var o := backward(k - 1);
      var after := if o.Applies() then moved - {k - 1} else moved;
      RestoreStep(t, xs, b, moved, k - 1, o, after);
      var (next, e) := Restore(tree, xs, b, k - 1, o);
      RestoreAllEnds(t, xs, b, next, after, backward, k - 1);
      var rest := RestoreAll(next, xs, b, backward, k - 1).1;
      ErrorsWithFirst(e, rest);
      assert (set i | i in after && (i >= k - 1 || !backward(i).Applies())) ==
             set i | i in moved && (i >= k || !backward(i).Applies());
    }
  }

  lemma ErrorsWithFirst(e: Option<CompensationError>, rest: seq<CompensationError>)
    ensures var all := (if e.Some? then [e.value] else []) + rest;
      ErrorIndexes(all) == ErrorIndexes(rest) + if e.Some? then {e.value.index} else {}
  {
    var all := (if e.Some? then [e.value] else []) + rest;
    if e.Some? {
      assert all[0] == e.value && forall i | 0 <= i < |rest| :: all[i + 1] == rest[i];
      forall x | x in ErrorIndexes(all) ensures x in ErrorIndexes(rest) + {e.value.index} {
        var i :| 0 <= i < |all| && all[i].index == x;
        assert i > 0 ==> rest[i - 1].index == x;
      }
      forall x | x in ErrorIndexes(rest) ensures x in ErrorIndexes(all) {
        var i :| 0 <= i < |rest| && rest[i].index == x;
        assert all[i + 1].index == x;
      }
    } else {
      assert all == rest;
    }
  }

  /** The transaction over every choice of outcomes: all items moved, or the tree exactly as it
      started, or an error that names the items left at their targets. */
  lemma TransactionEnds(
    t: Tree, xs: seq<string>, b: Batch, forward: nat -> Outcome, backward: nat -> Outcome)
    requires Ready(t, xs, b) && WellFormed(t) && |xs| == |b.sources| && b.Named()
    ensures var f := Effective(b, forward);
      var left := LeftMoved(f, backward, |xs|);
      var (u, r) := Transaction(t, xs, b, forward, backward);
      && IsPlaced(u, t, b, left)
      && (r.Moved? <==> AllComplete(f, |xs|))
      && (r.Reraised? <==> !AllComplete(f, |xs|) && left == {})
      && (r.StateUncertain? <==> !AllComplete(f, |xs|) && left != {})
      && (r.StateUncertain? ==> ErrorIndexes(r.errors) == left && forall e | e in r.errors :: e.StillMoved?)
  {
    hide Placed, Sound, Steady, Admissible, Independent, Moves, RestoreAll, WellFormed, MovedByThen, FirstFailure;
    var f, n := Effective(b, forward), |xs|;
    PlacedNothing(t, b);
    assert FirstItems(0) == {};
    MovesEnd(t, xs, b, forward, 0);
    var (u, ok) := Moves(t, xs, b, forward, 0);
    var moved := MovedByThen(f, n);
    if ok {
      AllMoved(f, n);
      LeftAfterAll(f, backward, n);
    } else {
      RestoreAllEnds(t, xs, b, u, moved, backward, n);
      LeftAfterSome(f, backward, n);
      var errors := RestoreAll(u, xs, b, backward, n).1;
      assert (set i | i in moved && (i >= n || !backward(i).Applies())) == Unrestored(moved, backward);
      assert (set i | i in moved && i < n && !backward(i).Applies()) == Unrestored(moved, backward);
      NoErrors(errors);
    }
  }

  lemma NoErrors(errors: seq<CompensationError>)
    ensures errors == [] <==> ErrorIndexes(errors) == {}
  {
    if errors != [] { assert errors[0].index in ErrorIndexes(errors); }
  }

  lemma LeftAfterSome(f: nat -> Outcome, backward: nat -> Outcome, n: nat)
    requires !AllComplete(f, n)
    ensures LeftMoved(f, backward, n) == Unrestored(MovedByThen(f, n), backward)
  {
    assert FirstFailure(f, n) < n;
  }

  // ---------------------------------------------------------------------------
  // The whole request

  /** What a request is carried out on, once it is planned. */
  function BatchOf(raws: seq<string>, destination: string): Batch
    requires PlanOf(raws, destination).Planned?
  {
    Batch(Resolve(PlanOf(raws, destination).texts), PlanOf(raws, destination).destination)
  }

  /** A request is rejected, with nothing changed, exactly when a check fails.  An admitted request
      whose texts have no edge space leaves exactly the items moved that its outcomes leave moved,
      and each result has its exact condition. */
  lemma RequestEnds(
    t: Tree, raws: seq<string>, destination: string, forward: nat -> Outcome, backward: nat -> Outcome,
    completed: bool, failed: bool)
    requires WellFormed(t)
    ensures var (u, r) := Request(t, raws, destination, forward, backward, completed, failed);
      var plan := PlanOf(raws, destination);
      && (r.Rejected? <==> plan.Refused? || !Admissible(t, BatchOf(raws, destination)))
      && (r.Rejected? ==> u == t)
      && (!r.Rejected? && Steady(plan.texts, BatchOf(raws, destination)) ==>
            var b := BatchOf(raws, destination);
            var f := Effective(b, forward);
            var all := AllComplete(f, |raws|);
            var left := LeftMoved(f, backward, |raws|);
            && IsPlaced(u, t, b, left)
            && (r.Moved? <==> all && completed)
            && (r.ActivityUnfinished? <==> if all then !completed else !failed)
            && (r.Reraised? <==> !all && failed && left == {})
            && (r.StateUncertain? <==> !all && failed && left != {})
            && (r.StateUncertain? ==> ErrorIndexes(r.errors) == left))
  {
    hide PlanOf, Transaction, PreflightError, Sound, Steady, Admissible, Independent, IsPlaced, PairwiseApart,
      LeftMoved, AllComplete, Resolve;
    var plan := PlanOf(raws, destination);
    if plan.Planned? {
      PlannedIsSound(raws, destination);
      PlannedLength(raws, destination);
      var b := BatchOf(raws, destination);
      SoundLength(plan.texts, b);
      PreflightPassesIff(t, b);
      if PreflightError(t, b).None? {
        AdmissibleIsIndependent(t, b);
        if Steady(plan.texts, b) { TransactionEnds(t, plan.texts, b, forward, backward); }
        TransactionResult(t, plan.texts, b, forward, backward);
      }
    }
  }

  lemma PlannedLength(raws: seq<string>, destination: string)
    requires PlanOf(raws, destination).Planned?
    ensures |PlanOf(raws, destination).texts| == |raws|
  {
    hide PairwiseApart, HasDuplicate, HasTextOverlap, NoDots, Accept, Components;
  }

  lemma TransactionResult(t: Tree, xs: seq<string>, b: Batch, forward: nat -> Outcome, backward: nat -> Outcome)
    requires WellFormed(t) && |xs| == |b.sources| && b.Named()
    ensures var r := Transaction(t, xs, b, forward, backward).1; r.Moved? || r.Reraised? || r.StateUncertain?
  {
    hide Moves, RestoreAll;
  }

  /** The path a caller's text stands for: stripped, with its separators turned. */
  function PathOf(text: string): Path { Components(ToSlashes(Strip(text))) }

  /** The items of a planned request are the paths of the given texts, and the folder that receives
      them is that of the whole destination text, or the root when it is blank. */
  lemma PlannedPaths(raws: seq<string>, destination: string)
    requires PlanOf(raws, destination).Planned?
    ensures var b := BatchOf(raws, destination);
      && |b.sources| == |raws| && (forall i | 0 <= i < |raws| :: b.sources[i] == PathOf(raws[i]))
      && b.destination == PathOf(destination)
  {
    hide Accept, NoDots, HasTextOverlap, HasDuplicate, PairwiseApart, Components, Strip;
    forall i | 0 <= i < |raws| ensures Components(Texts(raws)[i]) == PathOf(raws[i]) { AcceptNames(raws[i]); }
    if Strip(destination) == "" { assert ToSlashes("") == ""; } else { AcceptNames(destination); }
  }

  /** What stood at `from` stands, node for node, at `to`, and nothing is left at `from`. */
  ghost predicate Carried(t: Tree, u: Tree, from: Path, to: Path) {
    forall r: Path ::
      (to + r in u <==> from + r in t) && (from + r in t ==> u[to + r] == t[from + r]) && from + r !in u
  }

  /** A request that returns normally, with texts without edge space: each item stands, node for
      node, under its own name in the destination folder, nothing is left of it where it was, and
      every other path is as before. */
  lemma CompletedRequest(
    t: Tree, raws: seq<string>, destination: string, forward: nat -> Outcome, backward: nat -> Outcome,
    completed: bool, failed: bool)
    requires WellFormed(t) && PlanOf(raws, destination).Planned?
    requires Steady(PlanOf(raws, destination).texts, BatchOf(raws, destination))
    requires Request(t, raws, destination, forward, backward, completed, failed).1.Moved?
    ensures ItemsCarried(t, Request(t, raws, destination, forward, backward, completed, failed).0, raws, destination)
  {
    hide PlanOf, Request, Placed, Independent, Admissible, Steady, Resolve, Effective, LeftMoved, PathOf, Carried;
    RequestEnds(t, raws, destination, forward, backward, completed, failed);
    PlannedPaths(raws, destination);
    var b, n := BatchOf(raws, destination), |raws|;
    var u := Request(t, raws, destination, forward, backward, completed, failed).0;
    AdmissibleIsIndependent(t, b);
    AdmissibleNamed(t, b);
    LeftAfterAll(Effective(b, forward), backward, n);
    forall i | 0 <= i < n ensures Carried(t, u, b.sources[i], b.Target(i)) { PlacedCarries(t, b, FirstItems(n), i); }
    forall p | Untouched(raws, destination, p) ensures (p in u <==> p in t) && (p in t ==> u[p] == t[p]) {
      PlacedKeeps(t, b, FirstItems(n), p);
    }
  }

  /** Each item of the request is carried to its own name in the destination folder, and every path
      below no item and no target is as before. */
  ghost predicate ItemsCarried(t: Tree, u: Tree, raws: seq<string>, destination: string) {
    && (forall i | 0 <= i < |raws| ::
          var from := PathOf(raws[i]);
          from != [] && Carried(t, u, from, PathOf(destination) + [from[|from| - 1]]))
    && (forall p | Untouched(raws, destination, p) :: (p in u <==> p in t) && (p in t ==> u[p] == t[p]))
  }

  lemma PlacedCarries(t: Tree, b: Batch, moved: set<nat>, i: nat)
    requires Independent(t, b) && Indexes(b, moved) && i in moved
    ensures Carried(t, Placed(t, b, moved), b.sources[i], b.Target(i))
  {
    hide Placed, Independent;
    PlacedMeaning(t, b, moved);
    assert forall r: Path :: b.sources[i] <= b.sources[i] + r;
  }

  lemma PlacedKeeps(t: Tree, b: Batch, moved: set<nat>, p: Path)
    requires Independent(t, b) && Indexes(b, moved)
    requires forall i | i in moved :: !(b.sources[i] <= p) && !(b.Target(i) <= p)
    ensures var u := Placed(t, b, moved); (p in u <==> p in t) && (p in t ==> u[p] == t[p])
  {
    hide Placed, Independent;
    PlacedElsewhere(t, b, moved, p);
  }

  lemma AdmissibleNamed(t: Tree, b: Batch)
    requires Admissible(t, b)
    ensures b.Named()
  {
  }

  /** The path is below no item and below no target. */
  predicate Untouched(raws: seq<string>, destination: string, p: Path) {
    forall i | 0 <= i < |raws| && PathOf(raws[i]) != [] ::
      var from := PathOf(raws[i]);
      !(from <= p) && !(PathOf(destination) + [from[|from| - 1]] <= p)
  }

  /** A request whose moves ran, with texts without edge space, raises and leaves the starting tree
      exactly when some move does not complete and every item moved by then is moved back; it raises
      and leaves every item moved exactly when all moves complete and only the closing of the
      activity fails, or when the last move raises after taking effect and nothing is moved back. */
  lemma RaisedRequestLeaves(
    t: Tree, raws: seq<string>, destination: string, forward: nat -> Outcome, backward: nat -> Outcome,
    completed: bool, failed: bool)
    requires WellFormed(t)
    requires PlanOf(raws, destination).Planned? && Admissible(t, BatchOf(raws, destination))
    requires Steady(PlanOf(raws, destination).texts, BatchOf(raws, destination))
    ensures var (u, r) := Request(t, raws, destination, forward, backward, completed, failed);
      var b, n := BatchOf(raws, destination), |raws|;
      var f := Effective(b, forward);
      && (!r.Moved? && u == t <==>
          !AllComplete(f, n) && forall i | i in MovedByThen(f, n) :: backward(i).Applies())
      && (!r.Moved? && IsPlaced(u, t, b, FirstItems(n)) <==>
          || (AllComplete(f, n) && !completed)
          || (!AllComplete(f, n) && MovedByThen(f, n) == FirstItems(n)
              && forall i: nat | i < n :: !backward(i).Applies()))
  {
    hide PlanOf, Request, Placed, Independent, Admissible, Steady, Resolve, Effective, AllComplete, MovedByThen,
      Unrestored, FirstFailure;
    RequestEnds(t, raws, destination, forward, backward, completed, failed);
    PlannedLength(raws, destination);
    PlannedSize(raws, destination);
    var (u, r) := Request(t, raws, destination, forward, backward, completed, failed);
    var b, n := BatchOf(raws, destination), |raws|;
    var f := Effective(b, forward);
    var left := LeftMoved(f, backward, n);
    var moved := MovedByThen(f, n);
    StartingTreeIff(t, b, left);
    SamePlacedIff(t, b, left, FirstItems(n));
    assert 0 in FirstItems(n);
    if AllComplete(f, n) {
      LeftAfterAll(f, backward, n);
    } else {
      LeftAfterSome(f, backward, n);
      UnrestoredNone(moved, backward);
      UnrestoredAll(moved, backward, n);
      assert moved <= FirstItems(n);
    }
  }

  lemma PlannedSize(raws: seq<string>, destination: string)
    requires PlanOf(raws, destination).Planned?
    ensures |BatchOf(raws, destination).sources| == |raws| >= 2
  {
    hide PairwiseApart, HasDuplicate, HasTextOverlap, NoDots, Accept, Components;
  }

  /** Different sets of moved items give different trees. */
  lemma SamePlacedIff(t: Tree, b: Batch, left: set<nat>, all: set<nat>)
    requires Independent(t, b) && Indexes(b, left) && Indexes(b, all)
    ensures Placed(t, b, left) == Placed(t, b, all) <==> left == all
  {
    hide Placed;
    if i :| i in left + all && !(i in left <==> i in all) {
      PlacedPresence(t, b, left, i);
      PlacedPresence(t, b, all, i);
    } else {
      assert left == all;
    }
  }

  // ---------------------------------------------------------------------------
  // The vault

  class Vault {
    var tree: Tree

    constructor (t: Tree)
      ensures tree == t
    {
      tree := t;
    }

    /** One attributed move; the file system picks the outcome. */
    method Move(src: string, dst: string, o: Outcome) returns (ok: bool)
      requires WellFormed(tree)
      modifies this
      ensures (tree, ok) == MoveText(old(tree), src, dst, o)
    {
      hide Components, Normalize, Accept, NoDots, Relocate, MkdirParents;
      var own := Components(src);
      if own !in tree {
        return false;
      }
      var accepted := Accept(dst);
      if accepted.None? || !NoDots(src) || !NoDots(dst) {
        return false;
      }
      var s, d := Components(Normalize(src)), Components(Normalize(accepted.value));
      if s == [] || d == [] || s !in tree || tree[s].Directory? != tree[own].Directory? {
        return false;
      }
      if (tree[s].Directory? && s <= d) || d in tree {
        return false;
      }
      var parents := MkdirParents(tree, Parent(d));
      if parents.None? || o.RaisesBefore? {
        return false;
      }
      tree := parents.value;
      if o.RaisesAfterMkdir? {
        return false;
      }
      MkdirWellFormed(old(tree), Parent(d));
      AbsentIsFree(tree, d);
      tree := Relocate(tree, s, d);
      return o.Completes?;
    }

    /** Compensation of one item, going by what the tree shows. */
    method RestoreItem(xs: seq<string>, b: Batch, i: nat, o: Outcome) returns (error: Option<CompensationError>)
      requires WellFormed(tree) && i < |xs| == |b.sources| && b.Named()
      modifies this
      ensures (tree, error) == Restore(old(tree), xs, b, i, o)
    {
      hide MoveText, TargetText;
      var s, d := b.sources[i], b.Target(i);
      if s in tree && d !in tree {
        return None;
      }
      if s !in tree && d in tree {
        var ok := Move(TargetText(b, i), xs[i], o);
        if !ok && !(s in tree && d !in tree) {
          return Some(StillMoved(i));
        }
        return None;
      }
      return Some(AmbiguousState(i));
    }

    /** Compensation of every item, from the last to the first. */
    method Compensate(xs: seq<string>, b: Batch, backward: nat -> Outcome) returns (errors: seq<CompensationError>)
      requires WellFormed(tree) && |xs| == |b.sources| && b.Named()
      modifies this
      ensures (tree, errors) == RestoreAll(old(tree), xs, b, backward, |xs|)
    {
      hide Restore, RestoreAll, StillToRestore, WellFormed;
      errors := [];
      RestoreStart(tree, xs, b, backward, |xs|);
      for i := |xs| downto 0
        invariant WellFormed(tree)
        invariant StillToRestore(tree, errors, xs, b, backward, i) == RestoreAll(old(tree), xs, b, backward, |xs|)
      {
        RestoreNext(tree, errors, xs, b, backward, i);
        ghost var before := tree;
        var error := RestoreItem(xs, b, i, backward(i));
        assert WellFormed(tree) by { assert tree == Restore(before, xs, b, i, backward(i)).0; }
        if error.Some? {
          errors := errors + [error.value];
        }
      }
      RestoreEnd(tree, errors, xs, b, backward);
    }

    /** The moves, and compensation when one of them raises. */
    method RunMoves(xs: seq<string>, b: Batch, forward: nat -> Outcome, backward: nat -> Outcome)
      returns (r: BatchResult)
      requires WellFormed(tree) && |xs| == |b.sources| && b.Named()
      modifies this
      ensures (tree, r) == Transaction(old(tree), xs, b, forward, backward)
    {
      hide MoveText, TargetText, RestoreAll, WellFormed;
      for i := 0 to |xs|
        invariant WellFormed(tree)
        invariant Moves(old(tree), xs, b, forward, 0) == Moves(tree, xs, b, forward, i)
      {
        ghost var before := tree;
        var ok := Move(xs[i], TargetText(b, i), forward(i));
        assert WellFormed(tree) by { assert tree == MoveText(before, xs[i], TargetText(b, i), forward(i)).0; }
        if !ok {
          var errors := Compensate(xs, b, backward);
          return if errors == [] then Reraised else StateUncertain(errors);
        }
      }
      return Moved;
    }

    /** The whole request. */
    method MoveBatch(
      raws: seq<string>, destination: string, forward: nat -> Outcome, backward: nat -> Outcome,
      completed: bool, failed: bool)
      returns (r: BatchResult)
      requires WellFormed(tree)
      modifies this
      ensures (tree, r) == Request(old(tree), raws, destination, forward, backward, completed, failed)
    {
      hide PlanOf, Sound, PairwiseApart, Resolve, Transaction, PreflightError, WellFormed;
      var plan := PlanOf(raws, destination);
      if plan.Refused? {
        return Rejected(plan.error);
      }
      PlannedIsSound(raws, destination);
      var b := Batch(Resolve(plan.texts), plan.destination);
      SoundLength(plan.texts, b);
      var preflight := Preflight(tree, b);
      if preflight.Some? {
        return Rejected(preflight.value);
      }
      r := RunMoves(plan.texts, b, forward, backward);
      var closed := if r.Moved? then completed else failed;
      if !closed {
        r := ActivityUnfinished;
      }
    }
  }
}
