/** The vault's file tree and one attributed move inside it.

    A tree maps every existing path (a sequence of names below the vault root,
    which is the empty path) to a node.  Paths are canonical: no symbolic links. */
module VaultTree {
  import opened Common

  type Path = seq<string>

  datatype Node = Directory | File(content: string)

  type Tree = map<Path, Node>

  function Parent(p: Path): Path
    requires p != []
  {
    p[..|p| - 1]
  }

  function Name(p: Path): string
    requires p != []
  {
    p[|p| - 1]
  }

  /** The root is a directory and every other node sits in an existing directory. */
  ghost predicate WellFormed(t: Tree) {
    && [] in t && t[[]].Directory?
    && forall p | p in t && p != [] :: Parent(p) in t && t[Parent(p)].Directory?
  }

  /** Neither path contains the other (and they differ). */
  predicate Apart(a: Path, b: Path) {
    !(a <= b) && !(b <= a)
  }

  /** Nothing exists at or below `d`. */
  ghost predicate Free(t: Tree, d: Path) {
    forall p | p in t :: !(d <= p)
  }

  lemma {:induction false} AncestorsExist(t: Tree, a: Path, p: Path)
    requires WellFormed(t) && p in t && a <= p
    ensures a in t && (a != p ==> t[a].Directory?)
    decreases |p|
  {
    if a != p {
      AncestorsExist(t, a, Parent(p));
    }
  }

  lemma AbsentIsFree(t: Tree, d: Path)
    requires WellFormed(t) && d !in t
    ensures Free(t, d)
  {
    forall p | p in t ensures !(d <= p) {
      if d <= p { AncestorsExist(t, d, p); }
    }
  }

  /** Where a path lands when the subtree at `s` is re-rooted at `d`. */
  function Shift(s: Path, d: Path, p: Path): Path {
    if s <= p then d + p[|s|..] else p
  }

  lemma ShiftInjective(t: Tree, s: Path, d: Path, p: Path, q: Path)
    requires Free(t, d) && p in t && q in t && Shift(s, d, p) == Shift(s, d, q)
    ensures p == q
  {
    if s <= p && s <= q {
      assert p == s + p[|s|..] && q == s + q[|s|..];
      assert (d + p[|s|..])[|d|..] == (d + q[|s|..])[|d|..];
    }
  }

  /** The effect of renaming `s` to `d`: the whole subtree moves, the rest stays. */
  function Relocate(t: Tree, s: Path, d: Path): (r: Tree)
    requires Free(t, d)
  {
    RelocateKeys(t, s, d);
    map p | p in t :: Shift(s, d, p) := t[p]
  }

  lemma RelocateKeys(t: Tree, s: Path, d: Path)
    requires Free(t, d)
    ensures forall p, q | p in t && q in t && Shift(s, d, p) == Shift(s, d, q) :: p == q
  {
    forall p, q | p in t && q in t && Shift(s, d, p) == Shift(s, d, q) ensures p == q {
      ShiftInjective(t, s, d, p, q);
    }
  }

  function Ancestors(p: Path): set<Path> {
    set k | 0 <= k <= |p| :: p[..k]
  }

  /** `mkdir(parents=True, exist_ok=True)`: creates the missing directories on the way
      to `p`, or fails when a file is in the way. */
  function MkdirParents(t: Tree, p: Path): (r: Option<Tree>) {
    if exists k | 0 <= k <= |p| :: p[..k] in t && t[p[..k]].File? then None
    else Some(t + map q | q in Ancestors(p) :: Directory)
  }

  lemma MkdirExisting(t: Tree, p: Path)
    requires WellFormed(t) && p in t && t[p].Directory?
    ensures MkdirParents(t, p) == Some(t)
  {
    forall k | 0 <= k <= |p| ensures p[..k] in t && t[p[..k]].Directory? {
      AncestorsExist(t, p[..k], p);
      assert k == |p| ==> p[..k] == p;
    }
    assert t == t + map q | q in Ancestors(p) :: Directory;
  }

  lemma MkdirWellFormed(t: Tree, p: Path)
    requires WellFormed(t) && MkdirParents(t, p).Some?
    ensures var t' := MkdirParents(t, p).value;
            && WellFormed(t') && p in t' && t'[p].Directory?
            && forall q :: q in t' <==> q in t || q <= p
  {
    var t' := MkdirParents(t, p).value;
    assert p[..|p|] == p;
    forall q ensures q in t' <==> q in t || q <= p {
      if q <= p { assert q == p[..|q|]; }
    }
    forall q | q in t' && q != [] ensures Parent(q) in t' && t'[Parent(q)].Directory? {
      if q <= p {
        assert Parent(q) == p[..|q| - 1];
      } else if Parent(q) <= p {
        assert Parent(q) == p[..|q| - 1];
      }
    }
    assert [] == p[..0];
  }

  /** What the file system does with one move that passed its checks: it takes effect or
      not, and either way the call may raise (for instance when the state refresh after
      the rename fails). */
  datatype Outcome = Completes | RaisesBefore | RaisesAfterMkdir | RaisesAfter {
    predicate Applies() { Completes? || RaisesAfter? }
  }

  /** One attributed move: resulting tree, and whether the call returned normally. */
  ghost function MoveStep(t: Tree, s: Path, d: Path, o: Outcome): (r: (Tree, bool))
    requires WellFormed(t) && s != [] && d != []
    ensures WellFormed(r.0)
  {
    if s !in t || (t[s].Directory? && s <= d) || d in t then (t, false)
    else match MkdirParents(t, Parent(d))
      case None => (t, false)
      case Some(t') =>
        MkdirWellFormed(t, Parent(d));
        AbsentIsFree(t', d);
        RelocateWellFormed(t', s, d);
        match o
        case RaisesBefore => (t, false)
        case RaisesAfterMkdir => (t', false)
        case RaisesAfter => (Relocate(t', s, d), false)
        case Completes => (Relocate(t', s, d), true)
  }

  lemma RelocateAt(t: Tree, s: Path, d: Path, p: Path)
    requires Free(t, d) && p in t
    ensures var r := Relocate(t, s, d); Shift(s, d, p) in r && r[Shift(s, d, p)] == t[p]
  {
    RelocateKeys(t, s, d);
  }

  /** The parent of a relocated node is the relocated image of an existing directory. */
  lemma ShiftParent(s: Path, d: Path, p: Path)
    requires d != [] && s != [] && !(s <= Parent(d)) && Shift(s, d, p) != []
    ensures p != [] && Parent(Shift(s, d, p)) == Shift(s, d, if p == s then Parent(d) else Parent(p))
  {
    if s <= p && p != s {
      assert s <= Parent(p);
      assert Parent(d + p[|s|..]) == d + Parent(p)[|s|..];
    }
  }

  /** A rename keeps the tree well formed. */
  lemma RelocateWellFormed(t: Tree, s: Path, d: Path)
    requires WellFormed(t) && s in t && s != [] && d != []
    requires Parent(d) in t && t[Parent(d)].Directory? && (t[s].Directory? ==> !(s <= d))
    requires Free(t, d)
    ensures WellFormed(Relocate(t, s, d))
  {
    var r := Relocate(t, s, d);
    if s <= Parent(d) {
      AncestorsExist(t, s, Parent(d));
      assert false;
    }
    RelocateAt(t, s, d, []);
    forall q | q in r && q != [] ensures Parent(q) in r && r[Parent(q)].Directory? {
      var p :| p in t && Shift(s, d, p) == q;
      ShiftParent(s, d, p);
      RelocateAt(t, s, d, if p == s then Parent(d) else Parent(p));
    }
  }
}
