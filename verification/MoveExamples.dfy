/** Requests whose outcome is not what a caller would expect. */
module MoveExamples {
  import opened Common
  import opened Text
  import opened VaultTree
  import opened VaultText
  import opened BatchMove
  import opened MoveRequest

  // ---------------------------------------------------------------------------
  // The activity cannot be closed

  function AlwaysCompletes(i: nat): Outcome { Completes }

  lemma AcceptPlain(s: string)
    requires Bare(s) && !HasEdgeSpace(s) && Safe(s)
    ensures Accept(s) == Some(s)
  {
    hide HasEdgeSpace, Safe, Bare;
    NormalizeSame(s);
  }

  /** Two files and a folder: every move completes, closing the activity fails, and the request that
      raises has moved both files. */
  lemma UnfinishedActivityKeepsTheMoves(failed: bool)
    ensures var t: Tree := map[[] := Directory, ["a"] := File("1"), ["b"] := File("2"), ["d"] := Directory];
      WellFormed(t) &&
      var (u, r) := Request(t, ["a", "b"], "d", AlwaysCompletes, AlwaysCompletes, false, failed);
      r == ActivityUnfinished && u != t && ["d", "a"] in u && ["d", "b"] in u
  {
    hide Placed, Independent, Request, PlanOf, Effective;
    var t: Tree := map[[] := Directory, ["a"] := File("1"), ["b"] := File("2"), ["d"] := Directory];
    var b := Batch([["a"], ["b"]], ["d"]);
    ExamplePlan();
    ExampleAdmissible(t, b);
    assert BatchOf(["a", "b"], "d") == b;
    ExampleTargets(b);
    RequestEnds(t, ["a", "b"], "d", AlwaysCompletes, AlwaysCompletes, false, failed);
    var f := Effective(b, AlwaysCompletes);
    assert AllComplete(f, 2) by { ExampleEffective(b); }
    LeftAfterAll(f, AlwaysCompletes, 2);
    AdmissibleIsIndependent(t, b);
    PlacedPresence(t, b, FirstItems(2), 0);
    PlacedPresence(t, b, FirstItems(2), 1);
    assert b.Target(0) == ["d", "a"] && b.Target(1) == ["d", "b"];
  }

  lemma PlannedAsIs(raws: seq<string>, destination: string, to: string)
    requires |raws| >= 2 && DestinationText(destination) == Some(to) && NoDots(to)
    requires forall i | 0 <= i < |raws| :: Accept(raws[i]) == Some(raws[i]) && NoDots(raws[i])
    requires PairwiseApart(Resolve(raws))
    ensures PlanOf(raws, destination) == Planned(raws, Components(to))
  {
    hide Accept, Components, NoDots, PairwiseApart, HasDuplicate, HasTextOverlap;
    assert Texts(raws) == raws;
    OverlapIsNotApart(raws);
  }

  lemma ExamplePlan()
    ensures PlanOf(["a", "b"], "d") == Planned(["a", "b"], ["d"]) && Resolve(["a", "b"]) == [["a"], ["b"]]
  {
    ShortName("a");
    ShortName("b");
    ShortName("d");
    hide Accept, Components, Strip, NoDots;
    var raws := ["a", "b"];
    assert Resolve(raws) == [["a"], ["b"]];
    hide Resolve, PairwiseApart;
    DifferentTops(["a"], ["b"]);
    PlannedAsIs(raws, "d", "d");
  }

  lemma DifferentTops(x: Path, y: Path)
    requires x != [] && y != [] && x[0] != y[0]
    ensures PairwiseApart([x, y])
  {
  }

  /** A one-letter name is accepted as it is. */
  lemma ShortName(s: string)
    requires |s| == 1 && IsLetter(s[0])
    ensures Accept(s) == Some(s) && Components(s) == [s] && NoDots(s) && Strip(s) == s
  {
    assert GoodName(s);
    OneComponent(s);
    hide Components;
    assert ToSlashes(s) == s;
    forall i: nat | i <= |s| ensures !PartAt(s, ".", i) && !PartAt(s, "..", i) {
      if i == 0 { assert s[0..1] == s; }
    }
    assert Safe(s) && Bare(s) && !HasEdgeSpace(s);
    AcceptPlain(s);
  }

  lemma ExampleTargets(b: Batch)
    requires b == Batch([["a"], ["b"]], ["d"])
    ensures TargetText(b, 0) == "d/a" && TargetText(b, 1) == "d/b"
    ensures Steady(["a", "b"], b)
  {
    assert b.Target(0) == ["d", "a"] && b.Target(1) == ["d", "b"];
    assert ["d", "a"][1..] == ["a"] && ["d", "b"][1..] == ["b"];
  }

  lemma ExampleEffective(b: Batch)
    requires b == Batch([["a"], ["b"]], ["d"])
    ensures AllComplete(Effective(b, AlwaysCompletes), 2)
  {
    ExampleTargets(b);
    TwoLevels("d/a");
    TwoLevels("d/b");
    hide Accept, TargetText, Effective;
    EffectiveAt(b, AlwaysCompletes, 0);
    EffectiveAt(b, AlwaysCompletes, 1);
    forall i: nat | i < 2 ensures Effective(b, AlwaysCompletes)(i).Completes? {
      assert i == 0 || i == 1;
    }
  }

  lemma EffectiveAt(b: Batch, forward: nat -> Outcome, i: nat)
    ensures Effective(b, forward)(i) == Allowed(TargetText(b, i), forward(i))
  {
  }

  lemma TwoLevels(s: string)
    requires |s| == 3 && IsLetter(s[0]) && s[1] == '/' && IsLetter(s[2])
    ensures Accept(s) == Some(s)
  {
    assert ToSlashes(s) == s;
    forall i: nat | i <= |s| ensures !PartAt(s, ".", i) && !PartAt(s, "..", i) {
      if i < |s| { assert s[i..i + 1][0] == s[i]; }
      if i + 2 <= |s| { assert s[i..i + 2][0] == s[i]; }
    }
    assert Safe(s) && Bare(s) && !HasEdgeSpace(s);
    AcceptPlain(s);
  }

  lemma ExampleAdmissible(t: Tree, b: Batch)
    requires t == map[[] := Directory, ["a"] := File("1"), ["b"] := File("2"), ["d"] := Directory]
    requires b == Batch([["a"], ["b"]], ["d"])
    ensures Admissible(t, b)
  {
    var x: Path, y: Path, d: Path := ["a"], ["b"], ["d"];
    assert Parent(x) == [] && Parent(y) == [] && Parent(d) == [];
    assert x[0] != y[0] && x[0] != d[0] && y[0] != d[0];
    assert b.Target(0) == ["d", "a"] && b.Target(1) == ["d", "b"];
    assert b.Target(0)[1] != b.Target(1)[1];
    assert |b.Target(0)| == 2 && |b.Target(1)| == 2;
    assert forall p | p in t :: |p| <= 1;
    assert WellFormed(t);
    hide WellFormed;
    assert PreflightItem(t, b, 0).None? && PreflightItem(t, b, 1).None?;
  }

  // ---------------------------------------------------------------------------
  // A target text that begins with white space

  /** Both items are reported as ambiguous, and the first is at the target of the second. */
  ghost predicate FirstAstray(t: Tree, b: Batch, result: (Tree, BatchResult)) {
    && |b.sources| == 2 && b.Named() && result.1 == StateUncertain([AmbiguousState(1), AmbiguousState(0)])
    && b.sources[0] in t && b.Target(1) in result.0 && result.0[b.Target(1)] == t[b.sources[0]]
    && b.sources[0] !in result.0 && b.Target(0) !in result.0 && b.sources[1] in result.0
  }

  /** Two items of which the first lands, for the edge space of its target text, on the target of
      the second: nothing fails by itself, the second move finds its target taken, compensation
      finds both items ambiguous, and the first is left at a path that is not its own. */
  lemma LandingOnAnotherTarget(t: Tree, xs: seq<string>, b: Batch)
    requires Sound(xs, b) && Admissible(t, b) && |xs| == |b.sources| == 2 && WellFormed(t) && b.Named()
    requires !HasEdgeSpace(xs[0]) && !HasEdgeSpace(TargetText(b, 1))
    requires Landing(TargetText(b, 0)) == Some(b.Target(1))
    ensures FirstAstray(t, b, Transaction(t, xs, b, AlwaysCompletes, AlwaysCompletes))
  {
    hide Sound, MoveText, Relocate, TargetText, Admissible, Landing, HasEdgeSpace, WellFormed, Independent;
    AdmissibleIsIndependent(t, b);
    LandsOnOther(t, xs, b);
    var u := Relocate(t, b.sources[0], b.Target(1));
    AfterLanding(t, b, u);
    assert WellFormed(u) by { assert u == MoveText(t, xs[0], TargetText(b, 0), Completes).0; }
    FindsTaken(u, xs, b);
    assert Moves(u, xs, b, AlwaysCompletes, 1) == (u, false);
    assert Moves(t, xs, b, AlwaysCompletes, 0) == (u, false);
    BothAmbiguous(u, xs, b);
  }

  lemma LandsOnOther(t: Tree, xs: seq<string>, b: Batch)
    requires Sound(xs, b) && Admissible(t, b) && Independent(t, b) && |xs| == |b.sources| == 2 && WellFormed(t)
    requires !HasEdgeSpace(xs[0]) && Landing(TargetText(b, 0)) == Some(b.Target(1))
    ensures Free(t, b.Target(1))
    ensures MoveText(t, xs[0], TargetText(b, 0), Completes) == (Relocate(t, b.sources[0], b.Target(1)), true)
  {
    hide Sound, Components, Normalize, Landing, NoDots, Bare, TargetText, HasEdgeSpace, Relocate, MoveStep, WellFormed,
      Admissible, Independent;
    TargetTextGood(xs, b, 0);
    SoundAt(xs, b, 0);
    NormalizeKeepsPathIff(xs[0]);
    RenameOnto(t, b);
  }

  lemma RenameOnto(t: Tree, b: Batch)
    requires Admissible(t, b) && Independent(t, b) && |b.sources| == 2 && WellFormed(t)
    ensures Free(t, b.Target(1)) && b.sources[0] in t
    ensures MoveStep(t, b.sources[0], b.Target(1), Completes) == (Relocate(t, b.sources[0], b.Target(1)), true)
  {
    assert Apart(b.sources[0], b.Target(1)) && Free(t, b.Target(1)) && b.sources[0] in t;
    assert b.Target(1) !in t && Parent(b.Target(1)) == b.destination;
    hide Independent, Relocate;
    MkdirExisting(t, b.destination);
    hide MkdirParents;
  }

  lemma AfterLanding(t: Tree, b: Batch, u: Tree)
    requires Independent(t, b) && |b.sources| == 2 && Free(t, b.Target(1))
    requires u == Relocate(t, b.sources[0], b.Target(1))
    ensures b.Target(1) in u && u[b.Target(1)] == t[b.sources[0]]
    ensures b.sources[0] !in u && b.Target(0) !in u && b.sources[1] in u
  {
    var s, d, other := b.sources[0], b.Target(1), b.sources[1];
    assert Apart(s, d) && Apart(d, b.Target(0)) && Apart(s, other);
    assert Free(t, b.Target(0)) && s in t && other in t;
    hide Independent, Relocate;
    assert b.Target(0) !in t;
    assert Shift(s, d, s) == d by { assert s[|s|..] == []; }
    RelocateAt(t, s, d, s);
    RelocateAt(t, s, d, other);
    RelocatedAbsent(t, s, d, s);
    RelocatedAbsent(t, s, d, b.Target(0));
  }

  lemma FindsTaken(u: Tree, xs: seq<string>, b: Batch)
    requires WellFormed(u) && Sound(xs, b) && |xs| == |b.sources| == 2 && b.Target(1) in u
    requires !HasEdgeSpace(TargetText(b, 1))
    ensures MoveText(u, xs[1], TargetText(b, 1), Completes) == (u, false)
  {
    hide Sound, Components, Normalize, NoDots, Bare, TargetText, HasEdgeSpace, Relocate, MkdirParents, Accept;
    TargetTextGood(xs, b, 1);
    if Accept(TargetText(b, 1)).Some? { LandingKeepsPathIff(TargetText(b, 1)); }
  }

  lemma BothAmbiguous(u: Tree, xs: seq<string>, b: Batch)
    requires WellFormed(u) && |xs| == |b.sources| == 2 && b.Named()
    requires b.Target(1) in u && b.sources[0] !in u && b.Target(0) !in u && b.sources[1] in u
    ensures RestoreAll(u, xs, b, AlwaysCompletes, 2) == (u, [AmbiguousState(1), AmbiguousState(0)])
  {
    hide MoveText, WellFormed;
    assert Restore(u, xs, b, 1, Completes) == (u, Some(AmbiguousState(1)));
    assert Restore(u, xs, b, 0, Completes) == (u, Some(AmbiguousState(0)));
    assert RestoreAll(u, xs, b, AlwaysCompletes, 1) == (u, [AmbiguousState(0)] + []);
    assert [AmbiguousState(1)] + ([AmbiguousState(0)] + []) == [AmbiguousState(1), AmbiguousState(0)];
  }

  /** A vault with such items: a file whose name begins with a space, and another. */
  function SpacedVault(): Tree {
    map[[] := Directory, ["x"] := Directory, ["y"] := Directory,
        ["x", " a.md"] := File("1"), ["y", "a.md"] := File("2")]
  }

  function SpacedBatch(): Batch { Batch([["x", " a.md"], ["y", "a.md"]], []) }

  /** Moving both files to the root: the first ends at "a.md", its target being " a.md". */
  lemma SpaceLeavesAFileAstray()
    ensures WellFormed(SpacedVault()) && SpacedBatch().Named()
    ensures SpacedBatch().Target(0) == [" a.md"] && SpacedBatch().Target(1) == ["a.md"]
    ensures FirstAstray(SpacedVault(), SpacedBatch(),
      Request(SpacedVault(), ["x/ a.md", "y/a.md"], "", AlwaysCompletes, AlwaysCompletes, true, true))
  {
    var t, b := SpacedVault(), SpacedBatch();
    SpacedTargets(b);
    SpacedAdmissible(t, b);
    hide PlanOf, PreflightError, Resolve, WellFormed, TargetText, SpacedVault, Landing, HasEdgeSpace, FirstAstray,
      Request;
    SpacedPlan();
    SpacedEdges();
    SpaceStripped();
    CarriedOutAstray(t, ["x/ a.md", "y/a.md"], "", b);
  }

  lemma CarriedOutAstray(t: Tree, raws: seq<string>, destination: string, b: Batch)
    requires WellFormed(t) && |raws| == 2 && PlanOf(raws, destination) == Planned(raws, b.destination)
    requires Resolve(raws) == b.sources && b.Named() && PreflightError(t, b).None?
    requires !HasEdgeSpace(raws[0]) && !HasEdgeSpace(TargetText(b, 1))
    requires Landing(TargetText(b, 0)) == Some(b.Target(1))
    ensures FirstAstray(t, b, Request(t, raws, destination, AlwaysCompletes, AlwaysCompletes, true, true))
  {
    hide PlanOf, PreflightError, Transaction, Resolve, WellFormed, TargetText, Landing, HasEdgeSpace, Sound, Admissible;
    PlannedIsSound(raws, destination);
    PreflightPassesIff(t, b);
    LandingOnAnotherTarget(t, raws, b);
  }

  lemma SpacedEdges()
    ensures !HasEdgeSpace("x/ a.md") && !HasEdgeSpace("a.md")
  {
  }

  lemma SpaceStripped()
    ensures Landing(" a.md") == Some(["a.md"])
  {
    assert GoodName("a.md");
    OneComponent("a.md");
    FileName("a.md");
    assert Strip(" a.md") == "a.md" by { LeadingSpace("a.md"); }
    assert Strip("a.md") == "a.md" by { NormalizeSame("a.md"); }
    hide Strip, Components, Normalize, Safe;
  }

  lemma LeadingSpace(s: string)
    requires s != "" && !HasEdgeSpace(s)
    ensures Strip(" " + s) == s
  {
    assert (" " + s)[1..] == s;
    assert IsSpace(' ');
    hide IsSpace;
    assert StripLeft(s) == s && StripRight(s) == s;
  }

  lemma TwoComponents(a: string, b: string)
    requires GoodName(a) && GoodName(b)
    ensures Components(a + "/" + b) == [a, b]
  {
    hide GoodName, Components;
    OneComponent(a);
    OneComponent(b);
    ComponentsAppend(a, b);
  }

  /** A text of printable characters in which every dot stands between other characters. */
  lemma FileName(s: string)
    requires Bare(s) && !HasEdgeSpace(s) && !HasDrive(s) && |s| <= MAXIMUM_PATH_LENGTH
    requires forall i | 0 <= i < |s| :: s[i] >= 32 as char
    requires forall i | 0 <= i < |s| && s[i] == '.' :: 0 < i < |s| - 1 && s[i - 1] != '/' && s[i + 1] != '.'
    ensures Accept(s) == Some(s) && Normalize(s) == s && NoDots(s)
  {
    assert ToSlashes(s) == s;
    forall i: nat | i <= |s| ensures !PartAt(s, ".", i) && !PartAt(s, "..", i) {
      if i < |s| { assert s[i..i + 1][0] == s[i]; }
      if i + 2 <= |s| { assert s[i..i + 2][0] == s[i]; }
    }
    assert Safe(s);
    AcceptPlain(s);
    NormalizeSame(s);
  }

  lemma SpacedPlan()
    ensures PlanOf(["x/ a.md", "y/a.md"], "") == Planned(["x/ a.md", "y/a.md"], [])
    ensures Resolve(["x/ a.md", "y/a.md"]) == [["x", " a.md"], ["y", "a.md"]]
  {
    hide Accept, Components, NoDots, Normalize;
    FirstText();
    SecondText();
    var raws := ["x/ a.md", "y/a.md"];
    var x: Path, y: Path := ["x", " a.md"], ["y", "a.md"];
    assert Resolve(raws) == [x, y];
    hide Resolve, PairwiseApart;
    DifferentTops(x, y);
    EmptyText();
    PlannedAsIs(raws, "", "");
  }

  lemma FirstText()
    ensures Accept("x/ a.md") == Some("x/ a.md") && Components("x/ a.md") == ["x", " a.md"] && NoDots("x/ a.md")
  {
    hide Accept, Components, Normalize;
    FileName("x/ a.md");
    assert GoodName("x") && GoodName(" a.md");
    TwoComponents("x", " a.md");
    assert "x" + "/" + " a.md" == "x/ a.md";
  }

  lemma SecondText()
    ensures Accept("y/a.md") == Some("y/a.md") && Components("y/a.md") == ["y", "a.md"] && NoDots("y/a.md")
  {
    hide Accept, Components, Normalize;
    FileName("y/a.md");
    assert GoodName("y") && GoodName("a.md");
    TwoComponents("y", "a.md");
    assert "y" + "/" + "a.md" == "y/a.md";
  }

  lemma EmptyText()
    ensures NoDots("") && Components("") == []
  {
  }

  lemma SpacedTargets(b: Batch)
    requires b == Batch([["x", " a.md"], ["y", "a.md"]], [])
    ensures b.Target(0) == [" a.md"] && b.Target(1) == ["a.md"]
    ensures TargetText(b, 0) == " a.md" && TargetText(b, 1) == "a.md"
  {
  }

  lemma SpacedAdmissible(t: Tree, b: Batch)
    requires t == SpacedVault() && b == Batch([["x", " a.md"], ["y", "a.md"]], [])
    ensures WellFormed(t) && b.Named() && PreflightError(t, b).None?
  {
    assert Parent(["x"]) == [] && Parent(["y"]) == [];
    assert Parent(["x", " a.md"]) == ["x"] && Parent(["y", "a.md"]) == ["y"];
    assert WellFormed(t);
    hide WellFormed;
    SpacedTargets(b);
    SpacedAbsent(t);
    assert |" a.md"| != |"a.md"|;
    assert PreflightItem(t, b, 0).None? && PreflightItem(t, b, 1).None?;
    assert FirstItemError(t, b, 2).None?;
  }

  lemma SpacedAbsent(t: Tree)
    requires t == SpacedVault()
    ensures [" a.md"] !in t && ["a.md"] !in t
  {
    var p: Path, q: Path := [" a.md"], ["a.md"];
    assert |p[0]| == 5 && |q[0]| == 4;
    assert forall r | r in t && |r| == 1 :: |r[0]| == 1;
  }
}
