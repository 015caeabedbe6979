/** Pruning of retained System Activity segments. */
module ActivityPrune {
  import opened Text
  import opened Sorting

  /** A directory entry; `modified` is its modification time and the cutoff is a time alike. */
  datatype File = File(name: string, modified: int, size: nat, regular: bool)

  datatype PruneResult = PruneResult(removedExpired: nat, removedForSize: nat, retainedBytes: nat)

  predicate EndsWith(s: string, suffix: string) {
    |suffix| <= |s| && s[|s| - |suffix|..] == suffix
  }

  /** A retained segment of `log`: its name goes on with a dot and a digit. */
  predicate IsSegment(log: string, f: File) {
    log + "." <= f.name && !EndsWith(f.name, ".lock") && |f.name| > |log| + 1 && IsDigit(f.name[|log| + 1]) && f.regular
  }

  /** A name is a segment's when it goes on after the log's with a dot and a digit and is no lock. */
  lemma SegmentIff(log: string, f: File, rest: string)
    ensures IsSegment(log, f) ==> f.regular && f.name == log + "." + f.name[|log| + 1..]
    ensures f.name == log + "." + rest ==>
      (IsSegment(log, f) <==>
         f.regular && rest != "" && '0' <= rest[0] <= '9' && !exists stem :: f.name == stem + ".lock")
  {
    if EndsWith(f.name, ".lock") { assert f.name == f.name[..|f.name| - 5] + ".lock"; }
    forall stem | f.name == stem + ".lock" ensures EndsWith(f.name, ".lock") { }
    if f.name == log + "." + rest && rest != "" { assert f.name[|log| + 1] == rest[0]; }
  }

  predicate Older(a: File, b: File) {
    a.modified < b.modified || (a.modified == b.modified && Less(a.name, b.name))
  }

  predicate DistinctNames(files: seq<File>) {
    forall i, j | 0 <= i < j < |files| :: files[i].name != files[j].name
  }

  function SegmentOf(log: string): File -> bool {
    (f: File) => IsSegment(log, f)
  }

  /** The retained segments in chronological order. */
  function Segments(log: string, files: seq<File>): seq<File> {
    Sort(Filter(files, SegmentOf(log)), Older)
  }

  function ActiveSize(log: string, files: seq<File>): nat {
    if files == [] then 0
    else if files[0].name == log then files[0].size else ActiveSize(log, files[1..])
  }

  function TotalSize(segs: seq<File>): nat {
    if segs == [] then 0 else segs[0].size + TotalSize(segs[1..])
  }

  function NotNamed(names: set<string>): File -> bool {
    (f: File) => f.name !in names
  }

  function Unlink(files: seq<File>, names: set<string>): seq<File> {
    Filter(files, NotNamed(names))
  }

  function Names(segs: seq<File>): set<string> {
    set i | 0 <= i < |segs| :: segs[i].name
  }

  /** The suffix from `k` starts with an unexpired segment and fits the byte budget. */
  predicate Retainable(segs: seq<File>, cutoff: int, active: nat, budget: int, k: nat)
    requires k < |segs|
  {
    segs[k].modified >= cutoff && active + TotalSize(segs[k..]) <= budget
  }

  /** `k` is the first position whose suffix can be retained, or the end. */
  predicate IsCut(segs: seq<File>, cutoff: int, active: nat, budget: int, k: nat) {
    k <= |segs| && (k < |segs| ==> Retainable(segs, cutoff, active, budget, k)) &&
    forall j: nat | j < k :: !Retainable(segs, cutoff, active, budget, j)
  }

  lemma OlderIsOrder()
    ensures WeakOrder(Older)
  {
    forall a: File, b: File | Older(a, b) ensures !Older(b, a) {
      if Less(a.name, b.name) && Less(b.name, a.name) {
        LessTransitive(a.name, b.name, a.name);
        LessIrreflexive(a.name);
      }
    }
    forall a: File, b: File, c: File | Older(a, c) ensures Older(a, b) || Older(b, c) {
      LessTotal(a.name, b.name);
      if Less(b.name, a.name) && Less(a.name, c.name) { LessTransitive(b.name, a.name, c.name); }
    }
  }

  /** Segments are listed strictly from oldest to newest, whatever order the directory has. */
  lemma SegmentsSorted(log: string, files: seq<File>)
    requires DistinctNames(files)
    ensures StrictlySorted(Segments(log, files), Older)
    ensures var segs := Segments(log, files);
      forall i, j | 0 <= i < j < |segs| ::
        segs[i].modified < segs[j].modified ||
        (segs[i].modified == segs[j].modified && Less(segs[i].name, segs[j].name))
    ensures forall f :: f in Segments(log, files) <==> f in files && IsSegment(log, f)
  {
    hide Sort, Filter, Older, IsSegment;
    OlderIsOrder();
    var keep := SegmentOf(log);
    var related := (a: File, b: File) => Older(a, b) || Older(b, a);
    forall i, j | 0 <= i < j < |files| ensures related(files[i], files[j]) { NamesOrdered(files[i], files[j]); }
    FilterPairs(files, keep, related);
    SortStrict(Filter(files, keep), Older);
    forall f ensures f in Segments(log, files) <==> f in files && IsSegment(log, f) {
      SortMembers(Filter(files, keep), Older, f);
      FilterMembers(files, keep, f);
    }
    OldestFirst(Segments(log, files));
  }

  lemma OldestFirst(segs: seq<File>)
    requires StrictlySorted(segs, Older)
    ensures forall i, j | 0 <= i < j < |segs| ::
      segs[i].modified < segs[j].modified ||
      (segs[i].modified == segs[j].modified && Less(segs[i].name, segs[j].name))
  {
    hide Less;
    forall i, j | 0 <= i < j < |segs| ensures segs[i].modified < segs[j].modified ||
      (segs[i].modified == segs[j].modified && Less(segs[i].name, segs[j].name))
    {
      assert Older(segs[i], segs[j]);
    }
  }

  lemma NamesOrdered(a: File, b: File)
    requires a.name != b.name
    ensures Older(a, b) || Older(b, a)
  {
    LessTotal(a.name, b.name);
  }

  lemma {:induction false} SizeOfParts(a: seq<File>, f: File, b: seq<File>)
    ensures TotalSize(a + [f] + b) == TotalSize(a) + f.size + TotalSize(b)
  {
    if a == [] {
      assert (a + [f] + b)[1..] == b;
    } else {
      SizeOfParts(a[1..], f, b);
      assert (a + [f] + b)[1..] == a[1..] + [f] + b;
    }
  }

  lemma {:induction false} SizeStep(segs: seq<File>, i: nat, j: nat)
    requires i <= j < |segs|
    ensures TotalSize(segs[i..j + 1]) == TotalSize(segs[i..j]) + segs[j].size
    decreases j - i
  {
    if i < j {
      SizeStep(segs, i + 1, j);
      assert segs[i..j + 1][1..] == segs[i + 1..j + 1] && segs[i..j][1..] == segs[i + 1..j];
    } else {
      assert segs[i..j] == [] && segs[i..j + 1] == [segs[j]];
    }
  }

  /** After removing the segments before the cut, the remaining segments are those after it. */
  lemma SegmentsAfter(log: string, files: seq<File>, k: nat)
    requires DistinctNames(files) && k <= |Segments(log, files)|
    ensures var segs := Segments(log, files);
      var left := Unlink(files, Names(segs[..k]));
      DistinctNames(left) && Segments(log, left) == segs[k..]
  {
    hide IsSegment, Segments, Older, Names;
    OlderIsOrder();
    var segs := Segments(log, files);
    var names := Names(segs[..k]);
    var left := Unlink(files, names);
    FilterPairs(files, NotNamed(names), (a: File, b: File) => a.name != b.name);
    SegmentsSorted(log, files);
    SegmentsSorted(log, left);
    forall f ensures f in Segments(log, left) <==> f in segs[k..] {
      FilterMembers(files, NotNamed(names), f);
      if f in segs {
        var i :| 0 <= i < |segs| && segs[i] == f;
        NamedBefore(log, files, k, i);
        if i >= k { assert segs[k..][i - k] == f; }
      }
      if f in segs[k..] { assert f in segs; }
      assert f in segs[k..] ==> f.name !in names by {
        if f in segs[k..] { var i :| 0 <= i < |segs| - k && segs[k..][i] == f; NamedBefore(log, files, k, k + i); }
      }
    }
    SortedUnique(Segments(log, left), segs[k..], Older);
  }

  lemma NamedBefore(log: string, files: seq<File>, k: nat, i: nat)
    requires DistinctNames(files) && k <= |Segments(log, files)| && i < |Segments(log, files)|
    ensures var segs := Segments(log, files); segs[i].name in Names(segs[..k]) <==> i < k
  {
    hide IsSegment, Older, Segments;
    SegmentsSorted(log, files);
    var segs := Segments(log, files);
    if i < k {
      assert segs[..k][i].name == segs[i].name;
    } else {
      forall j | 0 <= j < k ensures segs[j].name != segs[i].name {
        assert segs[j] in files && segs[i] in files && Older(segs[j], segs[i]);
        OlderIsOrder();
        if segs[j].name == segs[i].name {
          SameNameSameFile(files, segs[j], segs[i]);
        }
      }
    }
  }

  lemma SameNameSameFile(files: seq<File>, a: File, b: File)
    requires DistinctNames(files) && a in files && b in files && a.name == b.name
    ensures a == b
  {
  }

  /** Pruning unlinks the segments before the cut and no other file. */
  lemma SurvivesIff(log: string, files: seq<File>, k: nat, f: File)
    requires DistinctNames(files) && k <= |Segments(log, files)|
    ensures var segs := Segments(log, files);
      f in Unlink(files, Names(segs[..k])) <==> f in files && f !in segs[..k]
  {
    hide IsSegment, Segments, Older;
    SegmentsSorted(log, files);
    var gone := Segments(log, files)[..k];
    FilterMembers(files, NotNamed(Names(gone)), f);
    if f in files && f.name in Names(gone) {
      var i :| 0 <= i < |gone| && gone[i].name == f.name;
      assert gone[i] in Segments(log, files);
      SameNameSameFile(files, gone[i], f);
    }
  }

  /** The cut keeps the longest suffix of unexpired segments that fits the budget, and pruning
      the survivors again removes nothing. */
  lemma CutMeaning(log: string, files: seq<File>, cutoff: int, active: nat, budget: int, k: nat)
    requires DistinctNames(files) && IsCut(Segments(log, files), cutoff, active, budget, k)
    ensures var segs := Segments(log, files);
      && (forall i | k <= i < |segs| :: segs[i].modified >= cutoff)
      && (k < |segs| ==> active + TotalSize(segs[k..]) <= budget)
      && (forall j: nat | j < |segs| && (forall i | j <= i < |segs| :: segs[i].modified >= cutoff) &&
        active + TotalSize(segs[j..]) <= budget :: k <= j)
      && IsCut(segs[k..], cutoff, active, budget, 0)
      && (active > budget ==> k == |segs|)
  {
    hide IsSegment, Segments;
    SegmentsSorted(log, files);
    var segs := Segments(log, files);
    forall i | k <= i < |segs| ensures segs[i].modified >= cutoff {
      assert i > k ==> Older(segs[k], segs[i]);
    }
    forall j: nat | j < |segs| && segs[j].modified >= cutoff && active + TotalSize(segs[j..]) <= budget ensures k <= j {
      assert Retainable(segs, cutoff, active, budget, j);
    }
    if k < |segs| {
      assert segs[k..][0..] == segs[k..];
      assert Retainable(segs, cutoff, active, budget, k);
    }
  }

  lemma {:induction false} ActiveSizeOf(log: string, files: seq<File>)
    requires DistinctNames(files)
    ensures forall f | f in files && f.name == log :: ActiveSize(log, files) == f.size
    ensures (forall f | f in files :: f.name != log) ==> ActiveSize(log, files) == 0
  {
    if files != [] {
      ActiveSizeOf(log, files[1..]);
      assert files == [files[0]] + files[1..];
      assert forall f | f in files[1..] :: f.name != files[0].name;
    }
  }

  /** Pruning again at the same time finds nothing to remove. */
  lemma PruneAgainRemovesNothing(log: string, files: seq<File>, cutoff: int, budget: int, k: nat)
    requires DistinctNames(files) && IsCut(Segments(log, files), cutoff, ActiveSize(log, files), budget, k)
    ensures var left := Unlink(files, Names(Segments(log, files)[..k]));
      IsCut(Segments(log, left), cutoff, ActiveSize(log, left), budget, 0)
  {
    assert k <= |Segments(log, files)|;
    hide Segments, IsCut, ActiveSize, Unlink, Names;
    var segs := Segments(log, files);
    var left := Unlink(files, Names(segs[..k]));
    SegmentsAfter(log, files, k);
    CutMeaning(log, files, cutoff, ActiveSize(log, files), budget, k);
    ActiveSizeOf(log, files);
    ActiveSizeOf(log, left);
    forall f: File | f.name == log ensures f in left <==> f in files {
      ActiveLogKept(log, files, k, f);
    }
    assert ActiveSize(log, left) == ActiveSize(log, files) by {
      if f :| f in files && f.name == log { assert f in left; } else { assert forall f | f in left :: f.name != log; }
    }
  }

  lemma ActiveLogKept(log: string, files: seq<File>, k: nat, f: File)
    requires DistinctNames(files) && k <= |Segments(log, files)| && f.name == log
    ensures f in Unlink(files, Names(Segments(log, files)[..k])) <==> f in files
  {
    hide Segments;
    SegmentsSorted(log, files);
    var segs := Segments(log, files);
    forall i | 0 <= i < |segs[..k]| ensures segs[..k][i].name != log {
      assert segs[i] in segs && IsSegment(log, segs[i]);
    }
    FilterMembers(files, NotNamed(Names(segs[..k])), f);
  }

  class LogFolder {
    var files: seq<File>

    constructor (entries: seq<File>)
      ensures files == entries
    {
      files := entries;
    }

    /** First pass: removes the segments older than the cutoff, which come first. */
    method RemoveExpired(segs: seq<File>, cutoff: int, active: nat)
        returns (expired: nat, retained: seq<File>, bytes: nat)
      requires StrictlySorted(segs, Older)
      modifies this
      ensures expired <= |segs| && retained == segs[expired..] && bytes == active + TotalSize(retained)
      ensures forall j | 0 <= j < |segs| :: segs[j].modified < cutoff <==> j < expired
      ensures files == Unlink(old(files), Names(segs[..expired]))
    {
      hide Unlink, Names;
      UnlinkNone(files);
      expired, retained, bytes := 0, [], active;
      for i := 0 to |segs|
        invariant expired <= i && retained == segs[expired..i]
        invariant forall j | 0 <= j < i :: segs[j].modified < cutoff <==> j < expired
        invariant bytes == active + TotalSize(segs[expired..i])
        invariant files == Unlink(old(files), Names(segs[..expired]))
      {
        if segs[i].modified < cutoff {
          assert expired < i ==> Older(segs[expired], segs[i]);
          UnlinkNext(old(files), segs, i);
          files := Unlink(files, {segs[i].name});
          expired := expired + 1;
        } else {
          SizeStep(segs, expired, i);
          retained := retained + [segs[i]];
          bytes := bytes + segs[i].size;
        }
      }
    }

    /** Second pass: removes the oldest remaining segments until the total fits. */
    method RemoveOversized(retained: seq<File>, total: nat, budget: int, ghost active: nat)
        returns (removed: nat, bytes: nat)
      requires total == active + TotalSize(retained)
      modifies this
      ensures removed <= |retained| && bytes == active + TotalSize(retained[removed..])
      ensures removed < |retained| ==> bytes <= budget
      ensures forall j | 0 <= j < removed :: active + TotalSize(retained[j..]) > budget
      ensures files == Unlink(old(files), Names(retained[..removed]))
    {
      hide Unlink, Names;
      UnlinkNone(files);
      removed, bytes := 0, total;
      assert retained[0..] == retained;
      while removed < |retained| && bytes > budget
        invariant removed <= |retained| && bytes == active + TotalSize(retained[removed..])
        invariant forall j | 0 <= j < removed :: active + TotalSize(retained[j..]) > budget
        invariant files == Unlink(old(files), Names(retained[..removed]))
      {
        assert retained[removed..][1..] == retained[removed + 1..];
        UnlinkNext(old(files), retained, removed);
        files := Unlink(files, {retained[removed].name});
        bytes := bytes - retained[removed].size;
        removed := removed + 1;
      }
    }

    /** Removes a prefix of the chronological segments, up to the cut. */
    method Prune(log: string, cutoff: int, budget: int) returns (r: PruneResult, ghost k: nat)
      requires DistinctNames(files)
      modifies this
      ensures var segs := Segments(log, old(files));
        var active := ActiveSize(log, old(files));
        && IsCut(segs, cutoff, active, budget, k)
        && files == Unlink(old(files), Names(segs[..k]))
        && r.retainedBytes == active + TotalSize(segs[k..])
        && r.removedExpired + r.removedForSize == k
        && (forall i | 0 <= i < |segs| :: segs[i].modified < cutoff <==> i < r.removedExpired)
    {
      hide IsSegment, Segments, Unlink, Names, TotalSize, Older, StrictlySorted, IsCut, DistinctNames, ActiveSize;
      var segs := Segments(log, files);
      SegmentsSorted(log, files);
      var active := ActiveSize(log, files);
      var expired, retained, total := RemoveExpired(segs, cutoff, active);
      var removed, bytes := RemoveOversized(retained, total, budget, active);
      k := expired + removed;
      UnlinkBoth(old(files), segs, expired, removed);
      CutFound(segs, cutoff, active, budget, expired, removed);
      return PruneResult(expired, removed, bytes), k;
    }
  }

  lemma CutFound(segs: seq<File>, cutoff: int, active: nat, budget: int, e: nat, n: nat)
    requires e + n <= |segs| && forall j | 0 <= j < |segs| :: segs[j].modified < cutoff <==> j < e
    requires e + n < |segs| ==> active + TotalSize(segs[e..][n..]) <= budget
    requires forall j | 0 <= j < n :: active + TotalSize(segs[e..][j..]) > budget
    ensures IsCut(segs, cutoff, active, budget, e + n) && segs[e..][n..] == segs[e + n..]
  {
    hide TotalSize;
    assert segs[e..][n..] == segs[e + n..];
    forall j: nat | j < e + n ensures !Retainable(segs, cutoff, active, budget, j) {
      if j >= e { assert segs[e..][j - e..] == segs[j..]; }
    }
  }

  lemma UnlinkBoth(files: seq<File>, segs: seq<File>, e: nat, n: nat)
    requires e + n <= |segs|
    ensures Unlink(Unlink(files, Names(segs[..e])), Names(segs[e..][..n])) == Unlink(files, Names(segs[..e + n]))
  {
    var a, b, c := Names(segs[..e]), Names(segs[e..][..n]), Names(segs[..e + n]);
    assert segs[..e + n] == segs[..e] + segs[e..][..n];
    NamesAppend(segs[..e], segs[e..][..n]);
    FilterTwice(files, NotNamed(a), NotNamed(b), NotNamed(c));
  }

  lemma NamesAppend(a: seq<File>, b: seq<File>)
    ensures Names(a + b) == Names(a) + Names(b)
  {
    var c := a + b;
    assert forall i | 0 <= i < |a| :: c[i] == a[i];
    assert forall i | 0 <= i < |b| :: c[|a| + i] == b[i];
  }

  lemma {:induction false} UnlinkNone(files: seq<File>)
    ensures Unlink(files, Names([])) == files
  {
    if files != [] {
      UnlinkNone(files[..|files| - 1]);
      assert files == files[..|files| - 1] + [files[|files| - 1]];
    }
  }

  lemma UnlinkNext(files: seq<File>, segs: seq<File>, i: nat)
    requires i < |segs|
    ensures Unlink(Unlink(files, Names(segs[..i])), {segs[i].name}) == Unlink(files, Names(segs[..i + 1]))
  {
    NamesAppend(segs[..i], [segs[i]]);
    assert segs[..i + 1] == segs[..i] + [segs[i]];
    assert [segs[i]][0].name in Names([segs[i]]);
    FilterTwice(files, NotNamed(Names(segs[..i])), NotNamed({segs[i].name}), NotNamed(Names(segs[..i + 1])));
  }
}
