/** Naming and organizing migration rollback copies.  A directory maps names to contents. */
module Backups {
  import opened Common
  import opened Text
  import opened Sorting

  type Directory = map<string, string>

  const BACKUP_DIRECTORY := "migration_backups"
  const ROOT_BACKUP_FILENAMES := {"secrets.yaml.bak", "settings.yaml.bak"}

  /** The `version`-th variant of a backup name. */
  function Numbered(name: string, version: nat): string {
    name + " (" + Decimal(version) + ")"
  }

  lemma NumberedInjective(name: string, a: nat, b: nat)
    requires Numbered(name, a) == Numbered(name, b)
    ensures a == b
  {
    hide Decimal, NatOf;
    var n := |name| + 2;
    var s, t := Numbered(name, a), Numbered(name, b);
    assert s[n..|s| - 1] == Decimal(a) && t[n..|t| - 1] == Decimal(b);
    DecimalRoundTrip(a);
    DecimalRoundTrip(b);
  }

  function Variants(name: string, upTo: nat): (r: set<string>) {
    set v | 2 <= v < upTo :: Numbered(name, v)
  }

  lemma {:induction false} VariantsSize(name: string, upTo: nat)
    requires upTo >= 2
    ensures |Variants(name, upTo)| == upTo - 2
    decreases upTo
  {
    hide Numbered;
    if upTo > 2 {
      VariantsSize(name, upTo - 1);
      assert Variants(name, upTo) == Variants(name, upTo - 1) + {Numbered(name, upTo - 1)};
      forall v | 2 <= v < upTo - 1 ensures Numbered(name, v) != Numbered(name, upTo - 1) {
        if Numbered(name, v) == Numbered(name, upTo - 1) { NumberedInjective(name, v, upTo - 1); }
      }
    }
  }

  /** Finitely many names cannot occupy every variant. */
  lemma Pigeonhole(name: string, taken: set<string>, upTo: nat)
    requires upTo >= 2 && Variants(name, upTo) <= taken
    ensures upTo - 2 <= |taken|
  {
    VariantsSize(name, upTo);
    SubsetSize(Variants(name, upTo), taken);
  }

  /** The first unused name: the base name, or its smallest unused numbered variant. */
  ghost predicate FirstUnused(taken: set<string>, name: string, r: string) {
    r !in taken &&
    (r == name || (name in taken && exists v: nat | v >= 2 ::
       r == name + " (" + Decimal(v) + ")" && (forall w: nat | 2 <= w < v :: name + " (" + Decimal(w) + ")" in taken)))
  }

  lemma FirstUnusedVariant(taken: set<string>, name: string, v: nat)
    requires v >= 2 && name in taken && Variants(name, v) <= taken && Numbered(name, v) !in taken
    ensures FirstUnused(taken, name, Numbered(name, v))
  {
    hide Decimal;
    assert forall w: nat | 2 <= w < v :: Numbered(name, w) in Variants(name, v);
    assert forall w: nat | 2 <= w < v :: name + " (" + Decimal(w) + ")" in taken by {
      assert forall w: nat :: Numbered(name, w) == name + " (" + Decimal(w) + ")";
    }
  }

  /** The search loop always ends, with an unused name. */
  method NextAvailable(taken: set<string>, name: string) returns (r: string)
    ensures r !in taken && FirstUnused(taken, name, r)
  {
    hide Numbered;
    if name !in taken {
      return name;
    }
    var version := 2;
    Pigeonhole(name, taken, version);
    while true
      invariant version >= 2 && Variants(name, version) <= taken
      decreases |taken| + 3 - version
    {
      Pigeonhole(name, taken, version);
      r := Numbered(name, version);
      if r !in taken {
        FirstUnusedVariant(taken, name, version);
        return;
      }
      assert Variants(name, version + 1) == Variants(name, version) + {r};
      version := version + 1;
      Pigeonhole(name, taken, version);
    }
  }

  // ---------------------------------------------------------------------------
  // Organizing legacy backups

  /** `*.db.backup-*`, or one of the known names. */
  predicate Recognized(name: string) {
    Contains(name, ".db.backup-") || name in ROOT_BACKUP_FILENAMES
  }

  lemma RecognizedIff(name: string)
    ensures Recognized(name) <==>
      name == "secrets.yaml.bak" || name == "settings.yaml.bak" || exists i: nat :: FoundAt(name, ".db.backup-", i)
  {
    hide Contains, FoundAt;
    ContainsMeaning(name, ".db.backup-");
  }

  predicate Distinct(s: seq<string>) {
    forall i, j | 0 <= i < j < |s| :: s[i] != s[j]
  }

  /** What the root's listing of recognized backups yields, in any order, each once. */
  ghost predicate Listing(root: Directory, names: seq<string>) {
    && Distinct(names)
    && forall n :: n in names <==> n in root && Recognized(n)
  }

  lemma LessIsOrder()
    ensures WeakOrder(Less)
  {
    forall a, b | Less(a, b) ensures !Less(b, a) {
      if Less(b, a) { LessTransitive(a, b, a); LessIrreflexive(a); }
    }
    forall a, b, c | Less(a, c) ensures Less(a, b) || Less(b, c) {
      LessTotal(a, b);
      if Less(b, a) { LessTransitive(b, a, c); }
    }
  }

  lemma SortedListing(root: Directory, names: seq<string>)
    requires Listing(root, names)
    ensures Listing(root, Sort(names, Less))
  {
    hide Less, Sort, Recognized;
    LessIsOrder();
    forall i, j | 0 <= i < j < |names| ensures Less(names[i], names[j]) || Less(names[j], names[i]) {
      LessTotal(names[i], names[j]);
    }
    SortStrict(names, Less);
    var s := Sort(names, Less);
    forall i, j | 0 <= i < j < |s| ensures s[i] != s[j] { assert Less(s[i], s[j]); LessIrreflexive(s[i]); }
    forall n ensures n in s <==> n in root && Recognized(n) { SortMembers(names, Less, n); }
  }

  function NameSet(names: seq<string>): set<string> {
    set n | n in names
  }

  /** A directory holding, at each place, what the root had under the name at that position. */
  function Placed(root: Directory, names: seq<string>, places: seq<string>): Directory
    requires |names| == |places| && forall i | 0 <= i < |names| :: names[i] in root
  {
    if names == [] then map[]
    else
      var k := |names| - 1;
      Placed(root, names[..k], places[..k])[places[k] := root[names[k]]]
  }

  /** Every named file has moved from the root to its place, and the places are distinct and
      were unused: nothing is overwritten, lost or changed. */
  ghost predicate Moved(root0: Directory, backups0: Directory, root: Directory, backups: Directory,
      names: seq<string>, places: seq<string>) {
    && |names| == |places| && (forall i | 0 <= i < |names| :: names[i] in root0)
    && Distinct(places) && (forall i | 0 <= i < |places| :: places[i] !in backups0)
    && root == root0 - NameSet(names)
    && backups == backups0 + Placed(root0, names, places)
  }

  /** Each place is the first unused name for its file, given the backups there were and those moved
      before it. */
  ghost predicate PlacedInTurn(taken: set<string>, names: seq<string>, places: seq<string>) {
    && |names| == |places|
    && forall i | 0 <= i < |names| :: FirstUnused(taken + NameSet(places[..i]), names[i], places[i])
  }

  lemma PlacedNext(taken: set<string>, names: seq<string>, places: seq<string>, n: string, place: string)
    requires PlacedInTurn(taken, names, places) && FirstUnused(taken + NameSet(places), n, place)
    ensures PlacedInTurn(taken, names + [n], places + [place])
  {
    hide FirstUnused, NameSet;
    var ns, ps := names + [n], places + [place];
    forall i | 0 <= i < |ns| ensures FirstUnused(taken + NameSet(ps[..i]), ns[i], ps[i]) {
      if i < |names| {
        assert ps[..i] == places[..i] && ns[i] == names[i] && ps[i] == places[i];
      } else {
        assert ps[..i] == places;
      }
    }
  }

  lemma MovedNames(
    root0: Directory, backups0: Directory, root: Directory, backups: Directory, names: seq<string>, places: seq<string>)
    requires Moved(root0, backups0, root, backups, names, places)
    ensures backups.Keys == backups0.Keys + NameSet(places)
  {
    hide Placed, NameSet, Distinct;
    PlacedKeys(root0, names, places);
  }

  lemma MovedNext(root0: Directory, backups0: Directory, root: Directory, backups: Directory, names: seq<string>,
      places: seq<string>, n: string, place: string)
    requires Moved(root0, backups0, root, backups, names, places) && n in root && place !in backups
    ensures Moved(root0, backups0, root - {n}, backups[place := root[n]], names + [n], places + [place])
  {
    hide Placed;
    var ns, ps := names + [n], places + [place];
    var p := Placed(root0, names, places);
    PlacedKeys(root0, names, places);
    PlacedAppend(root0, names, places, n, place);
    assert NameSet(ns) == NameSet(names) + {n};
    assert root - {n} == root0 - NameSet(ns);
    assert forall i | 0 <= i < |places| :: ps[i] == places[i];
    assert backups[place := root[n]] == backups0 + p[place := root0[n]];
  }

  lemma PlacedAppend(root: Directory, names: seq<string>, places: seq<string>, n: string, place: string)
    requires |names| == |places| && n in root && forall i | 0 <= i < |names| :: names[i] in root
    ensures Placed(root, names + [n], places + [place]) == Placed(root, names, places)[place := root[n]]
  {
    assert (names + [n])[..|names|] == names && (places + [place])[..|places|] == places;
  }

  lemma {:induction false} PlacedKeys(root: Directory, names: seq<string>, places: seq<string>)
    requires |names| == |places| && forall i | 0 <= i < |names| :: names[i] in root
    ensures forall i | 0 <= i < |places| :: places[i] in Placed(root, names, places)
    ensures Placed(root, names, places).Keys == NameSet(places)
  {
    if names != [] {
      var k := |names| - 1;
      PlacedKeys(root, names[..k], places[..k]);
      assert places == places[..k] + [places[k]];
    }
  }

  /** What the directory of places holds, position by position. */
  lemma {:induction false} PlacedAt(root: Directory, names: seq<string>, places: seq<string>, i: nat)
    requires |names| == |places| && i < |names| && Distinct(places) && forall j | 0 <= j < |names| :: names[j] in root
    ensures places[i] in Placed(root, names, places) && Placed(root, names, places)[places[i]] == root[names[i]]
  {
    var k := |names| - 1;
    if i < k {
      PlacedAt(root, names[..k], places[..k], i);
    }
  }

  lemma ListingNames(root: Directory, names: seq<string>)
    requires Listing(root, names)
    ensures Distinct(names) && forall i | 0 <= i < |names| :: names[i] in root
    ensures names == [] ==> forall n | n in root :: !Recognized(n)
  {
    hide Recognized;
    assert forall i | 0 <= i < |names| :: names[i] in names;
  }

  lemma MovedNone(root: Directory, backups: Directory)
    ensures Moved(root, backups, root, backups, [], [])
  {
    assert NameSet([]) == {};
  }

  lemma NoneInTurn(taken: set<string>)
    ensures PlacedInTurn(taken, [], [])
  {
  }

  lemma MovedClearsRoot(
    root0: Directory, backups0: Directory, root: Directory, backups: Directory, names: seq<string>, places: seq<string>)
    requires Moved(root0, backups0, root, backups, names, places) && Listing(root0, names)
    ensures forall n | n in root :: !Recognized(n)
  {
    hide Placed, Recognized;
  }

  class SystemRoot {
    var root: Directory
    var backups: Directory

    constructor (r: Directory, b: Directory)
      ensures root == r && backups == b
    {
      root, backups := r, b;
    }

    /** A name in the backup directory that nothing uses; Err when a file stands where the
        directory should be. */
    method PreparePath(filename: string) returns (r: Result<string>)
      ensures r.Err? <==> BACKUP_DIRECTORY in root
      ensures r.Ok? ==> FirstUnused(backups.Keys, filename, r.value)
    {
      if BACKUP_DIRECTORY in root {
        return Err;
      }
      var path := NextAvailable(backups.Keys, filename);
      return Ok(path);
    }

    /** Moves every recognized backup out of the root, in name order, each to the first unused variant
        of its own name. */
    method OrganizeLegacy(listing: seq<string>) returns (count: Result<nat>, ghost places: seq<string>)
      requires Listing(root, listing)
      modifies this
      ensures Organized(old(root), old(backups), listing, root, backups, count, places)
      ensures Contents(root) + Contents(backups) == Contents(old(root)) + Contents(old(backups))
    {
      hide Sort, Less, Recognized, Contents, Moved, Listing, PlacedInTurn, FirstUnused, NameSet;
      places := [];
      SortedListing(root, listing);
      ListingNames(root, Sort(listing, Less));
      MovedNone(root, backups);
      assert PlacedInTurn(backups.Keys, [], []) by { NoneInTurn(backups.Keys); }
      var legacy := Sort(listing, Less);
      if legacy == [] {
        return Ok(0), [];
      }
      if BACKUP_DIRECTORY in root {
        return Err, [];
      }
      assert legacy[..0] == [];
      for i := 0 to |legacy|
        invariant BACKUP_DIRECTORY !in root
        invariant Moved(old(root), old(backups), root, backups, legacy[..i], places)
        invariant PlacedInTurn(old(backups).Keys, legacy[..i], places)
        invariant forall j | i <= j < |legacy| :: legacy[j] in root
      {
        MovedNames(old(root), old(backups), root, backups, legacy[..i], places);
        var path := PreparePath(legacy[i]);
        var destination := path.value;
        assert legacy[..i + 1] == legacy[..i] + [legacy[i]];
        MovedNext(old(root), old(backups), root, backups, legacy[..i], places, legacy[i], destination);
        PlacedNext(old(backups).Keys, legacy[..i], places, legacy[i], destination);
        backups := backups[destination := root[legacy[i]]];
        root := root - {legacy[i]};
        places := places + [destination];
      }
      assert legacy[..|legacy|] == legacy;
      MovedConserves(old(root), old(backups), root, backups, legacy, places);
      MovedClearsRoot(old(root), old(backups), root, backups, legacy, places);
      return Ok(|legacy|), places;
    }
  }

  /** What a call of `OrganizeLegacy` may do to the two directories. */
  ghost predicate Organized(
    root0: Directory, backups0: Directory, listing: seq<string>,
    root: Directory, backups: Directory, count: Result<nat>, places: seq<string>)
  {
    && (count.Err? <==> BACKUP_DIRECTORY in root0 && listing != [])
    && (count.Err? ==> root == root0 && backups == backups0)
    && (count.Ok? ==>
          && count.value == |listing|
          && Moved(root0, backups0, root, backups, Sort(listing, Less), places)
          && PlacedInTurn(backups0.Keys, Sort(listing, Less), places)
          && forall n | n in root :: !Recognized(n))
  }

  lemma ListedIsRecognized(root: Directory, listing: seq<string>)
    requires Listing(root, listing) && listing != []
    ensures exists n | n in root :: Recognized(n)
  {
    hide Recognized;
    assert listing[0] in listing;
  }

  /** A second call, after one that succeeded, moves nothing and returns zero. */
  lemma OrganizeAgain(
    root0: Directory, backups0: Directory, listing: seq<string>,
    root: Directory, backups: Directory, count: Result<nat>, places: seq<string>,
    listing2: seq<string>, root2: Directory, backups2: Directory, count2: Result<nat>, places2: seq<string>)
    requires Organized(root0, backups0, listing, root, backups, count, places) && count.Ok?
    requires Listing(root, listing2)
    requires Organized(root, backups, listing2, root2, backups2, count2, places2)
    ensures count2 == Ok(0) && root2 == root && backups2 == backups
  {
    hide Recognized, Less, Listing;
    if listing2 != [] { ListedIsRecognized(root, listing2); }
    assert Sort(listing2, Less) == [];
    assert places2 == [];
    assert NameSet([]) == {};
  }

  /** The contents of the files of a directory. */
  ghost function Contents(d: Directory): multiset<string> {
    if d == map[] then multiset{}
    else
      var n :| n in d;
      multiset{d[n]} + Contents(d - {n})
  }

  lemma ContentsPick(d: Directory) returns (n: string)
    requires d != map[]
    ensures n in d && Contents(d) == multiset{d[n]} + Contents(d - {n})
  {
    n :| n in d && Contents(d) == multiset{d[n]} + Contents(d - {n});
  }

  /** Whichever file is taken out first. */
  lemma {:induction false} ContentsWithout(d: Directory, n: string)
    requires n in d
    ensures Contents(d) == multiset{d[n]} + Contents(d - {n})
    decreases |d|
  {
    hide Contents;
    var m := ContentsPick(d);
    if m != n {
      SmallerWithout(d, m);
      SmallerWithout(d, n);
      var e, f := d - {m}, d - {n};
      assert e[n] == d[n] && f[m] == d[m];
      ContentsWithout(e, n);
      ContentsWithout(f, m);
      assert e - {n} == f - {m};
    }
  }

  lemma SmallerWithout(d: Directory, n: string)
    requires n in d
    ensures |d - {n}| < |d|
  {
    assert (d - {n}).Keys == d.Keys - {n};
  }

  /** A rename to an unused place keeps the contents of both directories together. */
  lemma RenameConserves(root: Directory, backups: Directory, n: string, place: string)
    requires n in root && place !in backups
    ensures Contents(root - {n}) + Contents(backups[place := root[n]]) == Contents(root) + Contents(backups)
  {
    hide Contents;
    ContentsWithout(root, n);
    var after := backups[place := root[n]];
    ContentsWithout(after, place);
    assert after - {place} == backups;
  }

  /** Every file is in one of the two directories before and after, with the content it had. */
  lemma {:induction false} MovedConserves(
    root0: Directory, backups0: Directory, root: Directory, backups: Directory, names: seq<string>, places: seq<string>)
    requires Moved(root0, backups0, root, backups, names, places) && Distinct(names)
    ensures Contents(root) + Contents(backups) == Contents(root0) + Contents(backups0)
    decreases |names|
  {
    hide Contents, Placed, Moved, NameSet, Distinct;
    if names == [] {
      MovedNothing(root0, backups0, root, backups, places);
    } else {
      var k := |names| - 1;
      MovedLengths(root0, backups0, root, backups, names, places);
      FrontDistinct(names, k);
      assert names == names[..k] + [names[k]] && places == places[..k] + [places[k]];
      var r, b := MovedBefore(root0, backups0, root, backups, names[..k], names[k], places[..k], places[k]);
      MovedConserves(root0, backups0, r, b, names[..k], places[..k]);
      RenameConserves(r, b, names[k], places[k]);
    }
  }

  lemma MovedLengths(
    root0: Directory, backups0: Directory, root: Directory, backups: Directory, names: seq<string>, places: seq<string>)
    requires Moved(root0, backups0, root, backups, names, places)
    ensures |names| == |places|
  {
    hide Placed;
  }

  lemma FrontDistinct(s: seq<string>, k: nat)
    requires Distinct(s) && k <= |s|
    ensures Distinct(s[..k])
  {
  }

  lemma MovedNothing(root0: Directory, backups0: Directory, root: Directory, backups: Directory, places: seq<string>)
    requires Moved(root0, backups0, root, backups, [], places)
    ensures root == root0 && backups == backups0
  {
    assert places == [] && NameSet([]) == {};
  }

  /** The directories before the last move. */
  lemma MovedBefore(
    root0: Directory, backups0: Directory, root: Directory, backups: Directory,
    front: seq<string>, n: string, before: seq<string>, place: string)
    returns (r: Directory, b: Directory)
    requires Moved(root0, backups0, root, backups, front + [n], before + [place]) && Distinct(front + [n])
    ensures Moved(root0, backups0, r, b, front, before) && n in r && place !in b
    ensures root == r - {n} && backups == b[place := r[n]]
  {
    var names, places := front + [n], before + [place];
    assert names[|front|] == n && places[|before|] == place;
    assert forall i | 0 <= i < |front| :: front[i] == names[i] && before[i] == places[i];
    RootBefore(root0, front, n);
    BackupsBefore(root0, backups0, front, before, n, place);
    hide Placed, NameSet;
    r, b := root0 - NameSet(front), backups0 + Placed(root0, front, before);
  }

  lemma RootBefore(root0: Directory, front: seq<string>, n: string)
    requires n in root0 && Distinct(front + [n])
    ensures n in root0 - NameSet(front) && root0 - NameSet(front + [n]) == root0 - NameSet(front) - {n}
  {
    var names := front + [n];
    assert forall i | 0 <= i < |front| :: names[i] == front[i] && names[i] != names[|front|];
    assert NameSet(names) == NameSet(front) + {n};
  }

  lemma BackupsBefore(
    root0: Directory, backups0: Directory, front: seq<string>, before: seq<string>, n: string, place: string)
    requires |front| == |before| && n in root0 && forall i | 0 <= i < |front| :: front[i] in root0
    requires Distinct(before + [place]) && place !in backups0
    ensures var b := backups0 + Placed(root0, front, before);
      place !in b && backups0 + Placed(root0, front + [n], before + [place]) == b[place := root0[n]]
  {
    PlacedKeys(root0, front, before);
    PlacedAppend(root0, front, before, n, place);
    hide Placed;
    var places := before + [place];
    assert forall i | 0 <= i < |before| :: places[i] == before[i] && places[i] != places[|before|];
    PutLast(backups0, Placed(root0, front, before), place, root0[n]);
  }

  lemma PutLast(a: Directory, p: Directory, place: string, content: string)
    ensures a + p[place := content] == (a + p)[place := content]
  {
  }

  // ---------------------------------------------------------------------------
  // Backups taken before migrating

  /** A database file: whether it exists, has pending migrations, and what it holds. */
  datatype Target = Target(dbName: string, fileName: string, present: bool, pending: bool, content: string) {
    predicate NeedsBackup(excluded: set<string>) { dbName !in excluded && present && pending }
  }

  ghost predicate CopyAt(targets: seq<Target>, excluded: set<string>, paths: seq<string>, n: string) {
    exists i | 0 <= i < |paths| && i < |targets| :: targets[i].NeedsBackup(excluded) && paths[i] == n
  }

  /** Each selected target has its own fresh copy, and there is no other new file. */
  ghost predicate BackedUp(targets: seq<Target>, excluded: set<string>, before: Directory, after: Directory,
      paths: seq<string>) {
    && |paths| == |targets| && (forall n | n in before :: n in after && after[n] == before[n])
    && (forall n | n in after && n !in before :: CopyAt(targets, excluded, paths, n))
    && forall i | 0 <= i < |targets| && targets[i].NeedsBackup(excluded) ::
         paths[i] !in before && paths[i] in after && after[paths[i]] == targets[i].content
         && forall j | 0 <= j < i && targets[j].NeedsBackup(excluded) :: paths[j] != paths[i]
  }

  lemma BackedUpNext(targets: seq<Target>, excluded: set<string>, before: Directory, after: Directory,
      paths: seq<string>, t: Target, path: string)
    requires BackedUp(targets, excluded, before, after, paths) && (t.NeedsBackup(excluded) ==> path !in after)
    ensures var next := if t.NeedsBackup(excluded) then after[path := t.content] else after;
      BackedUp(targets + [t], excluded, before, next, paths + [path])
  {
    var next := if t.NeedsBackup(excluded) then after[path := t.content] else after;
    var ts, ps := targets + [t], paths + [path];
    assert forall i | 0 <= i < |paths| :: ts[i] == targets[i] && ps[i] == paths[i];
    assert ts[|paths|] == t && ps[|paths|] == path;
    forall n | n in next && n !in before ensures CopyAt(ts, excluded, ps, n) {
      if n in after {
        assert CopyAt(targets, excluded, paths, n);
        var i :| 0 <= i < |paths| && i < |targets| && targets[i].NeedsBackup(excluded) && paths[i] == n;
        assert ts[i].NeedsBackup(excluded) && ps[i] == n;
      } else {
        assert ts[|paths|].NeedsBackup(excluded) && ps[|paths|] == n;
      }
    }
  }

  /** The names of the copies made for these targets. */
  function CopiedAs(targets: seq<Target>, excluded: set<string>, paths: seq<string>): (r: set<string>)
    requires |paths| == |targets|
    ensures forall n :: n in r <==> CopyAt(targets, excluded, paths, n)
  {
    set i | 0 <= i < |targets| && targets[i].NeedsBackup(excluded) :: paths[i]
  }

  /** Each copy is named after its database file and the time stamp: the first unused variant of that
      name, given the files there were and the copies made before it. */
  ghost predicate CopyNames(
    targets: seq<Target>, excluded: set<string>, stamp: string, taken: set<string>, paths: seq<string>)
  {
    && |paths| == |targets|
    && forall i | 0 <= i < |targets| && targets[i].NeedsBackup(excluded) ::
         FirstUnused(
           taken + CopiedAs(targets[..i], excluded, paths[..i]), targets[i].fileName + ".backup-" + stamp, paths[i])
  }

  lemma CopyNamesNext(targets: seq<Target>, excluded: set<string>, stamp: string, before: Directory,
      after: Directory, paths: seq<string>, t: Target, path: string)
    requires BackedUp(targets, excluded, before, after, paths)
    requires CopyNames(targets, excluded, stamp, before.Keys, paths)
    requires t.NeedsBackup(excluded) ==> FirstUnused(after.Keys, t.fileName + ".backup-" + stamp, path)
    ensures CopyNames(targets + [t], excluded, stamp, before.Keys, paths + [path])
  {
    hide FirstUnused, CopiedAs;
    var ts, ps := targets + [t], paths + [path];
    assert after.Keys == before.Keys + CopiedAs(targets, excluded, paths) by {
      CopiedKeys(targets, excluded, before, after, paths);
    }
    forall i | 0 <= i < |ts| && ts[i].NeedsBackup(excluded)
      ensures FirstUnused(
        before.Keys + CopiedAs(ts[..i], excluded, ps[..i]), ts[i].fileName + ".backup-" + stamp, ps[i])
    {
      if i < |targets| {
        assert ts[..i] == targets[..i] && ps[..i] == paths[..i] && ts[i] == targets[i] && ps[i] == paths[i];
      } else {
        assert ts[..i] == targets && ps[..i] == paths && ts[i] == t && ps[i] == path;
      }
    }
  }

  lemma CopiedKeys(targets: seq<Target>, excluded: set<string>, before: Directory, after: Directory, paths: seq<string>)
    requires BackedUp(targets, excluded, before, after, paths)
    ensures after.Keys == before.Keys + CopiedAs(targets, excluded, paths)
  {
    forall n ensures n in after <==> n in before || n in CopiedAs(targets, excluded, paths) {
      if n in after && n !in before { assert CopyAt(targets, excluded, paths, n); }
      if CopyAt(targets, excluded, paths, n) {
        var i :| 0 <= i < |paths| && targets[i].NeedsBackup(excluded) && paths[i] == n;
      }
    }
  }

  class BackupFolder {
    var files: Directory

    constructor (f: Directory)
      ensures files == f
    {
      files := f;
    }

    /** Copies every selected database before migrations run.  `blocked` says that a file stands
        where the directory should be, which stops the first copy; `sound` is the integrity check of
        a copy; a failing copy is deleted and the run stops, keeping the copies made so far. */
    method BackupPending(
      targets: seq<Target>, excluded: set<string>, stamp: string, sound: string -> bool, blocked: bool)
      returns (ok: bool, paths: seq<string>)
      modifies this
      ensures |paths| <= |targets| && BackedUp(targets[..|paths|], excluded, old(files), files, paths)
      ensures ok ==> |paths| == |targets|
      ensures !ok ==> |paths| < |targets| && targets[|paths|].NeedsBackup(excluded)
      ensures !ok ==> blocked || !sound(targets[|paths|].content)
      ensures blocked ==> forall i | 0 <= i < |paths| :: !targets[i].NeedsBackup(excluded)
      ensures forall i | 0 <= i < |paths| && targets[i].NeedsBackup(excluded) :: sound(targets[i].content)
      ensures CopyNames(targets[..|paths|], excluded, stamp, old(files).Keys, paths)
    {
      hide BackedUp, CopyNames, FirstUnused;
      paths := [];
      assert BackedUp(targets[..0], excluded, files, files, []) &&
        CopyNames(targets[..0], excluded, stamp, files.Keys, []) by { BackedUpNone(targets, excluded, files, stamp); }
      for i := 0 to |targets|
        invariant |paths| == i && BackedUp(targets[..i], excluded, old(files), files, paths)
        invariant CopyNames(targets[..i], excluded, stamp, old(files).Keys, paths)
        invariant forall j | 0 <= j < i && targets[j].NeedsBackup(excluded) :: sound(targets[j].content)
        invariant blocked ==> forall j | 0 <= j < i :: !targets[j].NeedsBackup(excluded)
      {
        var t := targets[i];
        assert targets[..i + 1] == targets[..i] + [t];
        if !t.NeedsBackup(excluded) {
          BackedUpNext(targets[..i], excluded, old(files), files, paths, t, "");
          CopyNamesNext(targets[..i], excluded, stamp, old(files), files, paths, t, "");
          paths := paths + [""];
        } else if blocked {
          return false, paths;
        } else {
          var path := NextAvailable(files.Keys, t.fileName + ".backup-" + stamp);
          BackedUpNext(targets[..i], excluded, old(files), files, paths, t, path);
          CopyNamesNext(targets[..i], excluded, stamp, old(files), files, paths, t, path);
          var before := files;
          files := files[path := t.content];
          if !sound(t.content) {
            files := files - {path};
            assert files == before;
            return false, paths;
          }
          paths := paths + [path];
        }
      }
      assert targets[..|targets|] == targets;
      return true, paths;
    }
  }

  lemma BackedUpNone(targets: seq<Target>, excluded: set<string>, files: Directory, stamp: string)
    ensures BackedUp(targets[..0], excluded, files, files, [])
    ensures CopyNames(targets[..0], excluded, stamp, files.Keys, [])
  {
  }
}
