/** Vault-relative path texts: how they are accepted, normalized, resolved and written out. */
module VaultText {
  import opened Common
  import opened Text
  import opened VaultTree

  const MAXIMUM_PATH_LENGTH := 1000

  // ---------------------------------------------------------------------------
  // Resolving and rendering

  /** The components of a vault-relative path; repeated separators and single dots are ignored. */
  function Components(s: string): Path
    decreases |s|
  {
    if s == "" then []
    else if s[0] == '/' then Components(s[1..])
    else
      var k := Before(s, '/');
      Kept(s[..k]) + Components(s[k..])
  }

  function Kept(name: string): Path { if name == "." then [] else [name] }

  /** `as_posix()` of a relative path. */
  function Render(p: Path): string {
    if p == [] then "" else if |p| == 1 then p[0] else p[0] + "/" + Render(p[1..])
  }

  lemma NameEndAppend(a: string, b: string)
    ensures Before(a + "/" + b, '/') == Before(a, '/')
  {
    var s := a + "/" + b;
    var k := Before(a, '/');
    assert s[k] == '/';
    assert forall i | 0 <= i < k :: s[i] == a[i];
  }

  lemma {:induction false} ComponentsAppend(a: string, b: string)
    ensures Components(a + "/" + b) == Components(a) + Components(b)
    decreases |a|
  {
    hide Before, Kept;
    var s := a + "/" + b;
    if a == "" {
      assert s[1..] == b;
    } else if a[0] == '/' {
      assert s[1..] == a[1..] + "/" + b;
      ComponentsAppend(a[1..], b);
    } else {
      var k := Before(a, '/');
      NameEndAppend(a, b);
      assert s[..k] == a[..k] && s[k..] == a[k..] + "/" + b;
      ComponentsAppend(a[k..], b);
      assert Components(s) == Kept(a[..k]) + Components(a[k..] + "/" + b);
    }
  }

  /** The text has no two dots in a row; one that has is refused as a traversal. */
  predicate NoDots(s: string) { forall i | 0 <= i < |s| - 1 :: !(s[i] == '.' && s[i + 1] == '.') }

  lemma NoDotsIff(s: string)
    ensures NoDots(s) <==> forall i: nat :: !FoundAt(s, "..", i)
  {
    forall i: nat | i + 2 <= |s| ensures FoundAt(s, "..", i) <==> s[i] == '.' && s[i + 1] == '.' {
      assert s[i..i + 2] == [s[i], s[i + 1]];
    }
    if !NoDots(s) {
      var i :| 0 <= i < |s| - 1 && s[i] == '.' && s[i + 1] == '.';
      assert FoundAt(s, "..", i);
    }
    if i: nat :| FoundAt(s, "..", i) {
      assert s[i] == '.' && s[i + 1] == '.';
    }
  }

  predicate NoBackslash(s: string) { forall i | 0 <= i < |s| :: s[i] != '\\' }

  predicate GoodName(c: string) {
    c != "" && c != "." && NoDots(c) && NoBackslash(c) && forall i | 0 <= i < |c| :: c[i] != '/'
  }

  predicate GoodPath(p: Path) { forall i | 0 <= i < |p| :: GoodName(p[i]) }

  lemma {:induction false} ComponentsGood(s: string)
    requires NoDots(s) && NoBackslash(s)
    ensures GoodPath(Components(s))
    decreases |s|
  {
    hide Before;
    if s != "" {
      var k := if s[0] == '/' then 1 else Before(s, '/');
      assert NoDots(s[k..]) && NoBackslash(s[k..]);
      ComponentsGood(s[k..]);
    }
  }

  /** A text that neither begins nor ends with a separator and has no backslash. */
  predicate Bare(s: string) { s != "" && s[0] != '/' && s[|s| - 1] != '/' && NoBackslash(s) }

  lemma {:induction false} RenderGood(p: Path)
    requires GoodPath(p) && p != []
    ensures Bare(Render(p)) && NoDots(Render(p)) && Components(Render(p)) == p
  {
    hide Components, GoodName, NoDots, NoBackslash, Bare;
    var c := p[0];
    OneComponent(c);
    if |p| > 1 {
      var rest := p[1..];
      RenderGood(rest);
      ComponentsAppend(c, Render(rest));
      JoinedGood(c, Render(rest));
      assert p == [c] + rest && p[|p| - 1] == rest[|rest| - 1];
    } else {
      assert p == [c];
    }
  }

  lemma OneComponent(c: string)
    requires GoodName(c)
    ensures Components(c) == [c] && Bare(c) && NoDots(c)
  {
    assert Before(c, '/') == |c|;
    assert c[..|c|] == c && c[|c|..] == "";
  }

  lemma JoinedGood(a: string, b: string)
    requires Bare(a) && NoDots(a) && Bare(b) && NoDots(b)
    ensures a != "" && b != ""
    ensures var s := a + "/" + b; Bare(s) && NoDots(s) && s[0] == a[0] && s[|s| - 1] == b[|b| - 1]
  {
    var s := a + "/" + b;
    var k := |a|;
    assert forall i | 0 <= i < k :: s[i] == a[i];
    assert s[k] == '/';
    assert forall i | 0 <= i < |b| :: s[k + 1 + i] == b[i];
    forall i | 0 <= i < |s| - 1 ensures !(s[i] == '.' && s[i + 1] == '.') {
      if i > k { assert s[i] == b[i - k - 1] && s[i + 1] == b[i - k]; }
    }
    forall i | 0 <= i < |s| ensures s[i] != '\\' {
      if i > k { assert s[i] == b[i - k - 1]; }
    }
  }

  // ---------------------------------------------------------------------------
  // Normalizing

  function TrimLeft(s: string): string { if s != "" && s[0] == '/' then TrimLeft(s[1..]) else s }

  function TrimRight(s: string): string {
    if s != "" && s[|s| - 1] == '/' then TrimRight(s[..|s| - 1]) else s
  }

  function ToSlashes(s: string): (r: string)
    ensures |r| == |s| && forall i | 0 <= i < |s| :: r[i] == if s[i] == '\\' then '/' else s[i]
  {
    seq(|s|, i requires 0 <= i < |s| => if s[i] == '\\' then '/' else s[i])
  }

  /** `str(path).replace("\\", "/").strip().strip("/")`. */
  function Normalize(s: string): string { TrimRight(TrimLeft(Strip(ToSlashes(s)))) }

  predicate PartAt(s: string, part: string, i: nat) {
    && i + |part| <= |s| && s[i..i + |part|] == part
    && (i == 0 || s[i - 1] == '/') && (i + |part| == |s| || s[i + |part|] == '/')
  }

  /** `part in s.split("/")`. */
  predicate HasPart(s: string, part: string) { exists i: nat | i <= |s| :: PartAt(s, part, i) }

  predicate IsLetter(c: char) { 'a' <= c <= 'z' || 'A' <= c <= 'Z' }

  predicate HasDrive(s: string) { |s| >= 3 && IsLetter(s[0]) && s[1] == ':' && s[2] == '/' }

  /** What makes a stripped path text acceptable. */
  predicate Safe(raw: string) {
    && raw != "" && raw[0] != '/' && raw[0] != '\\' && !HasDrive(ToSlashes(raw))
    && !HasPart(ToSlashes(raw), ".") && !HasPart(ToSlashes(raw), "..")
    && (forall i | 0 <= i < |raw| :: raw[i] >= 32 as char) && |raw| <= MAXIMUM_PATH_LENGTH
  }

  /** The normalized text of a path that a caller supplies, unless it is refused. */
  function Accept(path: string): Option<string> {
    var raw := Strip(path);
    if Safe(raw) then Some(Normalize(raw)) else None
  }

  /** A text that begins or ends with white space. */
  predicate HasEdgeSpace(s: string) { s != "" && (IsSpace(s[0]) || IsSpace(s[|s| - 1])) }

  lemma NormalizeSame(s: string)
    requires Bare(s) && !HasEdgeSpace(s)
    ensures Normalize(s) == s && Strip(s) == s
  {
    hide IsSpace;
    assert ToSlashes(s) == s;
  }

  // ---------------------------------------------------------------------------
  // Normalizing moves a path exactly when it has edge space

  function Spaces(s: string): nat { if s == "" then 0 else (if IsSpace(s[0]) then 1 else 0) + Spaces(s[1..]) }

  function PathSpaces(p: Path): nat { if p == [] then 0 else Spaces(p[0]) + PathSpaces(p[1..]) }

  lemma {:induction false} SpacesAppend(a: string, b: string)
    ensures Spaces(a + b) == Spaces(a) + Spaces(b)
  {
    hide IsSpace;
    if a == "" {
      assert a + b == b;
    } else {
      SpacesAppend(a[1..], b);
      assert (a + b)[1..] == a[1..] + b;
    }
  }

  lemma {:induction false} SpacesOfComponents(s: string)
    ensures PathSpaces(Components(s)) == Spaces(s)
    decreases |s|
  {
    hide Before;
    if s != "" {
      if s[0] == '/' {
        SpacesOfComponents(s[1..]);
      } else {
        var k := Before(s, '/');
        var c, rest := s[..k], s[k..];
        assert s == c + rest;
        SpacesOfComponents(rest);
        SpacesAppend(c, rest);
        if c == "." {
          assert Kept(c) + Components(rest) == Components(rest);
        } else {
          assert ([c] + Components(rest))[1..] == Components(rest);
        }
      }
    }
  }

  lemma {:induction false} StripRightSpaces(s: string)
    ensures Spaces(StripRight(s)) <= Spaces(s)
    ensures s != "" && IsSpace(s[|s| - 1]) ==> Spaces(StripRight(s)) < Spaces(s)
  {
    hide IsSpace;
    if s != "" && IsSpace(s[|s| - 1]) {
      var front, last := s[..|s| - 1], [s[|s| - 1]];
      StripRightSpaces(front);
      assert s == front + last;
      SpacesAppend(front, last);
      assert last[1..] == "";
    }
  }

  lemma {:induction false} StripLeftSpaces(s: string)
    ensures Spaces(StripLeft(s)) <= Spaces(s)
    ensures s != "" && IsSpace(s[0]) ==> Spaces(StripLeft(s)) < Spaces(s)
  {
    hide IsSpace;
    if s != "" && IsSpace(s[0]) { StripLeftSpaces(s[1..]); }
  }

  lemma StripSpaces(s: string)
    ensures Spaces(Strip(s)) <= Spaces(s) && (HasEdgeSpace(s) ==> Spaces(Strip(s)) < Spaces(s))
  {
    hide IsSpace, Spaces, StripLeft, StripRight;
    StripLeftSpaces(s);
    StripRightSpaces(StripLeft(s));
    if s != "" && !IsSpace(s[0]) && IsSpace(s[|s| - 1]) { StripLeftSame(s); }
  }

  lemma StripLeftSame(s: string)
    requires s == "" || !IsSpace(s[0])
    ensures StripLeft(s) == s
  {
  }

  lemma {:induction false} TrimLeftSpaces(s: string)
    ensures Spaces(TrimLeft(s)) <= Spaces(s)
  {
    hide IsSpace;
    if s != "" && s[0] == '/' { TrimLeftSpaces(s[1..]); }
  }

  lemma {:induction false} TrimRightSpaces(s: string)
    ensures Spaces(TrimRight(s)) <= Spaces(s)
  {
    hide IsSpace;
    if s != "" && s[|s| - 1] == '/' {
      var front, last := s[..|s| - 1], [s[|s| - 1]];
      TrimRightSpaces(front);
      assert s == front + last;
      SpacesAppend(front, last);
    }
  }

  lemma {:induction false} ToSlashesSpaces(s: string)
    ensures Spaces(ToSlashes(s)) == Spaces(s)
  {
    if s != "" {
      assert IsSpace(ToSlashes(s)[0]) == IsSpace(s[0]);
      hide IsSpace;
      ToSlashesSpaces(s[1..]);
      assert ToSlashes(s)[1..] == ToSlashes(s[1..]);
    }
  }

  lemma NormalizeSpaces(s: string)
    ensures Spaces(Normalize(s)) <= Spaces(s)
    ensures NoBackslash(s) && HasEdgeSpace(s) ==> Spaces(Normalize(s)) < Spaces(s)
  {
    hide IsSpace, Spaces, Strip, TrimLeft, TrimRight;
    var sl := ToSlashes(s);
    ToSlashesSpaces(s);
    StripSpaces(sl);
    TrimLeftSpaces(Strip(sl));
    TrimRightSpaces(TrimLeft(Strip(sl)));
    if NoBackslash(s) { assert sl == s; }
  }

  /** Normalizing a bare text keeps the path it names exactly when the text has none. */
  lemma NormalizeKeepsPathIff(s: string)
    requires Bare(s)
    ensures Components(Normalize(s)) == Components(s) <==> !HasEdgeSpace(s)
  {
    hide Components, Normalize, Spaces, HasEdgeSpace;
    SpacesOfComponents(s);
    SpacesOfComponents(Normalize(s));
    if HasEdgeSpace(s) { NormalizeSpaces(s); } else { NormalizeSame(s); }
  }

  /** The path to which a destination text is moved: accepted, and normalized once more. */
  function Landing(dst: string): Option<Path> {
    var accepted := Accept(dst);
    if accepted.None? then None else Some(Components(Normalize(accepted.value)))
  }

  lemma LandingHasLessSpace(dst: string)
    requires Bare(dst) && Accept(dst).Some? && HasEdgeSpace(dst)
    ensures PathSpaces(Landing(dst).value) < PathSpaces(Components(dst))
  {
    hide Components, Normalize, Spaces, HasEdgeSpace, Safe, Strip;
    var raw := Strip(dst);
    SpacesOfComponents(dst);
    SpacesOfComponents(Normalize(Normalize(raw)));
    StripSpaces(dst);
    NormalizeSpaces(raw);
    NormalizeSpaces(Normalize(raw));
  }

  lemma {:induction false} PathSpacesPrefix(a: Path, b: Path)
    requires a <= b
    ensures PathSpaces(a) <= PathSpaces(b)
  {
    hide Spaces;
    if a != [] { PathSpacesPrefix(a[1..], b[1..]); }
  }

  /** An accepted destination text names its landing place exactly when it has none. */
  lemma LandingKeepsPathIff(dst: string)
    requires Bare(dst) && Accept(dst).Some?
    ensures Landing(dst) == Some(Components(dst)) <==> !HasEdgeSpace(dst)
  {
    hide Components, Normalize, Spaces, HasEdgeSpace, Safe, Strip;
    if HasEdgeSpace(dst) { LandingHasLessSpace(dst); } else { NormalizeSame(dst); }
  }

  // ---------------------------------------------------------------------------
  // Accepted texts

  lemma {:induction false} TrimRightPrefix(s: string)
    ensures TrimRight(s) <= s && (forall i | |TrimRight(s)| <= i < |s| :: s[i] == '/')
    ensures TrimRight(s) != "" ==> TrimRight(s)[|TrimRight(s)| - 1] != '/'
  {
    if s != "" && s[|s| - 1] == '/' { TrimRightPrefix(s[..|s| - 1]); }
  }

  lemma {:induction false} StripRightEnds(s: string)
    ensures StripRight(s) <= s && (StripRight(s) != "" ==> !IsSpace(StripRight(s)[|StripRight(s)| - 1]))
  {
    hide IsSpace;
    if s != "" && IsSpace(s[|s| - 1]) { StripRightEnds(s[..|s| - 1]); }
  }

  lemma {:induction false} StripLeftEnds(s: string)
    ensures StripLeft(s) != "" ==> !IsSpace(StripLeft(s)[0])
  {
    hide IsSpace;
    if s != "" && IsSpace(s[0]) { StripLeftEnds(s[1..]); }
  }

  lemma StripEnds(s: string)
    ensures !HasEdgeSpace(Strip(s))
  {
    hide IsSpace, StripLeft, StripRight;
    StripLeftEnds(s);
    StripRightEnds(StripLeft(s));
  }

  /** Normalizing a safe text only turns its separators around and drops those at its end. */
  lemma NormalizeSafe(raw: string)
    requires Safe(raw) && !HasEdgeSpace(raw)
    ensures var x := Normalize(raw); var sl := ToSlashes(raw);
      x != "" && x <= sl && Bare(x) && (forall i | |x| <= i < |sl| :: sl[i] == '/')
  {
    hide HasDrive, HasPart;
    var sl := ToSlashes(raw);
    assert !HasEdgeSpace(sl) by { SlashIsNoSpace(raw); }
    StripSame(sl);
    assert TrimLeft(sl) == sl;
    hide IsSpace;
    TrimRightPrefix(sl);
  }

  lemma SlashIsNoSpace(s: string)
    requires !HasEdgeSpace(s)
    ensures !HasEdgeSpace(ToSlashes(s))
  {
  }

  lemma StripSame(s: string)
    requires !HasEdgeSpace(s)
    ensures Strip(s) == s
  {
    hide IsSpace;
  }

  /** An accepted text is bare and does not begin with white space, and it is accepted again as it
      is when it does not end with white space either. */
  lemma AcceptedText(path: string)
    requires Accept(path).Some?
    ensures var x := Accept(path).value;
      && Bare(x) && !IsSpace(x[0]) && Components(x) != []
      && (!HasEdgeSpace(x) ==> Accept(x) == Some(x))
  {
    hide IsSpace, Strip, Components, Normalize, Safe, HasEdgeSpace;
    var raw := Strip(path);
    StripEnds(path);
    NormalizeSafe(raw);
    var x := Normalize(raw);
    FirstOfAccepted(raw, x);
    SafePrefix(raw, x);
    FirstComponent(x);
    if !HasEdgeSpace(x) {
      NormalizeSame(x);
    }
  }

  lemma FirstOfAccepted(raw: string, x: string)
    requires Safe(raw) && !HasEdgeSpace(raw) && x != "" && x <= ToSlashes(raw)
    ensures !IsSpace(x[0])
  {
    hide IsSpace, HasDrive, HasPart;
    assert x[0] == ToSlashes(raw)[0] == raw[0];
  }

  lemma SafePrefix(raw: string, x: string)
    requires Safe(raw) && Bare(x) && x <= ToSlashes(raw)
    requires forall i | |x| <= i < |ToSlashes(raw)| :: ToSlashes(raw)[i] == '/'
    ensures Safe(x)
  {
    var sl := ToSlashes(raw);
    assert ToSlashes(x) == x;
    forall i | 0 <= i < |x| ensures x[i] >= 32 as char && x[i] == sl[i] {
      assert raw[i] >= 32 as char;
    }
    PartOfPrefix(x, sl, ".");
    PartOfPrefix(x, sl, "..");
    hide HasPart;
    assert HasDrive(x) ==> HasDrive(sl);
  }

  lemma PartOfPrefix(x: string, s: string, part: string)
    requires x <= s && (forall i | |x| <= i < |s| :: s[i] == '/')
    ensures HasPart(x, part) ==> HasPart(s, part)
  {
    if i: nat :| i <= |x| && PartAt(x, part, i) {
      assert s[i..i + |part|] == x[i..i + |part|];
      assert i > 0 ==> s[i - 1] == x[i - 1];
      assert PartAt(s, part, i);
    }
  }

  lemma FirstComponent(x: string)
    requires Safe(x) && Bare(x)
    ensures Components(x) != []
  {
    hide HasPart;
    assert ToSlashes(x) == x;
    if x[..Before(x, '/')] == "." { DotPart(x); }
  }

  lemma DotPart(x: string)
    requires x[..Before(x, '/')] == "."
    ensures HasPart(x, ".")
  {
    assert x[0..1] == x[..Before(x, '/')];
    assert PartAt(x, ".", 0);
  }

  // ---------------------------------------------------------------------------
  // What an accepted text names, and which texts are accepted

  lemma {:induction false} ComponentsTrimRight(s: string)
    ensures Components(TrimRight(s)) == Components(s)
  {
    if s != "" && s[|s| - 1] == '/' {
      var front := s[..|s| - 1];
      ComponentsTrimRight(front);
      ComponentsAppend(front, "");
      assert front + "/" + "" == s;
      assert Components(front) + [] == Components(front);
    }
  }

  /** An accepted text names the path of what the caller gave: stripped, with its separators turned. */
  lemma AcceptNames(path: string)
    requires Accept(path).Some?
    ensures Components(Accept(path).value) == Components(ToSlashes(Strip(path)))
  {
    hide Components, IsSpace;
    var raw := Strip(path);
    var sl := ToSlashes(raw);
    assert !HasEdgeSpace(raw) by { StripEnds(path); }
    assert Safe(raw) && sl[0] != '/';
    hide Strip, Safe;
    SlashIsNoSpace(raw);
    StripSame(sl);
    ComponentsTrimRight(sl);
  }

  lemma {:induction false} PartInSplit(s: string, part: string)
    requires '/' !in part
    ensures part in Split(s, '/') <==> HasPart(s, part)
    decreases |s|
  {
    hide Before, HasPart;
    var k := Before(s, '/');
    PartFirst(s, part, k);
    if k < |s| {
      var rest := s[k + 1..];
      PartInSplit(rest, part);
      PartLater(s, part, k);
      var parts := Split(rest, '/');
      assert Split(s, '/') == [s[..k]] + parts;
    }
  }

  lemma PartFirst(s: string, part: string, k: nat)
    requires '/' !in part && k <= |s| && (forall i | 0 <= i < k :: s[i] != '/') && (k < |s| ==> s[k] == '/')
    ensures PartAt(s, part, 0) <==> part == s[..k]
    ensures k == |s| ==> (HasPart(s, part) <==> part == s)
  {
    if PartAt(s, part, 0) {
      assert s[0..|part|] == part;
      assert forall i | 0 <= i < |part| :: s[i] == part[i] && part[i] in part;
    }
    if part == s[..k] {
      assert s[0..|part|] == s[..k];
    }
    if k == |s| {
      assert s[..k] == s;
      assert PartAt(s, s, 0) by { assert s[0..|s|] == s; }
    }
  }

  lemma PartLater(s: string, part: string, k: nat)
    requires '/' !in part && k < |s| && (forall i | 0 <= i < k :: s[i] != '/') && s[k] == '/'
    ensures HasPart(s, part) <==> part == s[..k] || HasPart(s[k + 1..], part)
  {
    var rest := s[k + 1..];
    PartFirst(s, part, k);
    if i: nat :| i <= |s| && PartAt(s, part, i) {
      if i > 0 {
        assert s[i - 1] == '/' && i > k;
        assert rest[i - k - 1..i - k - 1 + |part|] == s[i..i + |part|];
        assert PartAt(rest, part, i - k - 1);
      }
    }
    if i: nat :| i <= |rest| && PartAt(rest, part, i) {
      assert s[i + k + 1..i + k + 1 + |part|] == rest[i..i + |part|];
      assert PartAt(s, part, i + k + 1);
    }
  }

  /** A path text is accepted exactly when, stripped, it is not empty, does not begin with a
      separator or a drive, has no part "." or "..", no control character, and at most 1000
      characters. */
  lemma AcceptIff(path: string)
    ensures var raw := Strip(path);
      var parts := Split(ToSlashes(raw), '/');
      Accept(path).Some? <==>
      && raw != "" && raw[0] !in "/\\" && "." !in parts && ".." !in parts && |raw| <= 1000
      && (forall i | 0 <= i < |raw| :: raw[i] as int >= 32)
      && !(|raw| >= 3 && ('a' <= raw[0] <= 'z' || 'A' <= raw[0] <= 'Z') && raw[1] == ':' && raw[2] in "/\\")
  {
    hide Strip, Normalize, Split, HasPart;
    var raw := Strip(path);
    PartInSplit(ToSlashes(raw), ".");
    PartInSplit(ToSlashes(raw), "..");
  }
}
