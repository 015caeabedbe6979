/** Unpadded base64url (section 5 of RFC 4648), as used for session cookies and log cursors. */
module Base64Url {
  import opened Common

  type Byte = b: nat | b < 256

  function CharOf(v: nat): char
    requires v < 64
  {
    if v < 26 then ('A' as int + v) as char
    else if v < 52 then ('a' as int + (v - 26)) as char
    else if v < 62 then ('0' as int + (v - 52)) as char
    else if v == 62 then '-' else '_'
  }

  function ValueOf(c: char): (r: Option<nat>)
    ensures r.Some? ==> r.value < 64
  {
    if 'A' <= c <= 'Z' then Some(c as int - 'A' as int)
    else if 'a' <= c <= 'z' then Some(c as int - 'a' as int + 26)
    else if '0' <= c <= '9' then Some(c as int - '0' as int + 52)
    else if c == '-' then Some(62) else if c == '_' then Some(63) else None
  }

  /** `urlsafe_b64encode(value).rstrip("=")`. */
  function Encode(b: seq<Byte>): string {
    if b == [] then ""
    else if |b| == 1 then [CharOf(b[0] / 4), CharOf(b[0] % 4 * 16)]
    else if |b| == 2 then [CharOf(b[0] / 4), CharOf(b[0] % 4 * 16 + b[1] / 16), CharOf(b[1] % 16 * 4)]
    else
      [CharOf(b[0] / 4), CharOf(b[0] % 4 * 16 + b[1] / 16), CharOf(b[1] % 16 * 4 + b[2] / 64), CharOf(b[2] % 64)]
      + Encode(b[3..])
  }

  function PaddingFor(n: nat): string {
    match n % 4 case 0 => "" case 1 => "===" case 2 => "==" case _ => "="
  }

  function FirstByte(u: nat, v: nat): Byte
    requires u < 64 && v < 64
  {
    u * 4 + v / 16
  }

  function SecondByte(v: nat, w: nat): Byte
    requires v < 64 && w < 64
  {
    v % 16 * 16 + w / 4
  }

  function ThirdByte(w: nat, x: nat): Byte
    requires w < 64 && x < 64
  {
    w % 4 * 64 + x
  }

  /** `b64decode(..., altchars=b"-_", validate=True)`: padding only in the last group. */
  function StrictDecode(s: string): Option<seq<Byte>> {
    if s == "" then Some([])
    else if |s| < 4 then None
    else
      var u, v, w, x := ValueOf(s[0]), ValueOf(s[1]), ValueOf(s[2]), ValueOf(s[3]);
      if u.None? || v.None? then None
      else if |s| == 4 && s[2] == '=' && s[3] == '=' then Some([FirstByte(u.value, v.value)])
      else if w.None? then None
      else if |s| == 4 && s[3] == '=' then Some([FirstByte(u.value, v.value), SecondByte(v.value, w.value)])
      else if x.None? then None
      else
        match StrictDecode(s[4..])
        case None => None
        case Some(rest) =>
          Some([FirstByte(u.value, v.value), SecondByte(v.value, w.value), ThirdByte(w.value, x.value)] + rest)
  }

  function Decode(s: string): Option<seq<Byte>> {
    StrictDecode(s + PaddingFor(|s|))
  }

  lemma ValueOfChar(v: nat)
    requires v < 64
    ensures ValueOf(CharOf(v)) == Some(v) && CharOf(v) != '=' && CharOf(v) != '.'
  {
  }

  /** The alphabet of RFC 4648, section 5. */
  lemma Alphabet(v: nat)
    requires v < 64
    ensures CharOf(v) as int ==
      if v < 26 then 65 + v else if v < 52 then 71 + v else if v < 62 then v - 4 else if v == 62 then 45 else 95
  {
  }

  /** Three bytes and the four characters of their group are one number, to the bases 256 and 64; a
      last group is filled up with zero bits and leaves out the characters it does not need. */
  lemma GroupMeaning(a: Byte, b: Byte, c: Byte, rest: seq<Byte>) returns (u: nat, v: nat, w: nat, x: nat)
    ensures u < 64 && v < 64 && w < 64 && x < 64
    ensures a * 65_536 + b * 256 + c == u * 262_144 + v * 4096 + w * 64 + x
    ensures Encode([a, b, c] + rest) == [CharOf(u), CharOf(v), CharOf(w), CharOf(x)] + Encode(rest)
    ensures c == 0 ==> Encode([a, b]) == [CharOf(u), CharOf(v), CharOf(w)] && x == 0
    ensures b == c == 0 ==> Encode([a]) == [CharOf(u), CharOf(v)] && w == x == 0
    ensures Encode([]) == ""
  {
    hide CharOf;
    u, v, w, x := a / 4, a % 4 * 16 + b / 16, b % 16 * 4 + c / 64, c % 64;
    assert ([a, b, c] + rest)[3..] == rest;
  }

  lemma Regroup(a: Byte, b: Byte, c: Byte)
    ensures FirstByte(a / 4, a % 4 * 16 + b / 16) == a
    ensures SecondByte(a % 4 * 16 + b / 16, b % 16 * 4 + c / 64) == b
    ensures ThirdByte(b % 16 * 4 + c / 64, c % 64) == c
  {
  }

  lemma DecodeLastOne(a: Byte)
    ensures StrictDecode([CharOf(a / 4), CharOf(a % 4 * 16)] + "==") == Some([a])
  {
    hide CharOf, ValueOf, FirstByte;
    Regroup(a, 0, 0);
    ValueOfChar(a / 4);
    ValueOfChar(a % 4 * 16);
    assert a % 4 * 16 + 0 / 16 == a % 4 * 16;
  }

  lemma DecodeLastTwo(a: Byte, b: Byte)
    ensures StrictDecode([CharOf(a / 4), CharOf(a % 4 * 16 + b / 16), CharOf(b % 16 * 4)] + "=") == Some([a, b])
  {
    hide CharOf, ValueOf, FirstByte, SecondByte;
    Regroup(a, b, 0);
    ValueOfChar(a / 4);
    ValueOfChar(a % 4 * 16 + b / 16);
    ValueOfChar(b % 16 * 4);
    assert b % 16 * 4 + 0 / 64 == b % 16 * 4;
  }

  lemma DecodeGroup(a: Byte, b: Byte, c: Byte, rest: string)
    ensures var s := [CharOf(a / 4), CharOf(a % 4 * 16 + b / 16), CharOf(b % 16 * 4 + c / 64), CharOf(c % 64)] + rest;
      StrictDecode(s) == match StrictDecode(rest) case None => None case Some(tail) => Some([a, b, c] + tail)
  {
    hide CharOf, ValueOf, FirstByte, SecondByte, ThirdByte;
    Regroup(a, b, c);
    ValueOfChar(a / 4);
    ValueOfChar(a % 4 * 16 + b / 16);
    ValueOfChar(b % 16 * 4 + c / 64);
    ValueOfChar(c % 64);
    var s := [CharOf(a / 4), CharOf(a % 4 * 16 + b / 16), CharOf(b % 16 * 4 + c / 64), CharOf(c % 64)] + rest;
    assert s[4..] == rest;
  }

  /** Decoding inverts encoding for every byte string. */
  lemma {:induction false} DecodeEncode(b: seq<Byte>)
    ensures Decode(Encode(b)) == Some(b)
    decreases |b|
  {
    hide CharOf, StrictDecode;
    if |b| >= 3 {
      DecodeEncode(b[3..]);
      DecodeGroup(b[0], b[1], b[2], Encode(b[3..]) + PaddingFor(|Encode(b[3..])|));
      assert b == [b[0], b[1], b[2]] + b[3..];
      PadAfterGroup(
        [CharOf(b[0] / 4), CharOf(b[0] % 4 * 16 + b[1] / 16), CharOf(b[1] % 16 * 4 + b[2] / 64), CharOf(b[2] % 64)],
        Encode(b[3..]));
      hide Encode;
    } else if |b| == 2 {
      DecodeLastTwo(b[0], b[1]);
      assert b == [b[0], b[1]];
    } else if |b| == 1 {
      DecodeLastOne(b[0]);
      assert b == [b[0]];
    } else {
      DecodeNothing(b);
    }
  }

  lemma PadAfterGroup(g: string, rest: string)
    requires |g| == 4
    ensures (g + rest) + PaddingFor(|g + rest|) == g + (rest + PaddingFor(|rest|))
  {
    assert |g + rest| % 4 == |rest| % 4;
  }

  lemma DecodeNothing(b: seq<Byte>)
    requires b == []
    ensures Decode(Encode(b)) == Some(b)
  {
    assert Encode(b) + PaddingFor(0) == "";
  }

  /** Encoded text never contains the segment separator, and has 4 characters per 3 bytes. */
  lemma {:induction false} EncodedText(b: seq<Byte>)
    ensures '.' !in Encode(b) && |Encode(b)| == |b| / 3 * 4 + (if |b| % 3 == 0 then 0 else |b| % 3 + 1)
    decreases |b|
  {
    if |b| >= 3 {
      EncodedText(b[3..]);
      ValueOfChar(b[0] / 4);
      ValueOfChar(b[0] % 4 * 16 + b[1] / 16);
      ValueOfChar(b[1] % 16 * 4 + b[2] / 64);
      ValueOfChar(b[2] % 64);
    }
  }
}
