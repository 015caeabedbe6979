/** Stateless owner browser sessions: issue, verify, and the CSRF proof.

    Times are microseconds since the Unix epoch.  The keyed signature and the digest are
    functions of unknown behaviour with 32-byte results. */
module Session {
  import opened Common
  import opened Text
  import opened Base64Url
  import opened Json

  datatype Crypto = Crypto(sign: (seq<Byte>, string) -> seq<Byte>, digest: string -> seq<Byte>) {
    ghost predicate Valid() {
      (forall k, s :: |sign(k, s)| == 32) && forall s :: |digest(s)| == 32
    }
  }

  const SECOND := 1_000_000
  const MAXIMUM_TOKEN_BYTES := 4096
  const DIGEST_BYTES := 32

  /** Whole seconds that `fromtimestamp` can represent (years 1 to 9999). */
  const FIRST_SECOND: int := -62_135_596_800
  const LAST_SECOND: int := 253_402_300_799

  predicate Representable(t: int) { FIRST_SECOND * SECOND <= t < (LAST_SECOND + 1) * SECOND }

  /** `int(timestamp)`: truncation toward zero. */
  function WholeSeconds(t: int): int { if t >= 0 then t / SECOND else -((-t) / SECOND) }

  datatype Issued = Issued(cookie: string, csrfToken: string, expiresAt: int)

  datatype Verified = Verified(issuedAt: int, expiresAt: int, csrfDigest: seq<Byte>)

  // ---------------------------------------------------------------------------
  // Hexadecimal

  function HexDigit(d: nat): char
    requires d < 16
  {
    if d < 10 then ('0' as int + d) as char else ('a' as int + (d - 10)) as char
  }

  function HexValue(c: char): (r: Option<nat>)
    ensures r.Some? ==> r.value < 16
  {
    if '0' <= c <= '9' then Some(c as int - '0' as int)
    else if 'a' <= c <= 'f' then Some(c as int - 'a' as int + 10)
    else if 'A' <= c <= 'F' then Some(c as int - 'A' as int + 10) else None
  }

  function Hex(b: seq<Byte>): (s: string)
    ensures |s| == 2 * |b|
  {
    if b == [] then "" else [HexDigit(b[0] / 16), HexDigit(b[0] % 16)] + Hex(b[1..])
  }

  function FromHex(s: string): Option<seq<Byte>> {
    if s == "" then Some([])
    else if |s| == 1 || HexValue(s[0]).None? || HexValue(s[1]).None? then None
    else
      match FromHex(s[2..])
      case None => None
      case Some(rest) => Some([HexValue(s[0]).value * 16 + HexValue(s[1]).value] + rest)
  }

  lemma HexDigitRoundTrip(d: nat)
    requires d < 16
    ensures HexValue(HexDigit(d)) == Some(d) && Plain([HexDigit(d)])
  {
  }

  lemma {:induction false} HexRoundTrip(b: seq<Byte>)
    ensures FromHex(Hex(b)) == Some(b) && Plain(Hex(b))
  {
    hide HexValue, HexDigit, Plain;
    HexPlain(b);
    if b != [] {
      var front := [HexDigit(b[0] / 16), HexDigit(b[0] % 16)];
      HexRoundTrip(b[1..]);
      HexDigitRoundTrip(b[0] / 16);
      HexDigitRoundTrip(b[0] % 16);
      assert Hex(b)[0] == front[0] && Hex(b)[1] == front[1] && Hex(b)[2..] == Hex(b[1..]);
      assert b[0] / 16 * 16 + b[0] % 16 == b[0] && b == [b[0]] + b[1..];
    }
  }

  lemma {:induction false} HexPlain(b: seq<Byte>)
    ensures Plain(Hex(b))
  {
    if b != [] {
      HexPlain(b[1..]);
      hide HexDigit, PlainChar;
      HexDigitRoundTrip(b[0] / 16);
      HexDigitRoundTrip(b[0] % 16);
      assert PlainChar([HexDigit(b[0] / 16)][0]) && PlainChar([HexDigit(b[0] % 16)][0]);
    }
  }

  lemma HexDigitIs(d: nat)
    requires d < 16
    ensures HexDigit(d) == "0123456789abcdef"[d]
  {
  }

  /** Two lower-case digits a byte, the higher one first. */
  lemma {:induction false} HexMeaning(b: seq<Byte>, i: nat)
    requires i < |b|
    ensures Hex(b)[2 * i] == "0123456789abcdef"[b[i] / 16] && Hex(b)[2 * i + 1] == "0123456789abcdef"[b[i] % 16]
  {
    hide HexDigit;
    HexDigitIs(b[i] / 16);
    HexDigitIs(b[i] % 16);
    if i > 0 {
      HexMeaning(b[1..], i - 1);
      assert Hex(b)[2..] == Hex(b[1..]);
      assert Hex(b)[2 * i] == Hex(b[1..])[2 * (i - 1)] && Hex(b)[2 * i + 1] == Hex(b[1..])[2 * (i - 1) + 1];
    }
  }

  // ---------------------------------------------------------------------------
  // Issue

  /** The claims in the order `sort_keys` writes them. */
  function Payload(digest: seq<Byte>, iat: int, exp: int, nonce: string): (xs: seq<Item>)
    ensures |xs| == 5
  {
    [Item(Some("csrf"), Str(Hex(digest))), Item(Some("exp"), Num(exp)), Item(Some("iat"), Num(iat)),
     Item(Some("nonce"), Str(nonce)), Item(Some("v"), Num(1))]
  }

  function PayloadText(digest: seq<Byte>, iat: int, exp: int, nonce: string): string {
    "{" + PrintItems(Payload(digest, iat, exp, nonce), '}')
  }

  /** The text that is encoded and signed. */
  lemma PayloadIs(digest: seq<Byte>, iat: int, exp: int, nonce: string)
    ensures PayloadText(digest, iat, exp, nonce) ==
      "{" + (JoinWith(
        ["\"csrf\":\"" + Hex(digest) + "\"", "\"exp\":" + PrintInt(exp), "\"iat\":" + PrintInt(iat),
         "\"nonce\":\"" + nonce + "\"", "\"v\":1"], ',') + "}")
  {
    hide Hex, PrintItems, JoinWith;
    var xs := Payload(digest, iat, exp, nonce);
    PrintedText(xs, '}');
    PrintedItem("csrf", Hex(digest), 0);
    PrintedItem("exp", "", exp);
    PrintedItem("iat", "", iat);
    PrintedItem("nonce", nonce, 0);
    PrintedItem("v", "", 1);
    assert PrintInt(1) == "1";
    hide PrintInt, PrintItem;
    assert "\"" + "csrf" + "\":\"" == "\"csrf\":\"" && "\"" + "nonce" + "\":\"" == "\"nonce\":\"";
    assert "\"" + "exp" + "\":" == "\"exp\":" && "\"" + "iat" + "\":" == "\"iat\":";
    assert "\"" + "v" + "\":" + "1" == "\"v\":1";
    Texts5(xs);
  }

  lemma Texts5(xs: seq<Item>)
    requires |xs| == 5
    ensures ItemTexts(xs) ==
      [PrintItem(xs[0]), PrintItem(xs[1]), PrintItem(xs[2]), PrintItem(xs[3]), PrintItem(xs[4])]
  {
    hide PrintItem;
  }

  lemma PayloadPlain(digest: seq<Byte>, iat: int, exp: int, nonce: string)
    requires Plain(nonce)
    ensures PlainItems(Payload(digest, iat, exp, nonce), true) && IsAscii(PayloadText(digest, iat, exp, nonce))
  {
    hide Hex, PrintItems;
    HexRoundTrip(digest);
    var xs := Payload(digest, iat, exp, nonce);
    assert Plain("csrf") && Plain("exp") && Plain("iat") && Plain("nonce") && Plain("v");
    ItemsAreAscii(xs, true, '}');
  }

  /** Err when the expiry leaves the calendar. */
  function Issue(crypto: Crypto, key: seq<Byte>, lifetime: int, now: int, token: string, nonce: string): Result<Issued>
    requires Plain(nonce)
  {
    if !Representable(now + lifetime) then Err
    else
      var digest, iat, exp := crypto.digest(token), WholeSeconds(now), WholeSeconds(now + lifetime);
      PayloadPlain(digest, iat, exp, nonce);
      var payload := Encode(Bytes(PayloadText(digest, iat, exp, nonce)));
      Ok(Issued(payload + "." + Encode(crypto.sign(key, payload)), token, now + lifetime))
  }

  // ---------------------------------------------------------------------------
  // Verify

  function Utf8Length(s: string): nat {
    if s == "" then 0
    else
      var c := s[|s| - 1] as int;
      Utf8Length(s[..|s| - 1]) + if c < 0x80 then 1 else if c < 0x800 then 2 else if c < 0x1_0000 then 3 else 4
  }

  /** The two segments of a cookie, when it has exactly two and neither is empty. */
  function Segments(cookie: string): Option<(string, string)> {
    var k := Before(cookie, '.');
    if 0 < k < |cookie| - 1 && '.' !in cookie[k + 1..] then Some((cookie[..k], cookie[k + 1..])) else None
  }

  function ToMap(xs: seq<Item>): map<string, Value>
    requires forall i | 0 <= i < |xs| :: xs[i].key.Some?
  {
    if xs == [] then map[] else ToMap(xs[..|xs| - 1])[xs[|xs| - 1].key.value := xs[|xs| - 1].value]
  }

  function DecodePayload(segment: string): Option<map<string, Value>> {
    match Decode(segment)
    case None => None
    case Some(bytes) =>
      match TextOf(bytes)
      case None => None
      case Some(text) =>
        if text == "" || text[0] != '{' then None
        else
          match ReadItems(text[1..], true, '}')
          case None => None
          case Some(xs) => if forall i | 0 <= i < |xs| :: xs[i].key.Some? then Some(ToMap(xs)) else None
  }

  function ValidateClaims(m: map<string, Value>): Option<Verified> {
    if m.Keys != {"v", "iat", "exp", "csrf", "nonce"} || m["v"] != Num(1) then None
    else if !m["iat"].Num? || !m["exp"].Num? || !m["csrf"].Str? || !m["nonce"].Str? || m["nonce"].text == "" then None
    else
      var iat, exp, digest := m["iat"].number, m["exp"].number, FromHex(m["csrf"].text);
      if !(FIRST_SECOND <= iat <= LAST_SECOND) || !(FIRST_SECOND <= exp <= LAST_SECOND) || digest.None? then None
      else if exp <= iat || |digest.value| != DIGEST_BYTES then None
      else Some(Verified(iat * SECOND, exp * SECOND, digest.value))
  }

  function Verify(crypto: Crypto, key: seq<Byte>, cookie: Option<string>, now: int): Result<Verified> {
    if cookie.None? || cookie.value == "" || Utf8Length(cookie.value) > MAXIMUM_TOKEN_BYTES then Err
    else
      match Segments(cookie.value)
      case None => Err
      case Some((payload, signature)) =>
        if Decode(signature).None? || !IsAscii(payload) then Err
        else if Decode(signature).value != crypto.sign(key, payload) then Err
        else
          match DecodePayload(payload)
          case None => Err
          case Some(m) =>
            match ValidateClaims(m)
            case None => Err
            case Some(v) => if v.issuedAt > now || v.expiresAt <= now then Err else Ok(v)
  }

  predicate VerifyCsrf(crypto: Crypto, session: Verified, token: Option<string>) {
    token.Some? && session.csrfDigest == crypto.digest(token.value)
  }

  // ---------------------------------------------------------------------------
  // What verification means

  lemma {:induction false} AsciiLength(s: string)
    requires IsAscii(s)
    ensures Utf8Length(s) == |s|
  {
    if s != "" { AsciiLength(s[..|s| - 1]); }
  }

  lemma SplitCookie(p: string, q: string)
    requires p != "" && q != "" && '.' !in p && '.' !in q
    ensures Segments(p + "." + q) == Some((p, q))
  {
    var s := p + "." + q;
    BeforeAt(p, '.', q);
    assert s[..|p|] == p && s[|p| + 1..] == q;
  }

  /** The claims read back from an issued payload are the claims written. */
  lemma PayloadRoundTrip(digest: seq<Byte>, iat: int, exp: int, nonce: string)
    requires Plain(nonce)
    ensures IsAscii(PayloadText(digest, iat, exp, nonce))
    ensures DecodePayload(Encode(Bytes(PayloadText(digest, iat, exp, nonce)))) ==
            Some(map["csrf" := Str(Hex(digest)), "exp" := Num(exp), "iat" := Num(iat), "nonce" := Str(nonce),
              "v" := Num(1)])
  {
    hide Encode, Decode, Bytes, TextOf, PrintItems, ReadItems, Hex;
    PayloadPlain(digest, iat, exp, nonce);
    var xs := Payload(digest, iat, exp, nonce);
    var text := PayloadText(digest, iat, exp, nonce);
    DecodeEncode(Bytes(text));
    TextRoundTrip(text);
    ReadPrintedItems(xs, true, '}');
    assert text[1..] == PrintItems(xs, '}');
    PayloadMap(xs);
  }

  lemma PayloadMap(xs: seq<Item>)
    requires |xs| == 5 && forall i | 0 <= i < 5 :: xs[i].key.Some?
    ensures ToMap(xs) ==
            map[xs[0].key.value := xs[0].value]
               [xs[1].key.value := xs[1].value]
               [xs[2].key.value := xs[2].value]
               [xs[3].key.value := xs[3].value]
               [xs[4].key.value := xs[4].value]
  {
    assert xs[..4][..3] == xs[..3] && xs[..3][..2] == xs[..2] && xs[..2][..1] == xs[..1] && xs[..1][..0] == [];
    assert ToMap(xs[..1]) == map[xs[0].key.value := xs[0].value];
    assert ToMap(xs[..2]) == ToMap(xs[..1])[xs[1].key.value := xs[1].value];
    assert ToMap(xs[..3]) == ToMap(xs[..2])[xs[2].key.value := xs[2].value];
    assert ToMap(xs[..4]) == ToMap(xs[..3])[xs[3].key.value := xs[3].value];
  }

  lemma {:induction false} DecimalLength(n: nat, w: nat)
    requires n < Power10(w) && w >= 1
    ensures |Decimal(n)| <= w
  {
    if n >= 10 { DecimalLength(n / 10, w - 1); }
  }

  lemma SecondsLength(n: int)
    requires FIRST_SECOND <= n <= LAST_SECOND
    ensures |PrintInt(n)| <= 13
  {
    assert Power10(12) == 1_000_000_000_000 by {
      assert Power10(4) == 10_000 by { assert Power10(2) == 100; }
      assert Power10(8) == 100_000_000 by { assert Power10(6) == 1_000_000; }
      assert Power10(10) == 10_000_000_000;
    }
    DecimalLength(if n < 0 then -n else n, 12);
  }

  /** An issued payload stays far below the size limit. */
  lemma PayloadLength(digest: seq<Byte>, iat: int, exp: int, nonce: string)
    requires |digest| == 32 && |nonce| <= 64
    requires FIRST_SECOND <= iat <= LAST_SECOND && FIRST_SECOND <= exp <= LAST_SECOND
    ensures |PayloadText(digest, iat, exp, nonce)| <= 300
  {
    hide Hex, Decimal;
    SecondsLength(iat);
    SecondsLength(exp);
    var xs := Payload(digest, iat, exp, nonce);
    assert |PrintItem(xs[4])| <= 17 by { SecondsLength(1); }
    assert |PrintItem(xs[0])| <= 75 && |PrintItem(xs[1])| <= 19 && |PrintItem(xs[2])| <= 19 && |PrintItem(xs[3])| <= 74;
    ItemsLength(xs);
  }

  lemma ItemsLength(xs: seq<Item>)
    requires |xs| == 5
    ensures |PrintItems(xs, '}')| ==
            |PrintItem(xs[0])| + |PrintItem(xs[1])| + |PrintItem(xs[2])| + |PrintItem(xs[3])| + |PrintItem(xs[4])| + 5
  {
    hide PrintItem;
    assert xs[1..][1..] == xs[2..] && xs[2..][1..] == xs[3..] && xs[3..][1..] == xs[4..];
    assert |PrintItems(xs[4..], '}')| == |PrintItem(xs[4])| + 1;
    assert |PrintItems(xs[3..], '}')| == |PrintItem(xs[3])| + 1 + |PrintItems(xs[4..], '}')|;
    assert |PrintItems(xs[2..], '}')| == |PrintItem(xs[2])| + 1 + |PrintItems(xs[3..], '}')|;
    assert |PrintItems(xs[1..], '}')| == |PrintItem(xs[1])| + 1 + |PrintItems(xs[2..], '}')|;
  }

  /** An issued cookie has a size, a shape and a signature that verification accepts. */
  lemma IssuedCookieShape(crypto: Crypto, key: seq<Byte>, text: string)
    requires crypto.Valid() && IsAscii(text) && 0 < |text| <= 300
    ensures var payload := Encode(Bytes(text));
      var signature := Encode(crypto.sign(key, payload));
      var cookie := payload + "." + signature;
      && cookie != "" && Utf8Length(cookie) <= MAXIMUM_TOKEN_BYTES && Segments(cookie) == Some((payload, signature))
      && IsAscii(payload) && Decode(signature) == Some(crypto.sign(key, payload))
  {
    hide Encode, Decode, Segments, Utf8Length;
    var payload := Encode(Bytes(text));
    var signature := Encode(crypto.sign(key, payload));
    EncodedText(Bytes(text));
    EncodedText(crypto.sign(key, payload));
    EncodedAscii(Bytes(text));
    EncodedAscii(crypto.sign(key, payload));
    DecodeEncode(crypto.sign(key, payload));
    SplitCookie(payload, signature);
    AsciiLength(payload + "." + signature);
  }

  lemma {:induction false} EncodedAscii(b: seq<Byte>)
    ensures IsAscii(Encode(b))
    decreases |b|
  {
    if |b| >= 3 { EncodedAscii(b[3..]); }
  }

  /** A cookie verifies under its key exactly from its whole second of issue until its whole
      second of expiry, and then the issued CSRF token, and a token is accepted exactly when
      it has that token's digest. */
  lemma VerifiesExactlyWithinLifetime(crypto: Crypto, key: seq<Byte>, lifetime: int, issued: int, token: string,
      nonce: string, now: int)
    requires crypto.Valid() && Plain(nonce) && 0 < |nonce| <= 64 && Representable(issued)
    requires Issue(crypto, key, lifetime, issued, token, nonce).Ok?
    ensures var given := Issue(crypto, key, lifetime, issued, token, nonce).value;
      var r := Verify(crypto, key, Some(given.cookie), now);
      && given.csrfToken == token && given.expiresAt == issued + lifetime
      && (r.Ok? <==> WholeSeconds(issued) * 1_000_000 <= now < WholeSeconds(issued + lifetime) * 1_000_000)
      && (r.Ok? ==> VerifyCsrf(crypto, r.value, Some(given.csrfToken)))
      && (r.Ok? ==> forall t :: VerifyCsrf(crypto, r.value, t) <==>
        t.Some? && crypto.digest(t.value) == crypto.digest(given.csrfToken))
  {
    hide Encode, Decode, Segments, Utf8Length, DecodePayload, PrintItems, Hex, FromHex;
    var digest, iat, exp := crypto.digest(token), WholeSeconds(issued), WholeSeconds(issued + lifetime);
    var text := PayloadText(digest, iat, exp, nonce);
    PayloadRoundTrip(digest, iat, exp, nonce);
    PayloadLength(digest, iat, exp, nonce);
    IssuedCookieShape(crypto, key, text);
    HexRoundTrip(digest);
    var m := DecodePayload(Encode(Bytes(text))).value;
    assert m.Keys == {"v", "iat", "exp", "csrf", "nonce"};
  }

  /** A session is issued exactly when its expiry is a date-time of the years 1 to 9999. */
  lemma IssuedIff(crypto: Crypto, key: seq<Byte>, lifetime: int, issued: int, token: string, nonce: string)
    requires Plain(nonce)
    ensures Issue(crypto, key, lifetime, issued, token, nonce).Ok? <==>
            -62_135_596_800_000_000 <= issued + lifetime < 253_402_300_800_000_000
  {
    hide PayloadText, Encode;
  }

  /** Whole seconds are nearer to the epoch by less than a second, on its own side. */
  lemma WholeSecondsMeaning(t: int)
    ensures t >= 0 ==> WholeSeconds(t) * 1_000_000 <= t < WholeSeconds(t) * 1_000_000 + 1_000_000
    ensures t <= 0 ==> WholeSeconds(t) * 1_000_000 - 1_000_000 < t <= WholeSeconds(t) * 1_000_000
  {
  }

  /** What a cookie has to be to verify: two segments of at most 4096 bytes in all, the second the
      signature of the first, which decodes to exactly the five claims, with version 1, a lifetime
      that holds now, a digest of 32 bytes and a nonce. */
  ghost predicate Genuine(crypto: Crypto, key: seq<Byte>, cookie: string, now: int, v: Verified) {
    exists payload: string, signature: string, claims: map<string, Value> ::
      && Segments(cookie) == Some((payload, signature)) && Utf8Length(cookie) <= 4096 && IsAscii(payload)
      && Decode(signature) == Some(crypto.sign(key, payload)) && DecodePayload(payload) == Some(claims)
      && claims.Keys == {"v", "iat", "exp", "csrf", "nonce"} && claims["v"] == Num(1)
      && claims["iat"].Num? && claims["exp"].Num? && claims["csrf"].Str? && claims["nonce"].Str?
      && claims["nonce"].text != "" && FromHex(claims["csrf"].text) == Some(v.csrfDigest) && |v.csrfDigest| == 32
      && v.issuedAt == claims["iat"].number * 1_000_000 && v.expiresAt == claims["exp"].number * 1_000_000
      && -62_135_596_800_000_000 <= v.issuedAt < v.expiresAt < 253_402_300_800_000_000
      && v.issuedAt <= now < v.expiresAt
  }

  lemma VerifiesIffGenuine(crypto: Crypto, key: seq<Byte>, cookie: string, now: int, v: Verified)
    ensures Verify(crypto, key, Some(cookie), now) == Ok(v) <==> Genuine(crypto, key, cookie, now, v)
  {
    hide Decode, Utf8Length, DecodePayload, FromHex, IsAscii;
    if Segments(cookie).Some? {
      var (payload, signature) := Segments(cookie).value;
      var claims := DecodePayload(payload);
      assert cookie != "";
    }
  }

  /** A cookie has two segments exactly when it is two texts around its only dot. */
  lemma SegmentsMeaning(cookie: string, payload: string, signature: string)
    ensures Segments(cookie) == Some((payload, signature)) <==>
            && cookie == payload + "." + signature && payload != "" && signature != ""
            && '.' !in payload && '.' !in signature
  {
    var k := Before(cookie, '.');
    if Segments(cookie) == Some((payload, signature)) {
      assert cookie == payload + "." + signature;
      assert forall i | 0 <= i < k :: payload[i] == cookie[i];
    }
    if cookie == payload + "." + signature && payload != "" && signature != "" && '.' !in payload && '.' !in signature {
      SplitCookie(payload, signature);
    }
  }

  /** Whatever verifies carries the signature of its own payload segment. */
  lemma AcceptedIsSigned(crypto: Crypto, key: seq<Byte>, cookie: Option<string>, now: int)
    ensures Verify(crypto, key, cookie, now).Ok? ==>
      && cookie.Some? && Segments(cookie.value).Some?
      && (var (payload, signature) := Segments(cookie.value).value;
        Decode(signature) == Some(crypto.sign(key, payload)))
      && (var v := Verify(crypto, key, cookie, now).value;
        v.issuedAt <= now < v.expiresAt && |v.csrfDigest| == DIGEST_BYTES)
  {
    hide Decode, Segments, Utf8Length, DecodePayload;
  }

  /** A session of at least one second is usable at its own moment of issue exactly when that
      moment is not before the epoch or falls on a whole second: truncation toward zero puts
      the recorded issue time of any other moment into its future. */
  lemma UsableAtIssue(crypto: Crypto, key: seq<Byte>, lifetime: int, issued: int, token: string, nonce: string)
    requires crypto.Valid() && Plain(nonce) && 0 < |nonce| <= 64 && Representable(issued) && lifetime >= SECOND
    requires Issue(crypto, key, lifetime, issued, token, nonce).Ok?
    ensures Verify(crypto, key, Some(Issue(crypto, key, lifetime, issued, token, nonce).value.cookie), issued).Ok? <==>
            issued >= 0 || issued % SECOND == 0
  {
    hide Verify, Issue;
    VerifiesExactlyWithinLifetime(crypto, key, lifetime, issued, token, nonce, issued);
  }

  /** Half a second before the epoch is such a moment. */
  lemma UnusableBeforeEpoch(crypto: Crypto, key: seq<Byte>, token: string)
    requires crypto.Valid()
    ensures var r := Issue(crypto, key, 43_200 * SECOND, -500_000, token, "n");
      r.Ok? && Verify(crypto, key, Some(r.value.cookie), -500_000).Err?
  {
    hide Verify;
    UsableAtIssue(crypto, key, 43_200 * SECOND, -500_000, token, "n");
  }
}
