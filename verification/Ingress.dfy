/** The middleware in front of the session codec: which requests an issued cookie admits. */
module Ingress {
  import opened Common
  import opened Text
  import opened Base64Url
  import opened Json
  import opened RateLimit
  import opened Middleware
  import Session

  /** Owner-token mode with the session codec; `cookieOf` reads the session cookie out of a cookie
      header, as the standard library does. */
  function WithSessions(
    pol: Policy, crypto: Session.Crypto, key: seq<Byte>, cookieOf: string -> Option<string>): Policy
  {
    pol.(
      mode := OwnerToken,
      sessionOf := (header, wall) => SessionAt(crypto, key, cookieOf(header), wall),
      csrfMatches := (session, token) => Session.VerifyCsrf(crypto, session, Some(token)))
  }

  function SessionAt(
    crypto: Session.Crypto, key: seq<Byte>, cookie: Option<string>, wall: int): Option<Session.Verified>
  {
    if cookie.None? then None
    else match Session.Verify(crypto, key, cookie, wall) case Ok(v) => Some(v) case Err => None
  }

  /** The header with which a browser sends the cookie back. */
  function CookieHeader(cookie: string): string { SESSION_COOKIE + "=" + cookie }

  // ---------------------------------------------------------------------------
  // The header of an issued cookie names the cookie once

  predicate CookieText(s: string) { forall i | 0 <= i < |s| :: !IsSpace(s[i]) && s[i] != ';' }

  lemma {:induction false} EncodedIsCookieText(b: seq<Byte>)
    ensures CookieText(Encode(b))
    decreases |b|
  {
    forall v: nat | v < 64 ensures !IsSpace(CharOf(v)) && CharOf(v) != ';' { DigitIsCookieText(v); }
    hide CharOf, IsSpace;
    if |b| >= 3 { EncodedIsCookieText(b[3..]); }
  }

  lemma DigitIsCookieText(v: nat)
    requires v < 64
    ensures !IsSpace(CharOf(v)) && CharOf(v) != ';'
  {
  }

  lemma IssuedIsCookieText(
    crypto: Session.Crypto, key: seq<Byte>, lifetime: int, issued: int, token: string, nonce: string)
    requires Plain(nonce) && Session.Issue(crypto, key, lifetime, issued, token, nonce).Ok?
    ensures CookieText(Session.Issue(crypto, key, lifetime, issued, token, nonce).value.cookie)
    ensures Session.Issue(crypto, key, lifetime, issued, token, nonce).value.cookie != ""
  {
    hide Encode, IsSpace, Session.PayloadText;
    assert !IsSpace('.') by { DotIsNoSpace(); }
    var digest := crypto.digest(token);
    var iat, exp := Session.WholeSeconds(issued), Session.WholeSeconds(issued + lifetime);
    Session.PayloadPlain(digest, iat, exp, nonce);
    var bytes := Bytes(Session.PayloadText(digest, iat, exp, nonce));
    EncodedIsCookieText(bytes);
    EncodedIsCookieText(crypto.sign(key, Encode(bytes)));
  }

  lemma DotIsNoSpace()
    ensures !IsSpace('.')
  {
  }

  lemma HeaderNamesCookieOnce(cookie: string)
    requires CookieText(cookie) && cookie != ""
    ensures CookieCount(Some(CookieHeader(cookie)), SESSION_COOKIE) == 1
  {
    var s := CookieHeader(cookie);
    NameIsCookieText();
    assert s == SESSION_COOKIE + "=" + cookie;
    assert Strip(s) == s by { NothingToStrip(s); }
    BeforeAt(SESSION_COOKIE, '=', cookie);
    assert s[..|SESSION_COOKIE|] == SESSION_COOKIE;
    assert Names(s, SESSION_COOKIE);
    assert ';' !in s;
    BeforeNone(s, ';');
    assert Split(s, ';') == [s];
    OneNamed(s, SESSION_COOKIE);
  }

  lemma OneNamed(pair: string, name: string)
    requires Names(pair, name)
    ensures CountNamed([pair], name) == 1
  {
    hide Names;
    var pairs := [pair];
    assert pairs[..|pairs| - 1] == [] && pairs[|pairs| - 1] == pair;
    assert CountNamed([], name) == 0;
  }

  lemma NameIsCookieText()
    ensures CookieText(SESSION_COOKIE) && '=' !in SESSION_COOKIE && SESSION_COOKIE != ""
  {
  }

  lemma NothingToStrip(s: string)
    requires s != "" && !IsSpace(s[0]) && !IsSpace(s[|s| - 1])
    ensures Strip(s) == s
  {
  }

  // ---------------------------------------------------------------------------
  // Admission

  /** The session the middleware finds for an issued cookie: one exactly within the lifetime. */
  lemma IssuedSession(
    pol: Policy, crypto: Session.Crypto, key: seq<Byte>, cookieOf: string -> Option<string>,
    scope: Scope, wall: int, lifetime: int, issued: int, token: string, nonce: string)
    requires crypto.Valid() && Plain(nonce) && 0 < |nonce| <= 64 && Session.Representable(issued)
    requires Session.Issue(crypto, key, lifetime, issued, token, nonce).Ok?
    requires var cookie := Session.Issue(crypto, key, lifetime, issued, token, nonce).value.cookie;
      && SingleHeader(scope, "cookie") == Some(CookieHeader(cookie)) && cookieOf(CookieHeader(cookie)) == Some(cookie)
      && HeaderValuesOf(scope, "authorization") == Some([])
    ensures var p := WithSessions(pol, crypto, key, cookieOf);
      var a := Authenticate(p, scope, wall);
      && (a.Some? <==> WithinLifetime(issued, lifetime, wall))
      && (a.Some? ==> a.value.mechanism.ByOwnerSession?)
      && (a.Some? ==>
            (CsrfPasses(p, scope, a.value) <==>
             CarriesToken(crypto, scope, Session.Issue(crypto, key, lifetime, issued, token, nonce).value.csrfToken)))
  {
    hide SingleHeader, HeaderValuesOf, CookieCount, CookieText, Session.Issue, Session.Verify;
    var cookie := Session.Issue(crypto, key, lifetime, issued, token, nonce).value.cookie;
    IssuedIsCookieText(crypto, key, lifetime, issued, token, nonce);
    HeaderNamesCookieOnce(cookie);
    Session.VerifiesExactlyWithinLifetime(crypto, key, lifetime, issued, token, nonce, wall);
  }

  predicate WithinLifetime(issued: int, lifetime: int, wall: int) {
    Session.WholeSeconds(issued) * 1_000_000 <= wall < Session.WholeSeconds(issued + lifetime) * 1_000_000
  }

  /** The CSRF header carries a token with the digest of the issued one. */
  predicate CarriesToken(crypto: Session.Crypto, scope: Scope, token: string) {
    var sent := SingleHeader(scope, CSRF_HEADER);
    sent.Some? && crypto.digest(sent.value) == crypto.digest(token)
  }

  /** A request that brings back an issued cookie reaches the application, under that session,
      exactly when its peer is not limited, the time is within the cookie's lifetime and, for an
      unsafe method, it carries the issued CSRF token. */
  lemma IssuedCookieAdmittedIff(
    c: Config, pol: Policy, crypto: Session.Crypto, key: seq<Byte>, cookieOf: string -> Option<string>,
    clock: real, st: State, n: Naive, r: Request,
    lifetime: int, issued: int, token: string, nonce: string)
    requires c.Valid() && Coupled(c, clock, st, n) && clock <= r.asked
    requires crypto.Valid() && Plain(nonce) && 0 < |nonce| <= 64 && Session.Representable(issued)
    requires Session.Issue(crypto, key, lifetime, issued, token, nonce).Ok?
    requires !r.scope.kind.OtherScope? && !(r.scope.kind.Http? && (Verb(r.scope), r.scope.path) in pol.publicRoutes)
    requires WithinLimit(r.scope) && (r.scope.kind.Http? ==> "/" <= r.scope.path)
    requires var cookie := Session.Issue(crypto, key, lifetime, issued, token, nonce).value.cookie;
      && SingleHeader(r.scope, "cookie") == Some(CookieHeader(cookie))
      && cookieOf(CookieHeader(cookie)) == Some(cookie)
      && HeaderValuesOf(r.scope, "authorization") == Some([])
    ensures var o := Handle(c, WithSessions(pol, crypto, key, cookieOf), st, r).1;
      var given := Session.Issue(crypto, key, lifetime, issued, token, nonce).value;
      && (o.ReachedApp? <==>
            && CountNewer(History(n, PeerOf(r.scope)), r.asked - c.window) < c.limit
            && WithinLifetime(issued, lifetime, r.wall)
            && (r.scope.kind.Http? && Verb(r.scope) !in SAFE_METHODS ==>
                  CarriesToken(crypto, r.scope, given.csrfToken)))
      && (o.ReachedApp? ==> o == ReachedApp(Some(ByOwnerSession)))
  {
    hide SingleHeader, HeaderValuesOf, WithinLimit, Coupled, CountNewer, CsrfPasses, CarriesToken, Authenticate, Handle,
      Session.Issue, Session.Verify;
    var p := WithSessions(pol, crypto, key, cookieOf);
    assert !IsPublic(p, r.scope);
    IssuedSession(pol, crypto, key, cookieOf, r.scope, r.wall, lifetime, issued, token, nonce);
    AdmittedIff(c, p, clock, st, n, r);
    if Handle(c, p, st, r).1.ReachedApp? { OnlyAdmittedScopesPass(c, p, st, r); }
  }
}
