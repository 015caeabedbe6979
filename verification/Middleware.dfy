/** Default-deny ingress authentication in front of the application.

    Header bytes are strings of Latin-1 characters.  Credential checks are functions the
    policy supplies; the check of a session cookie also depends on the time it is made. */
module Middleware {
  import opened Common
  import opened Text
  import opened RateLimit
  import Session

  datatype Mode = Disabled | Loopback | TrustedProxy | OwnerToken

  datatype Mechanism = ByDisabled | ByLoopback | ByProxy | ByOwnerBearer | ByOwnerSession

  datatype Admission = Admission(mechanism: Mechanism, session: Option<Session.Verified>)

  datatype RawHeader = Header(name: string, value: string) | Malformed

  datatype Kind = Http | WebSocket | OtherScope

  /** `headers` is None when the scope carries no list of headers. */
  datatype Scope = Scope(
    kind: Kind, verb: Option<string>, path: string, headers: Option<seq<RawHeader>>, host: Option<string>)

  /** The configured policy; the last five fields stand for the credential checks. */
  datatype Policy = Policy(
    mode: Mode,
    proxyHeader: string,
    publicRoutes: set<(string, string)>,
    isLoopback: Option<string> -> bool,
    proxyAccepts: (Option<string>, Option<string>) -> bool,
    bearerMatches: Option<string> -> bool,
    sessionOf: (string, int) -> Option<Session.Verified>,
    csrfMatches: (Session.Verified, string) -> bool)

  datatype Outcome =
    | ReachedApp(identity: Option<Mechanism>)
    | Rejected(status: nat)
    | RedirectedToLogin
    | Raised

  const SESSION_COOKIE := "assistantmd_owner_session"
  const CSRF_HEADER := "x-assistantmd-csrf"
  const MAXIMUM_HEADER_BYTES := 64 * 1024
  const SAFE_METHODS := {"GET", "HEAD", "OPTIONS"}

  // ---------------------------------------------------------------------------
  // Text

  function UpperChar(c: char): char { if 'a' <= c <= 'z' then c - 'a' + 'A' else c }

  function Upper(s: string): string { seq(|s|, i requires 0 <= i < |s| => UpperChar(s[i])) }

  // ---------------------------------------------------------------------------
  // Headers and cookies

  predicate AllWellFormed(hs: seq<RawHeader>) {
    forall i | 0 <= i < |hs| :: hs[i].Header?
  }

  function HeaderBytes(hs: seq<RawHeader>): nat
    requires AllWellFormed(hs)
  {
    if hs == [] then 0 else HeaderBytes(hs[..|hs| - 1]) + |hs[|hs| - 1].name| + |hs[|hs| - 1].value|
  }

  predicate WithinLimit(scope: Scope) {
    && scope.headers.Some? && AllWellFormed(scope.headers.value)
    && HeaderBytes(scope.headers.value) <= MAXIMUM_HEADER_BYTES
  }

  lemma {:induction false} PrefixBytes(hs: seq<RawHeader>, k: nat)
    requires AllWellFormed(hs) && k <= |hs|
    ensures HeaderBytes(hs[..k]) <= HeaderBytes(hs)
    decreases |hs|
  {
    if k < |hs| {
      assert hs[..|hs| - 1][..k] == hs[..k];
      PrefixBytes(hs[..|hs| - 1], k);
    } else {
      assert hs[..k] == hs;
    }
  }

  /** Stops at the first header that is malformed or exceeds the total, and that is the same as
      adding up all of them. */
  method HeadersWithinLimit(scope: Scope) returns (ok: bool)
    ensures ok == WithinLimit(scope)
  {
    if scope.headers.None? {
      return false;
    }
    var hs := scope.headers.value;
    var total := 0;
    for i := 0 to |hs|
      invariant AllWellFormed(hs[..i]) && total == HeaderBytes(hs[..i]) <= MAXIMUM_HEADER_BYTES
    {
      if hs[i].Malformed? {
        return false;
      }
      assert hs[..i + 1][..i] == hs[..i];
      total := total + |hs[i].name| + |hs[i].value|;
      if total > MAXIMUM_HEADER_BYTES {
        if AllWellFormed(hs) { PrefixBytes(hs, i + 1); }
        return false;
      }
    }
    assert hs[..|hs|] == hs;
    return true;
  }

  function Matching(hs: seq<RawHeader>, name: string): seq<string>
    requires AllWellFormed(hs)
  {
    if hs == [] then []
    else Matching(hs[..|hs| - 1], name) + if Lower(hs[|hs| - 1].name) == name then [hs[|hs| - 1].value] else []
  }

  function NamedAt(hs: seq<RawHeader>, name: string): set<int>
    requires AllWellFormed(hs)
  {
    set i | 0 <= i < |hs| && Lower(hs[i].name) == name
  }

  lemma NamedAtLast(hs: seq<RawHeader>, name: string)
    requires AllWellFormed(hs) && hs != []
    ensures var n := |hs| - 1; var some := NamedAt(hs[..n], name);
      && NamedAt(hs, name) == (if Lower(hs[n].name) == name then some + {n} else some)
      && forall i | i in some :: 0 <= i < n
  {
    hide Lower;
  }

  /** There are as many values as headers with the name, and each is the value of one. */
  lemma {:induction false} MatchingMeaning(hs: seq<RawHeader>, name: string, v: string)
    requires AllWellFormed(hs)
    ensures |Matching(hs, name)| == |NamedAt(hs, name)|
    ensures v in Matching(hs, name) <==> exists i :: i in NamedAt(hs, name) && hs[i].value == v
  {
    hide Lower;
    if hs != [] {
      var n := |hs| - 1;
      var front := hs[..n];
      MatchingMeaning(front, name, v);
      NamedAtLast(hs, name);
      hide NamedAt;
    }
  }

  /** Values keep the order of their headers. */
  lemma {:induction false} MatchingAppend(a: seq<RawHeader>, b: seq<RawHeader>, name: string)
    requires AllWellFormed(a) && AllWellFormed(b)
    ensures AllWellFormed(a + b) && Matching(a + b, name) == Matching(a, name) + Matching(b, name)
    decreases |b|
  {
    hide Lower;
    if b == [] {
      assert a + b == a;
    } else {
      var n := |b| - 1;
      MatchingAppend(a, b[..n], name);
      assert AllWellFormed(a + b);
      hide AllWellFormed;
      assert (a + b)[..|a + b| - 1] == a + b[..n] && (a + b)[|a + b| - 1] == b[n];
    }
  }

  function HeaderValuesOf(scope: Scope, name: string): Option<seq<string>> {
    if scope.headers.Some? && AllWellFormed(scope.headers.value) then Some(Matching(scope.headers.value, name))
    else None
  }

  method HeaderValues(scope: Scope, name: string) returns (values: Option<seq<string>>)
    ensures values == HeaderValuesOf(scope, name)
  {
    if scope.headers.None? {
      return None;
    }
    var hs := scope.headers.value;
    var matches := [];
    for i := 0 to |hs|
      invariant AllWellFormed(hs[..i]) && matches == Matching(hs[..i], name)
    {
      if hs[i].Malformed? {
        return None;
      }
      assert hs[..i + 1][..i] == hs[..i];
      if Lower(hs[i].name) == name {
        matches := matches + [hs[i].value];
      }
    }
    assert hs[..|hs|] == hs;
    return Some(matches);
  }

  function SingleHeader(scope: Scope, name: string): Option<string> {
    var vs := HeaderValuesOf(scope, name);
    if vs.Some? && |vs.value| == 1 then Some(vs.value[0]) else None
  }

  predicate Names(pair: string, name: string) {
    var p := Strip(pair);
    var k := Before(p, '=');
    k < |p| && p[..k] == name
  }

  function CountNamed(pairs: seq<string>, name: string): nat {
    if pairs == [] then 0 else CountNamed(pairs[..|pairs| - 1], name) + if Names(pairs[|pairs| - 1], name) then 1 else 0
  }

  method CookieNameCount(header: Option<string>, name: string) returns (count: nat)
    ensures count == CookieCount(header, name)
  {
    if header.None? {
      return 0;
    }
    var pairs := Split(header.value, ';');
    count := 0;
    for i := 0 to |pairs|
      invariant count == CountNamed(pairs[..i], name)
    {
      assert pairs[..i + 1][..i] == pairs[..i];
      if Names(pairs[i], name) {
        count := count + 1;
      }
    }
    assert pairs[..|pairs|] == pairs;
  }

  /** The count is the number of pairs that carry the name. */
  lemma {:induction false} CountNamedMeaning(pairs: seq<string>, name: string)
    ensures CountNamed(pairs, name) == |set i | 0 <= i < |pairs| && Names(pairs[i], name)|
  {
    hide Names;
    if pairs != [] {
      var n := |pairs| - 1;
      CountNamedMeaning(pairs[..n], name);
      var all, some := CarriersAt(pairs, name), CarriersAt(pairs[..n], name);
      assert all == if Names(pairs[n], name) then some + {n} else some;
    }
  }

  function CarriersAt(pairs: seq<string>, name: string): set<int> {
    set i | 0 <= i < |pairs| && Names(pairs[i], name)
  }

  function CookieCount(header: Option<string>, name: string): nat {
    if header.None? then 0 else CountNamed(Split(header.value, ';'), name)
  }

  function BearerToken(scope: Scope): Option<string> {
    var h := SingleHeader(scope, "authorization");
    if h.None? then None
    else
      var k := Before(h.value, ' ');
      if k == |h.value| || Lower(h.value[..k]) != "bearer" then None
      else
        var token := h.value[k + 1..];
        if token == "" || ' ' in token then None else Some(token)
  }

  // ---------------------------------------------------------------------------
  // Authentication and the decision procedure

  function OwnerSession(pol: Policy, scope: Scope, wall: int): Option<Session.Verified> {
    var cookie := SingleHeader(scope, "cookie");
    if cookie.None? || CookieCount(cookie, SESSION_COOKIE) != 1 then None else pol.sessionOf(cookie.value, wall)
  }

  /** `wall` is the time at which a session cookie is verified. */
  function Authenticate(pol: Policy, scope: Scope, wall: int): Option<Admission> {
    match pol.mode
    case Disabled => Some(Admission(ByDisabled, None))
    case Loopback => if pol.isLoopback(scope.host) then Some(Admission(ByLoopback, None)) else None
    case TrustedProxy =>
      if pol.proxyAccepts(SingleHeader(scope, Lower(pol.proxyHeader)), scope.host)
      then Some(Admission(ByProxy, None)) else None
    case OwnerToken =>
      var authorization := HeaderValuesOf(scope, "authorization");
      if authorization.Some? && authorization.value != [] then
        if |authorization.value| != 1 || CookieCount(SingleHeader(scope, "cookie"), SESSION_COOKIE) > 0 then None
        else if pol.bearerMatches(BearerToken(scope)) then Some(Admission(ByOwnerBearer, None)) else None
      else
        var session := OwnerSession(pol, scope, wall);
        if session.Some? then Some(Admission(ByOwnerSession, session)) else None
  }

  method SingleHeaderValue(scope: Scope, name: string) returns (value: Option<string>)
    ensures value == SingleHeader(scope, name)
  {
    hide HeaderValuesOf;
    var values := HeaderValues(scope, name);
    if values.None? || |values.value| != 1 {
      return None;
    }
    return Some(values.value[0]);
  }

  method AuthenticateScope(pol: Policy, scope: Scope, wall: int) returns (a: Option<Admission>)
    ensures a == Authenticate(pol, scope, wall)
  {
    hide HeaderValuesOf, SingleHeader, CookieCount, BearerToken;
    match pol.mode
    case Disabled =>
      return Some(Admission(ByDisabled, None));
    case Loopback =>
      return if pol.isLoopback(scope.host) then Some(Admission(ByLoopback, None)) else None;
    case TrustedProxy =>
      var assertion := SingleHeaderValue(scope, Lower(pol.proxyHeader));
      return if pol.proxyAccepts(assertion, scope.host) then Some(Admission(ByProxy, None)) else None;
    case OwnerToken =>
      var authorization := HeaderValues(scope, "authorization");
      var cookie := SingleHeaderValue(scope, "cookie");
      var cookies := CookieNameCount(cookie, SESSION_COOKIE);
      if authorization.Some? && authorization.value != [] {
        if |authorization.value| != 1 || cookies > 0 {
          return None;
        }
        return if pol.bearerMatches(BearerToken(scope)) then Some(Admission(ByOwnerBearer, None)) else None;
      }
      if cookie.None? || cookies != 1 {
        return None;
      }
      var session := pol.sessionOf(cookie.value, wall);
      return if session.Some? then Some(Admission(ByOwnerSession, session)) else None;
  }

  function Verb(scope: Scope): string {
    if scope.verb.None? || scope.verb.value == "" then "GET" else Upper(scope.verb.value)
  }

  /** Building the route of an HTTP scope raises unless its path is absolute. */
  predicate RouteExists(scope: Scope) { scope.kind.Http? ==> scope.path != "" && scope.path[0] == '/' }

  predicate IsPublic(pol: Policy, scope: Scope) {
    scope.kind.Http? && (Verb(scope), scope.path) in pol.publicRoutes
  }

  predicate NeedsCsrf(scope: Scope, a: Admission) {
    scope.kind.Http? && Verb(scope) !in SAFE_METHODS && a.mechanism.ByOwnerSession?
  }

  predicate CsrfPasses(pol: Policy, scope: Scope, a: Admission) {
    var token := SingleHeader(scope, CSRF_HEADER);
    a.session.Some? && token.Some? && pol.csrfMatches(a.session.value, token.value)
  }

  method VerifyCsrf(pol: Policy, scope: Scope, a: Admission) returns (passes: bool)
    ensures passes == CsrfPasses(pol, scope, a)
  {
    hide SingleHeader;
    var token := SingleHeaderValue(scope, CSRF_HEADER);
    return a.session.Some? && token.Some? && pol.csrfMatches(a.session.value, token.value);
  }

  function PeerOf(scope: Scope): Peer {
    if scope.host.None? || scope.host.value == "" then Peer("unknown") else Peer(scope.host.value)
  }

  /** What is decided before the limiter is asked: an outcome, or nothing yet. */
  function Gate(pol: Policy, scope: Scope): Option<Outcome> {
    if scope.kind.OtherScope? then Some(ReachedApp(None))
    else if !WithinLimit(scope) then Some(Rejected(431))
    else if !RouteExists(scope) then Some(Raised)
    else if IsPublic(pol, scope) then Some(ReachedApp(None))
    else None
  }

  /** What follows the limiter's answer: the limiter operation to make, and the outcome. */
  function Reply(pol: Policy, scope: Scope, wall: int, limited: bool, now: real): (Option<Op>, Outcome) {
    if limited then (None, Rejected(429))
    else
      match Authenticate(pol, scope, wall)
      case None =>
        var toLogin := scope.kind.Http? && Verb(scope) == "GET" && scope.path == "/" && pol.mode.OwnerToken?;
        (Some(Failure(PeerOf(scope), now)), if toLogin then RedirectedToLogin else Rejected(401))
      case Some(a) =>
        (Some(Success(PeerOf(scope))),
         if NeedsCsrf(scope, a) && !CsrfPasses(pol, scope, a) then Rejected(403) else ReachedApp(Some(a.mechanism)))
  }

  /** One request, with the two clock readings the limiter takes during it, and the time at which
      its session cookie is verified; the latter comes from another clock. */
  datatype Request = Request(scope: Scope, asked: real, failed: real, wall: int)

  function Handle(c: Config, pol: Policy, st: State, r: Request): (State, Outcome) {
    var gate := Gate(pol, r.scope);
    if gate.Some? then (st, gate.value)
    else
      var (s, a) := Step(c, st, Lookup(PeerOf(r.scope), r.asked));
      var (op, o) := Reply(pol, r.scope, r.wall, a.Limited? && a.yes, r.failed);
      (if op.Some? then Step(c, s, op.value).0 else s, o)
  }

  /** The same request in front of the naive limiter. */
  function NaiveHandle(c: Config, pol: Policy, n: Naive, r: Request): (Naive, Outcome) {
    var gate := Gate(pol, r.scope);
    if gate.Some? then (n, gate.value)
    else
      var (m, a) := NaiveStep(c, n, Lookup(PeerOf(r.scope), r.asked));
      var (op, o) := Reply(pol, r.scope, r.wall, a.Limited? && a.yes, r.failed);
      (if op.Some? then NaiveStep(c, m, op.value).0 else m, o)
  }

  // ---------------------------------------------------------------------------
  // Safety of a request

  /** A non-public HTTP or WebSocket scope reaches the application only with the identity that
      authentication produced, and an unsafe request under an owner session only with its
      CSRF proof. */
  lemma OnlyAdmittedScopesPass(c: Config, pol: Policy, st: State, r: Request)
    requires !r.scope.kind.OtherScope? && !(r.scope.kind.Http? && (Verb(r.scope), r.scope.path) in pol.publicRoutes)
    requires Handle(c, pol, st, r).1.ReachedApp?
    ensures WithinLimit(r.scope) && RouteExists(r.scope)
    ensures var a := Authenticate(pol, r.scope, r.wall);
      && a.Some? && Handle(c, pol, st, r).1 == ReachedApp(Some(a.value.mechanism))
      && (a.value.mechanism.ByOwnerSession? ==>
            a.value.session.Some? && CookieCount(SingleHeader(r.scope, "cookie"), SESSION_COOKIE) == 1)
      && (NeedsCsrf(r.scope, a.value) ==> CsrfPasses(pol, r.scope, a.value))
  {
    hide WithinLimit, Step, CookieCount, SingleHeader, HeaderValuesOf;
  }

  /** The peer under whose name failures are counted. */
  function Counted(host: Option<string>): Peer {
    match host case Some(h) => Peer(if h == "" then "unknown" else h) case None => Peer("unknown")
  }

  /** What is decided before the limiter is asked, from the scope itself. */
  lemma GateOf(pol: Policy, scope: Scope)
    ensures Gate(pol, scope) ==
      if scope.kind.OtherScope? then Some(ReachedApp(None))
      else if !WithinLimit(scope) then Some(Rejected(431))
      else if scope.kind.Http? && !("/" <= scope.path) then Some(Raised)
      else if scope.kind.Http? && (Verb(scope), scope.path) in pol.publicRoutes then Some(ReachedApp(None))
      else None
  {
    hide WithinLimit, Verb;
  }

  /** Exactly when a scope that is not public reaches the application, and what it gets otherwise,
      in terms of the whole failure history of its peer. */
  lemma AdmittedIff(c: Config, pol: Policy, clock: real, st: State, n: Naive, r: Request)
    requires c.Valid() && Coupled(c, clock, st, n) && clock <= r.asked
    requires !r.scope.kind.OtherScope? && !(r.scope.kind.Http? && (Verb(r.scope), r.scope.path) in pol.publicRoutes)
    ensures var o := Handle(c, pol, st, r).1;
      var a := Authenticate(pol, r.scope, r.wall);
      var absolute := r.scope.kind.Http? ==> "/" <= r.scope.path;
      var routed := WithinLimit(r.scope) && absolute;
      var open := routed && CountNewer(History(n, Counted(r.scope.host)), r.asked - c.window) < c.limit;
      var csrf := a.Some? && NeedsCsrf(r.scope, a.value);
      && (o.ReachedApp? <==> open && a.Some? && (csrf ==> CsrfPasses(pol, r.scope, a.value)))
      && (o.ReachedApp? ==> o == ReachedApp(Some(a.value.mechanism)))
      && (o == Rejected(431) <==> !WithinLimit(r.scope))
      && (o.Raised? <==> WithinLimit(r.scope) && !absolute)
      && (o == Rejected(429) <==> routed && !open)
      && (o == Rejected(403) <==> open && csrf && !CsrfPasses(pol, r.scope, a.value))
      && (o == Rejected(401) || o.RedirectedToLogin? <==> open && a.None?)
      && (o.RedirectedToLogin? <==>
            && open && a.None? && pol.mode.OwnerToken?
            && r.scope.kind.Http? && Verb(r.scope) == "GET" && r.scope.path == "/")
  {
    hide WithinLimit, Coupled, Authenticate, CsrfPasses, NeedsCsrf, CountNewer, Prune, Recorded, Verb, Gate;
    assert PeerOf(r.scope) == Counted(r.scope.host);
    GateOf(pol, r.scope);
    LookupRefines(c, clock, st, n, PeerOf(r.scope), r.asked);
  }

  /** Scopes that are let through without an identity, and without touching the limiter: those of
      another kind, and public routes within the header limit. */
  lemma LetThrough(c: Config, pol: Policy, st: State, r: Request)
    ensures r.scope.kind.OtherScope? ==> Handle(c, pol, st, r) == (st, ReachedApp(None))
    ensures r.scope.kind.Http? && WithinLimit(r.scope) && "/" <= r.scope.path
            && (Verb(r.scope), r.scope.path) in pol.publicRoutes ==>
            Handle(c, pol, st, r) == (st, ReachedApp(None))
  {
    hide WithinLimit, Verb, Step;
  }

  /** The method: upper case, and "GET" when there is none. */
  lemma VerbMeaning(scope: Scope, i: nat)
    ensures scope.verb.None? || scope.verb == Some("") ==> Verb(scope) == "GET"
    ensures scope.verb.Some? && i < |scope.verb.value| ==>
      |Verb(scope)| == |scope.verb.value| &&
      var c := scope.verb.value[i] as int; Verb(scope)[i] as int == if 97 <= c <= 122 then c - 32 else c
  {
  }

  /** The bytes of all names and values, of which 65536 are let through. */
  lemma {:induction false} HeaderBytesAppend(a: seq<RawHeader>, b: seq<RawHeader>)
    requires AllWellFormed(a) && AllWellFormed(b)
    ensures AllWellFormed(a + b) && HeaderBytes(a + b) == HeaderBytes(a) + HeaderBytes(b)
    decreases |b|
  {
    if b == [] {
      assert a + b == a;
    } else {
      var n := |b| - 1;
      HeaderBytesAppend(a, b[..n]);
      assert (a + b)[..|a + b| - 1] == a + b[..n];
    }
  }

  lemma WithinLimitMeaning(scope: Scope, name: string, value: string)
    ensures HeaderBytes([Header(name, value)]) == |name| + |value|
    ensures WithinLimit(scope) <==>
            match scope.headers case None => false
              case Some(hs) => AllWellFormed(hs) && HeaderBytes(hs) <= 65_536
  {
    var one := [Header(name, value)];
    assert one[..|one| - 1] == [];
  }

  /** A single header has the value of the one header with its name; with none or several, or a
      malformed one anywhere, it has none. */
  lemma SingleHeaderMeaning(scope: Scope, name: string, v: string)
    ensures SingleHeader(scope, name) == Some(v) <==>
      match scope.headers case None => false
        case Some(hs) => AllWellFormed(hs) && exists i | 0 <= i < |hs| :: OnlyNamed(hs, name, i) && hs[i].value == v
  {
    hide Lower, Matching;
    if scope.headers.Some? && AllWellFormed(scope.headers.value) {
      var hs := scope.headers.value;
      MatchingMeaning(hs, name, v);
      var at := NamedAt(hs, name);
      assert forall j | 0 <= j < |hs| :: Lower(hs[j].name) == name <==> j in at;
      forall i | 0 <= i < |hs| ensures OnlyNamed(hs, name, i) <==> at == {i} {
        if OnlyNamed(hs, name, i) { assert at == {i}; }
      }
      if |at| == 1 {
        var i :| i in at;
        OneElement(at, i);
        var vs := Matching(hs, name);
        MatchingMeaning(hs, name, vs[0]);
      }
    }
  }

  predicate OnlyNamed(hs: seq<RawHeader>, name: string, i: nat)
    requires AllWellFormed(hs)
  {
    i < |hs| && forall j | 0 <= j < |hs| :: Lower(hs[j].name) == name <==> j == i
  }

  lemma OneElement(a: set<int>, i: int)
    requires |a| == 1 && i in a
    ensures a == {i}
  {
    assert |a - {i}| == 0;
    assert a == {i} + (a - {i});
  }

  /** The bearer token: what follows the one space of the single Authorization header, if what goes
      before it is "bearer" in any case. */
  lemma BearerTokenMeaning(scope: Scope, token: string)
    ensures BearerToken(scope) == Some(token) <==> token != "" && ' ' !in token && exists scheme: string ::
      SingleHeader(scope, "authorization") == Some(scheme + " " + token) && ' ' !in scheme && Lower(scheme) == "bearer"
  {
    hide Lower, SingleHeader;
    var h := SingleHeader(scope, "authorization");
    if h.Some? {
      var k := Before(h.value, ' ');
      if BearerToken(scope) == Some(token) {
        var scheme := h.value[..k];
        assert h.value == scheme + " " + token;
        assert ' ' !in scheme by { assert forall i | 0 <= i < k :: scheme[i] == h.value[i]; }
      }
      if scheme: string :| h == Some(scheme + " " + token) && ' ' !in scheme && Lower(scheme) == "bearer" {
        BeforeAt(scheme, ' ', token);
        assert h.value[..|scheme|] == scheme && h.value[|scheme| + 1..] == token;
      }
    }
  }

  /** A pair of the cookie header carries a name when, stripped, it begins with it and "=". */
  lemma NamesMeaning(pair: string, name: string)
    requires '=' !in name
    ensures Names(pair, name) <==> name + "=" <= Strip(pair)
  {
    hide Strip;
    var p := Strip(pair);
    if name + "=" <= p {
      var rest := p[|name| + 1..];
      assert p == name + "=" + rest;
      BeforeAt(name, '=', rest);
    }
  }

  /** Which scopes each mode authenticates, and as what. */
  lemma ModeAdmits(pol: Policy, scope: Scope, wall: int)
    ensures var a := Authenticate(pol, scope, wall);
      var bearer := HeaderValuesOf(scope, "authorization");
      var given := bearer.Some? && bearer.value != [];
      var cookies := CookieCount(SingleHeader(scope, "cookie"), "assistantmd_owner_session");
      match pol.mode
      case Disabled => a == Some(Admission(ByDisabled, None))
      case Loopback => if pol.isLoopback(scope.host) then a == Some(Admission(ByLoopback, None)) else a.None?
      case TrustedProxy =>
        if pol.proxyAccepts(SingleHeader(scope, Lower(pol.proxyHeader)), scope.host)
        then a == Some(Admission(ByProxy, None)) else a.None?
      case OwnerToken =>
        && (given ==>
              if |bearer.value| == 1 && cookies == 0 && pol.bearerMatches(BearerToken(scope))
              then a == Some(Admission(ByOwnerBearer, None)) else a.None?)
        && (!given ==>
              var cookie := SingleHeader(scope, "cookie");
              var session := if cookie.Some? && cookies == 1 then pol.sessionOf(cookie.value, wall) else None;
              if session.Some? then a == Some(Admission(ByOwnerSession, session)) else a.None?)
  {
    hide HeaderValuesOf, SingleHeader, CookieCount, BearerToken, Lower;
  }

  /** An open request to a scope that is not public, mode by mode: exactly when it reaches the
      application, and under which identity. */
  lemma OpenRequestByMode(c: Config, pol: Policy, clock: real, st: State, n: Naive, r: Request)
    requires c.Valid() && Coupled(c, clock, st, n) && clock <= r.asked
    requires !r.scope.kind.OtherScope? && !(r.scope.kind.Http? && (Verb(r.scope), r.scope.path) in pol.publicRoutes)
    requires WithinLimit(r.scope) && (r.scope.kind.Http? ==> "/" <= r.scope.path)
    requires CountNewer(History(n, Counted(r.scope.host)), r.asked - c.window) < c.limit
    ensures var o := Handle(c, pol, st, r).1;
      var scope := r.scope;
      var bearer := HeaderValuesOf(scope, "authorization").value;
      var cookies := CookieCount(SingleHeader(scope, "cookie"), "assistantmd_owner_session");
      && HeaderValuesOf(scope, "authorization").Some?
      && (pol.mode.Disabled? ==> o == ReachedApp(Some(ByDisabled)))
      && (pol.mode.Loopback? ==>
            o == if pol.isLoopback(scope.host) then ReachedApp(Some(ByLoopback)) else Rejected(401))
      && (pol.mode.TrustedProxy? ==>
            o == if pol.proxyAccepts(SingleHeader(scope, Lower(pol.proxyHeader)), scope.host)
                 then ReachedApp(Some(ByProxy)) else Rejected(401))
      && (pol.mode.OwnerToken? && bearer != [] ==>
            (o.ReachedApp? <==> |bearer| == 1 && cookies == 0 && pol.bearerMatches(BearerToken(scope)))
            && (o.ReachedApp? ==> o == ReachedApp(Some(ByOwnerBearer))))
      && (pol.mode.OwnerToken? && bearer == [] ==>
            var cookie := SingleHeader(scope, "cookie");
            var session := if cookie.Some? && cookies == 1 then pol.sessionOf(cookie.value, r.wall) else None;
            var unsafe := scope.kind.Http? && Verb(scope) !in {"GET", "HEAD", "OPTIONS"};
            var token := SingleHeader(scope, "x-assistantmd-csrf");
            (o.ReachedApp? <==>
               session.Some? && (unsafe ==> token.Some? && pol.csrfMatches(session.value, token.value)))
            && (o.ReachedApp? ==> o == ReachedApp(Some(ByOwnerSession))))
  {
    WithinLimitHasValues(r.scope, "authorization");
    hide Handle, HeaderValuesOf, SingleHeader, CookieCount, BearerToken, Lower, WithinLimit, Coupled, CountNewer, Verb,
      RouteExists, IsPublic, Counted, Authenticate, NeedsCsrf, CsrfPasses;
    AdmittedIff(c, pol, clock, st, n, r);
    ModeAdmits(pol, r.scope, r.wall);
    if Authenticate(pol, r.scope, r.wall).Some? { ProofNeeded(pol, r.scope, Authenticate(pol, r.scope, r.wall).value); }
  }

  /** Only an unsafe request under an owner session needs the CSRF proof, in its own header. */
  lemma ProofNeeded(pol: Policy, scope: Scope, a: Admission)
    ensures NeedsCsrf(scope, a) <==>
      a.mechanism.ByOwnerSession? && scope.kind.Http? && Verb(scope) !in {"GET", "HEAD", "OPTIONS"}
    ensures a.session.Some? ==>
      var token := SingleHeader(scope, "x-assistantmd-csrf");
      CsrfPasses(pol, scope, a) <==> token.Some? && pol.csrfMatches(a.session.value, token.value)
  {
    hide SingleHeader, Verb;
  }

  lemma WithinLimitHasValues(scope: Scope, name: string)
    requires WithinLimit(scope)
    ensures HeaderValuesOf(scope, name).Some?
  {
    hide HeaderBytes, Matching;
  }

  /** What one request does to the failures counted for its own peer, since its last success or
      eviction: a refused authentication adds its time, an accepted one clears them even if the CSRF
      check then fails, and anything else leaves them. */
  lemma RequestRecords(c: Config, pol: Policy, n: Naive, r: Request)
    requires c.Valid() && forall p | p in n.peers :: n.peers[p].touched < n.ops
    ensures var p := Counted(r.scope.host);
      var h := History(n, p);
      var h' := History(NaiveHandle(c, pol, n, r).0, p);
      var open := Gate(pol, r.scope).None? && CountNewer(h, r.asked - c.window) < c.limit;
      && (!open ==> h' == h)
      && (open && Authenticate(pol, r.scope, r.wall).None? ==> h' == h + [r.failed])
      && (open && Authenticate(pol, r.scope, r.wall).Some? ==> h' == [])
  {
    hide Gate, Authenticate, CountNewer, NeedsCsrf, CsrfPasses, Verb, MoreRecent;
    var p := PeerOf(r.scope);
    assert p == Counted(r.scope.host);
    if Gate(pol, r.scope).None? {
      var m := NaiveStep(c, n, Lookup(p, r.asked)).0;
      LookupKeepsHistory(c, n, p, r.asked);
      FailingPeerStays(c, m, p, r.failed);
    }
  }

  lemma FailingPeerStays(c: Config, n: Naive, p: Peer, now: real)
    requires c.Valid() && forall q | q in n.peers :: n.peers[q].touched <= n.ops
    ensures History(NaiveStep(c, n, Failure(p, now)).0, p) == History(n, p) + [now]
  {
    var m := Naive(n.peers[p := Record(History(n, p) + [now], n.ops)], n.ops + 1);
    assert MoreRecent(m, p) == {};
  }

  /** The request target of `OPTIONS *`: even with protection disabled it does not reach the
      application, is not refused, and leaves the limiter alone. */
  lemma RelativePathRaises(c: Config, pol: Policy, st: State)
    requires pol.mode.Disabled?
    ensures var scope := Scope(Http, Some("OPTIONS"), "*", Some([]), Some("192.0.2.1"));
      Authenticate(pol, scope, 0).Some? && Handle(c, pol, st, Request(scope, 0.0, 0.0, 0)) == (st, Raised)
  {
  }

  // ---------------------------------------------------------------------------
  // Runs

  predicate TimelyRequests(clock: real, rs: seq<Request>)
    decreases |rs|
  {
    rs == [] || (clock <= rs[0].asked <= rs[0].failed && TimelyRequests(rs[0].failed, rs[1..]))
  }

  function Served(c: Config, pol: Policy, st: State, rs: seq<Request>): (State, seq<Outcome>)
    decreases |rs|
  {
    if rs == [] then (st, [])
    else
      var (s, o) := Handle(c, pol, st, rs[0]);
      var (s', os) := Served(c, pol, s, rs[1..]);
      (s', [o] + os)
  }

  function NaiveServed(c: Config, pol: Policy, n: Naive, rs: seq<Request>): (Naive, seq<Outcome>)
    decreases |rs|
  {
    if rs == [] then (n, [])
    else
      var (m, o) := NaiveHandle(c, pol, n, rs[0]);
      var (m', os) := NaiveServed(c, pol, m, rs[1..]);
      (m', [o] + os)
  }

  /** Any `limit + 1` recorded failures in a row span at least the window. */
  predicate Spaced(c: Config, h: seq<real>) {
    forall i, j | 0 <= i && j == i + c.limit < |h| :: h[i] <= h[j] - c.window
  }

  ghost predicate AllSpaced(c: Config, n: Naive) {
    forall p | p in n.peers :: Spaced(c, n.peers[p].history) && Nondecreasing(n.peers[p].history)
  }

  lemma {:induction false} CountAtLeast(h: seq<real>, k: nat, cutoff: real)
    requires k <= |h| && forall i | k <= i < |h| :: h[i] > cutoff
    ensures CountNewer(h, cutoff) >= |h| - k
  {
    if k < |h| { CountAtLeast(h[..|h| - 1], k, cutoff); }
  }

  /** A failure evaluated while fewer than `limit` are in the window keeps the spacing. */
  lemma FailureSpaced(c: Config, h: seq<real>, asked: real, failed: real)
    requires c.Valid() && Spaced(c, h) && Nondecreasing(h) && AllAtMost(h, asked) && asked <= failed
    requires CountNewer(h, asked - c.window) < c.limit
    ensures Spaced(c, h + [failed]) && Nondecreasing(h + [failed])
  {
    hide CountNewer;
    if |h| >= c.limit {
      var k := |h| - c.limit;
      if h[k] > asked - c.window { CountAtLeast(h, k, asked - c.window); }
      assert h[k] <= failed - c.window;
    }
  }

  /** One request keeps the coupling with the naive limiter, the bound on stored peers and the
      spacing of failures, and has the naive limiter's outcome. */
  lemma RequestKeeps(c: Config, pol: Policy, clock: real, st: State, n: Naive, r: Request)
    requires c.Valid() && Coupled(c, clock, st, n) && Tidy(clock, st) && |st| <= c.maximumPeers && AllSpaced(c, n)
    requires clock <= r.asked <= r.failed
    ensures var (s, o) := Handle(c, pol, st, r);
      var (m, o') := NaiveHandle(c, pol, n, r);
      o == o' && Coupled(c, r.failed, s, m) && Tidy(r.failed, s) && |s| <= c.maximumPeers && AllSpaced(c, m)
  {
    hide Coupled, Tidy, Step, NaiveStep, Reply, Has;
    var gate := Gate(pol, r.scope);
    if gate.Some? {
      Later(c, clock, r.failed, st, n);
      LaterTidy(clock, r.failed, st);
    } else {
      EvaluationKeeps(c, pol, clock, st, n, r);
    }
  }

  lemma EvaluationKeeps(c: Config, pol: Policy, clock: real, st: State, n: Naive, r: Request)
    requires c.Valid() && Coupled(c, clock, st, n) && Tidy(clock, st) && |st| <= c.maximumPeers && AllSpaced(c, n)
    requires clock <= r.asked <= r.failed && Gate(pol, r.scope).None?
    ensures var (s, o) := Handle(c, pol, st, r);
      var (m, o') := NaiveHandle(c, pol, n, r);
      o == o' && Coupled(c, r.failed, s, m) && Tidy(r.failed, s) && |s| <= c.maximumPeers && AllSpaced(c, m)
  {
    hide Coupled, Tidy, Step, NaiveStep, Has, Gate, AllSpaced, Authenticate;
    var p := PeerOf(r.scope);
    var look := Lookup(p, r.asked);
    StepRefines(c, clock, st, n, look);
    StepTidy(c, clock, st, look);
    LookupSpaced(c, n, p, r.asked);
    var s1, m1 := Step(c, st, look).0, NaiveStep(c, n, look).0;
    LimitedIsTracked(c, clock, st, p, r.asked);
    var op := Reply(pol, r.scope, r.wall, Step(c, st, look).1.yes, r.failed).0;
    if op.None? {
      Later(c, r.asked, r.failed, s1, m1);
      LaterTidy(r.asked, r.failed, s1);
    } else {
      StepRefines(c, r.asked, s1, m1, op.value);
      StepTidy(c, r.asked, s1, op.value);
      if op.value.Failure? {
        UnlimitedFailureSpaced(c, clock, st, n, p, r.asked, r.failed);
      } else {
        SuccessSpaced(c, m1, p);
        Later(c, r.asked, r.failed, Step(c, s1, op.value).0, NaiveStep(c, m1, op.value).0);
        LaterTidy(r.asked, r.failed, Step(c, s1, op.value).0);
      }
    }
  }

  /** A limited peer already had an entry, so refusing it stores nothing new. */
  lemma LimitedIsTracked(c: Config, clock: real, st: State, p: Peer, now: real)
    requires c.Valid() && Tidy(clock, st)
    ensures Step(c, st, Lookup(p, now)).1.Limited?
    ensures Step(c, st, Lookup(p, now)).1.yes ==> Has(st, p)
  {
    hide Find;
    PruneRecorded(c, st, p, now);
  }

  lemma LookupSpaced(c: Config, n: Naive, p: Peer, now: real)
    requires AllSpaced(c, n)
    ensures AllSpaced(c, NaiveStep(c, n, Lookup(p, now)).0)
  {
    hide Spaced;
    SpacedNone(c);
  }

  lemma SpacedNone(c: Config)
    ensures Spaced(c, [])
  {
  }

  lemma SuccessSpaced(c: Config, n: Naive, p: Peer)
    requires AllSpaced(c, n)
    ensures AllSpaced(c, NaiveStep(c, n, Success(p)).0)
  {
    hide Spaced;
  }

  lemma UnlimitedFailureSpaced(c: Config, clock: real, st: State, n: Naive, p: Peer, asked: real, failed: real)
    requires c.Valid() && Coupled(c, clock, st, n) && clock <= asked <= failed && AllSpaced(c, n)
    requires !NaiveStep(c, n, Lookup(p, asked)).1.yes
    ensures AllSpaced(c, NaiveStep(c, NaiveStep(c, n, Lookup(p, asked)).0, Failure(p, failed)).0)
  {
    hide Spaced, Nondecreasing, CountNewer, NaiveStep, AllSpaced, Coupled, PeerCoupled;
    HistoryWithin(c, clock, st, n, p, asked);
    HistorySpaced(c, n, p);
    LookupKeepsHistory(c, n, p, asked);
    LookupSpaced(c, n, p, asked);
    FailureSpaced(c, History(n, p), asked, failed);
    FailureStepSpaced(c, NaiveStep(c, n, Lookup(p, asked)).0, p, failed);
  }

  lemma HistoryWithin(c: Config, clock: real, st: State, n: Naive, p: Peer, now: real)
    requires Coupled(c, clock, st, n) && clock <= now
    ensures AllAtMost(History(n, p), now)
  {
    hide Coupled, History;
    RecordedCoupled(c, clock, st, n, p);
  }

  lemma HistorySpaced(c: Config, n: Naive, p: Peer)
    requires AllSpaced(c, n)
    ensures Spaced(c, History(n, p)) && Nondecreasing(History(n, p))
  {
    hide Spaced;
    SpacedNone(c);
  }

  lemma LookupKeepsHistory(c: Config, n: Naive, p: Peer, now: real)
    ensures var (m, a) := NaiveStep(c, n, Lookup(p, now));
      History(m, p) == History(n, p) && a == Limited(CountNewer(History(n, p), now - c.window) >= c.limit)
  {
    hide CountNewer;
  }

  lemma FailureStepSpaced(c: Config, n: Naive, p: Peer, now: real)
    requires AllSpaced(c, n) && Spaced(c, History(n, p) + [now]) && Nondecreasing(History(n, p) + [now])
    ensures AllSpaced(c, NaiveStep(c, n, Failure(p, now)).0)
  {
    hide Spaced, Nondecreasing, KeepRecent;
    KeptSpaced(c, Naive(n.peers[p := Record(History(n, p) + [now], n.ops)], n.ops + 1));
  }

  lemma KeptSpaced(c: Config, n: Naive)
    requires AllSpaced(c, n)
    ensures AllSpaced(c, KeepRecent(c, n))
  {
    hide Spaced, Nondecreasing, MoreRecent;
  }

  /** Over every sequential run from an empty limiter: the outcomes are those of the naive
      limiter, stored peers stay within the bound after each request, and each peer's failures
      since its last success or eviction are spaced out. */
  lemma {:induction false} RunGuarantees(c: Config, pol: Policy, clock: real, st: State, n: Naive, rs: seq<Request>)
    requires c.Valid() && Coupled(c, clock, st, n) && Tidy(clock, st) && |st| <= c.maximumPeers && AllSpaced(c, n)
    requires TimelyRequests(clock, rs)
    ensures var (s, os) := Served(c, pol, st, rs);
      var (m, os') := NaiveServed(c, pol, n, rs);
      os == os' && |s| <= c.maximumPeers && AllSpaced(c, m)
    decreases |rs|
  {
    if rs != [] {
      hide Coupled, Tidy, Handle, NaiveHandle, AllSpaced;
      RequestKeeps(c, pol, clock, st, n, rs[0]);
      RunGuarantees(c, pol, rs[0].failed, Handle(c, pol, st, rs[0]).0, NaiveHandle(c, pol, n, rs[0]).0, rs[1..]);
    }
  }

  lemma FreshRunGuarantees(c: Config, pol: Policy, clock: real, rs: seq<Request>)
    requires c.Valid() && TimelyRequests(clock, rs)
    ensures var (s, os) := Served(c, pol, [], rs);
      var (m, os') := NaiveServed(c, pol, Naive(map[], 0), rs);
      && os == os' && |s| <= c.maximumPeers
      && forall p: Peer, i: nat, j: nat | i + c.limit <= j < |History(m, p)| ::
           History(m, p)[j] - History(m, p)[i] >= c.window
  {
    hide Served, NaiveServed, Spaced;
    RunGuarantees(c, pol, clock, [], Naive(map[], 0), rs);
    var m := NaiveServed(c, pol, Naive(map[], 0), rs).0;
    forall p: Peer, i: nat, j: nat | i + c.limit <= j < |History(m, p)|
      ensures History(m, p)[j] - History(m, p)[i] >= c.window
    {
      WindowHoldsAtMostLimit(c, History(m, p), i, j);
    }
  }

  /** Spacing read as a window: more than `limit` failures span at least the window, so no
      half-open window of that length holds more than `limit` of them. */
  lemma {:induction false} WindowHoldsAtMostLimit(c: Config, h: seq<real>, i: nat, j: nat)
    requires c.Valid() && Spaced(c, h) && Nondecreasing(h) && i + c.limit <= j < |h|
    ensures h[j] - h[i] >= c.window
  {
    var k := i + c.limit;
    assert h[i] <= h[k] - c.window;
  }

  class AuthenticationMiddleware {
    const policy: Policy
    const limiter: AuthenticationFailureLimiter

    constructor (policy: Policy, limiter: AuthenticationFailureLimiter)
      ensures this.policy == policy && this.limiter == limiter
    {
      this.policy := policy;
      this.limiter := limiter;
    }

    /** `asked` and `failed` are the clock readings of the two limiter calls, `wall` that of the
        session codec. */
    method Call(scope: Scope, asked: real, failed: real, wall: int) returns (o: Outcome)
      requires limiter.Valid()
      modifies limiter
      ensures limiter.Valid()
      ensures (limiter.entries, o) ==
              Handle(limiter.config, policy, old(limiter.entries), Request(scope, asked, failed, wall))
    {
      hide Step, Authenticate, Verb, CsrfPasses;
      if scope.kind.OtherScope? {
        return ReachedApp(None);
      }
      var small := HeadersWithinLimit(scope);
      if !small {
        return Rejected(431);
      }
      if scope.kind.Http? && !("/" <= scope.path) {
        return Raised;
      }
      if scope.kind.Http? && (Verb(scope), scope.path) in policy.publicRoutes {
        return ReachedApp(None);
      }
      var peer := PeerOf(scope);
      var limited := limiter.IsLimited(peer, asked);
      if limited {
        return Rejected(429);
      }
      var admission := AuthenticateScope(policy, scope, wall);
      if admission.None? {
        limiter.RecordFailure(peer, failed);
        if scope.kind.Http? && Verb(scope) == "GET" && scope.path == "/" && policy.mode.OwnerToken? {
          return RedirectedToLogin;
        }
        return Rejected(401);
      }
      limiter.RecordSuccess(peer);
      if NeedsCsrf(scope, admission.value) {
        var passes := VerifyCsrf(policy, scope, admission.value);
        if !passes {
          return Rejected(403);
        }
      }
      return ReachedApp(Some(admission.value.mechanism));
    }
  }
}
