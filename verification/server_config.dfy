/** The HTTP server's configuration decisions: which browser origins the
    CORS policy admits, and how the session middleware is set up. */
module ServerConfig {
  import opened Wrappers
  import opened Text

  /** The environment variables read here. */
  datatype ServerEnv = ServerEnv(frontendUrl: Option<string>, sessionSecret: Option<string>, nodeEnv: Option<string>)

  /** A truthy environment variable: present and non-empty. */
  predicate Present(v: Option<string>) {
    v.Some? && v.value != ""
  }

  // ---------------------------------------------------------------------
  // CORS
  // ---------------------------------------------------------------------

  const DevOrigin: string := "http://localhost:5173"

  /** The fixed allow-list; its first entry is the configured frontend. */
  function AllowedOrigins(env: ServerEnv): seq<string> {
    [ if Present(env.frontendUrl) then env.frontendUrl.value else DevOrigin,
      DevOrigin,
      "http://10.0.0.2:5173",
      "http://127.0.0.1:5173"]
  }

  /** `\d+`. */
  predicate Number(s: string) {
    |s| > 0 && AllDigits(s)
  }

  /** `^p\d+s$`: `o` is `p`, a number and `s`. */
  predicate NumberBetween(o: string, p: string, s: string) {
    |p| + |s| < |o| && StartsWith(o, p) && EndsWith(o, s) && Number(o[|p|..|o| - |s|])
  }

  /** `\d+\.\d+`: two numbers around the first dot. */
  predicate DottedPair(m: string) {
    var k := IndexOf(m, '.');
    0 <= k && Number(m[..k]) && Number(m[k + 1..])
  }

  /** `^p\d+\.\d+s$`. */
  predicate PairBetween(o: string, p: string, s: string) {
    |p| + |s| < |o| && StartsWith(o, p) && EndsWith(o, s) && DottedPair(o[|p|..|o| - |s|])
  }

  /** The five origin patterns: LAN hosts on the dev port, and localhost
      and the loopback address on any port. */
  predicate MatchesOriginPattern(o: string) {
    || NumberBetween(o, "http://10.0.0.", ":5173")
    || PairBetween(o, "http://192.168.", ":5173")
    || PairBetween(o, "http://172.16.", ":5173")
    || NumberBetween(o, "http://localhost:", "")
    || NumberBetween(o, "http://127.0.0.1:", "")
  }

  /** The `origin` callback: requests without an origin, origins on the
      allow-list and origins matching a pattern are admitted; any other
      origin gets the CORS error. */
  function CorsAllows(env: ServerEnv, origin: Option<string>): (ok: bool)
    ensures !Present(origin) ==> ok
    ensures Present(origin) ==> (ok <==> origin.value in AllowedOrigins(env) || OriginPatternSpec(origin.value))
  {
    if !Present(origin) then true
    else
      OriginPatternsMeanSpec(origin.value);
      origin.value in AllowedOrigins(env) || MatchesOriginPattern(origin.value)
  }

  /** The patterns written as the set of strings they denote. */
  ghost predicate OriginPatternSpec(o: string) {
    || (exists d :: Number(d) && o == "http://10.0.0." + d + ":5173")
    || (exists a, b :: Number(a) && Number(b) && o == "http://192.168." + a + "." + b + ":5173")
    || (exists a, b :: Number(a) && Number(b) && o == "http://172.16." + a + "." + b + ":5173")
    || (exists d :: Number(d) && o == "http://localhost:" + d)
    || (exists d :: Number(d) && o == "http://127.0.0.1:" + d)
  }

  /** The scanning definition of each pattern admits exactly the strings
      the pattern denotes. */
  lemma OriginPatternsMeanSpec(o: string)
    ensures MatchesOriginPattern(o) <==> OriginPatternSpec(o)
  {
    NumberBetweenIff(o, "http://10.0.0.", ":5173");
    PairBetweenIff(o, "http://192.168.", ":5173");
    PairBetweenIff(o, "http://172.16.", ":5173");
    NumberBetweenIff(o, "http://localhost:", "");
    NumberBetweenIff(o, "http://127.0.0.1:", "");
    assert forall d: string :: "http://localhost:" + d + "" == "http://localhost:" + d;
    assert forall d: string :: "http://127.0.0.1:" + d + "" == "http://127.0.0.1:" + d;
  }

  lemma NumberBetweenIff(o: string, p: string, s: string)
    ensures NumberBetween(o, p, s) <==> exists d :: Number(d) && o == p + d + s
  {
    if NumberBetween(o, p, s) {
      FrameJoin(o, p, s);
    }
    if exists d :: Number(d) && o == p + d + s {
      var d :| Number(d) && o == p + d + s;
      FrameSplit(o, p, d, s);
    }
  }

  lemma PairBetweenIff(o: string, p: string, s: string)
    ensures PairBetween(o, p, s) <==> exists a, b :: Number(a) && Number(b) && o == p + a + "." + b + s
  {
    if PairBetween(o, p, s) {
      var m := o[|p|..|o| - |s|];
      FrameJoin(o, p, s);
      var a, b := DottedPairParts(m);
      assert o == p + a + "." + b + s by {
        DotAssociates(p, a, b, s);
      }
    }
    if exists a, b :: Number(a) && Number(b) && o == p + a + "." + b + s {
      var a, b :| Number(a) && Number(b) && o == p + a + "." + b + s;
      DotAssociates(p, a, b, s);
      FrameSplit(o, p, a + "." + b, s);
      DottedPairOfParts(a, b);
    }
  }

  /** A string framed by `p` and `s` is `p`, its middle and `s`. */
  lemma FrameJoin(o: string, p: string, s: string)
    requires |p| + |s| <= |o| && StartsWith(o, p) && EndsWith(o, s)
    ensures o == p + o[|p|..|o| - |s|] + s
  {
    assert o == o[..|p|] + o[|p|..|o| - |s|] + o[|o| - |s|..];
  }

  /** `p`, a middle and `s` put together are framed by `p` and `s`. */
  lemma FrameSplit(o: string, p: string, m: string, s: string)
    requires o == p + m + s
    ensures |p| + |s| + |m| == |o| && StartsWith(o, p) && EndsWith(o, s) && o[|p|..|o| - |s|] == m
  {
    assert o[..|p|] == p;
    assert o[|o| - |s|..] == s;
    assert o[|p|..|o| - |s|] == m;
  }

  lemma DotAssociates(p: string, a: string, b: string, s: string)
    ensures p + a + "." + b + s == p + (a + "." + b) + s
  {
  }

  /** The two numbers of a dotted pair, around its first dot. */
  lemma DottedPairParts(m: string) returns (a: string, b: string)
    requires DottedPair(m)
    ensures Number(a) && Number(b) && m == a + "." + b
  {
    var k := IndexOf(m, '.');
    a, b := m[..k], m[k + 1..];
    assert m == m[..k] + [m[k]] + m[k + 1..];
  }

  /** Two numbers around a dot make a dotted pair: a number has no dot,
      so the dot between them is the first. */
  lemma DottedPairOfParts(a: string, b: string)
    requires Number(a) && Number(b)
    ensures DottedPair(a + "." + b)
  {
    var m := a + "." + b;
    assert m[|a|] == '.';
    assert forall i :: 0 <= i < |a| ==> m[i] == a[i] && IsDigit(a[i]);
    assert IndexOf(m, '.') == |a|;
    assert m[..|a|] == a;
    assert m[|a| + 1..] == b;
  }

  // ---------------------------------------------------------------------
  // Session
  // ---------------------------------------------------------------------

  predicate IsProduction(env: ServerEnv) {
    env.nodeEnv == Some("production")
  }

  const FallbackSecret: string := "fallback-secret-dev-only"

  /** A day in milliseconds, the session cookie's lifetime. */
  const DayMillis: nat := 24 * 60 * 60 * 1000

  datatype SameSite = Strict | Lax

  datatype Cookie = Cookie(secure: bool, httpOnly: bool, maxAge: nat, sameSite: SameSite)

  datatype SessionSettings = SessionSettings(secret: string, resave: bool, saveUninitialized: bool, cookie: Cookie)

  /** The session options; a production server without a secret refuses to
      start. */
  function Session(env: ServerEnv): (r: Result<SessionSettings, string>)
    ensures r.Err? <==> IsProduction(env) && !Present(env.sessionSecret)
    ensures r.Ok? ==> r.value.secret != ""
    ensures r.Ok? && Present(env.sessionSecret) ==> r.value.secret == env.sessionSecret.value
    ensures r.Ok? && !Present(env.sessionSecret) ==> r.value.secret == FallbackSecret
    ensures r.Ok? ==> r.value.cookie.httpOnly && r.value.cookie.maxAge == 86400000
    ensures r.Ok? ==> !r.value.resave && !r.value.saveUninitialized
    ensures r.Ok? ==> (r.value.cookie.secure <==> IsProduction(env))
    ensures r.Ok? ==> (r.value.cookie.sameSite == Strict <==> IsProduction(env))
  {
    var secret :=
      if Present(env.sessionSecret) then Ok(env.sessionSecret.value)
      else if IsProduction(env) then Err("SESSION_SECRET must be set in production")
      else Ok(FallbackSecret);
    match secret
    case Err(e) => Err(e)
    case Ok(s) =>
      Ok(SessionSettings(s, false, false,
        Cookie(IsProduction(env), true, DayMillis, if IsProduction(env) then Strict else Lax)))
  }

  /** A production server never runs on the development secret unless it
      was configured with it, and its cookie is secure and strict. */
  lemma ProductionSessionIsHardened(env: ServerEnv)
    requires IsProduction(env) && Session(env).Ok?
    ensures Session(env).value.secret == env.sessionSecret.value
    ensures Session(env).value.cookie.secure && Session(env).value.cookie.sameSite == Strict
  {
  }
}
