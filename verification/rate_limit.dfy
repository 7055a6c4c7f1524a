/** The rate-limit filter: every request outside a few excluded paths draws one token from
    a bucket chosen by client identity (the user name when logged in, the client address
    otherwise). The registry creates a bucket on first use, with the auth-endpoint or the
    API limits depending on that first request. Token refill over time is not modelled:
    a bucket's `tokens` is what it holds when the request arrives. */
module RateLimit {
  import opened Wrappers
  import opened Errors
  import opened Text

  // ---------------------------------------------------------------------------
  // Paths
  // ---------------------------------------------------------------------------

  /** Documentation, health check and favicon are never limited. */
  predicate IsExcluded(path: string) {
    StartsWith(path, "/v3/api-docs") || StartsWith(path, "/swagger-ui")
    || StartsWith(path, "/actuator/health") || path == "/favicon.ico"
  }

  predicate IsAuthEndpoint(path: string) {
    StartsWith(path, "/api/v1/auth")
  }

  // ---------------------------------------------------------------------------
  // The client address and `String.split`
  // ---------------------------------------------------------------------------

  /** The text between separators, every piece kept (no separator means one piece). */
  function Pieces(s: string, sep: char): (ps: seq<string>)
    ensures |ps| >= 1
    decreases |s|
  {
    if sep !in s then [s]
    else
      var head := BeforeFirst(s, sep);
      [head] + Pieces(s[|head| + 1..], sep)
  }

  /** Trailing empty strings removed. */
  function DropTrailingEmpty(ps: seq<string>): (r: seq<string>)
    ensures |r| <= |ps| && r == ps[..|r|]
    ensures |r| == 0 <==> forall i :: 0 <= i < |ps| ==> ps[i] == ""
  {
    if |ps| == 0 then []
    else if ps[|ps| - 1] == "" then
      var r := DropTrailingEmpty(ps[..|ps| - 1]);
      assert forall i :: 0 <= i < |ps| - 1 ==> ps[..|ps| - 1][i] == ps[i];
      r
    else ps
  }

  /** Java's `s.split(regex)` for a one-character separator: the pieces, with trailing
      empty pieces removed, except that a string without the separator comes back whole. */
  function JavaSplit(s: string, sep: char): seq<string> {
    if sep !in s then [s] else DropTrailingEmpty(Pieces(s, sep))
  }

  predicate AllSeparators(s: string, sep: char) {
    forall i :: 0 <= i < |s| ==> s[i] == sep
  }

  predicate AllEmpty(ps: seq<string>) {
    forall i :: 0 <= i < |ps| ==> ps[i] == ""
  }

  lemma AllEmptyCons(head: string, tail: seq<string>)
    ensures AllEmpty([head] + tail) <==> head == "" && AllEmpty(tail)
  {
    var ps := [head] + tail;
    assert ps[0] == head;
    assert forall i :: 0 <= i < |tail| ==> tail[i] == ps[i + 1];
  }

  lemma AllSeparatorsCons(s: string, sep: char)
    requires |s| > 0
    ensures AllSeparators(s, sep) <==> s[0] == sep && AllSeparators(s[1..], sep)
  {
    assert forall i :: 1 <= i < |s| ==> s[i] == s[1..][i - 1];
  }

  /** The first piece is the text before the first separator. */
  lemma PiecesHead(s: string, sep: char)
    ensures Pieces(s, sep)[0] == BeforeFirst(s, sep)
  {
  }

  /** Every piece is empty exactly when the string is nothing but separators. */
  lemma {:induction false} PiecesAllEmpty(s: string, sep: char)
    ensures AllEmpty(Pieces(s, sep)) <==> AllSeparators(s, sep)
    decreases |s|
  {
    if sep !in s {
      if |s| > 0 {
        assert Pieces(s, sep)[0] == s;
        assert s[0] != sep by { assert s[0] in s; }
      }
    } else {
      var head := BeforeFirst(s, sep);
      var rest := s[|head| + 1..];
      PiecesAllEmpty(rest, sep);
      AllEmptyCons(head, Pieces(rest, sep));
      AllSeparatorsCons(s, sep);
      if head == "" {
        assert rest == s[1..];
      } else {
        assert s[0] == head[0] && head[0] != sep by { assert head[0] in head; }
      }
    }
  }

  /** For a non-empty string, `split(",")` is empty exactly when the string is only
      commas; otherwise its first element is the text before the first comma. */
  lemma SplitFirstElement(s: string, sep: char)
    requires |s| > 0
    ensures |JavaSplit(s, sep)| == 0 <==> AllSeparators(s, sep)
    ensures |JavaSplit(s, sep)| > 0 ==> JavaSplit(s, sep)[0] == BeforeFirst(s, sep)
  {
    PiecesAllEmpty(s, sep);
    PiecesHead(s, sep);
    if sep !in s {
      assert s[0] != sep by { assert s[0] in s; }
    }
  }

  /** `getClientIp` as written: the remote address when the header is absent or empty,
      otherwise element 0 of `split(",")`, which does not exist (an exception, so a server
      error) when the header is only commas. */
  function ClientIpAsWritten(forwardedFor: Option<string>, remoteAddr: string): (r: Result<string, Error>)
    ensures forwardedFor.None? || forwardedFor.value == "" ==> r == Success(remoteAddr)
    ensures forwardedFor.Some? && forwardedFor.value != "" ==>
              (r.Failure? <==> AllSeparators(forwardedFor.value, ','))
    ensures forwardedFor.Some? && r.Success? && forwardedFor.value != "" ==>
              r.value == BeforeFirst(forwardedFor.value, ',')
  {
    if forwardedFor.None? || forwardedFor.value == "" then Success(remoteAddr)
    else
      var parts := JavaSplit(forwardedFor.value, ',');
      SplitFirstElement(forwardedFor.value, ',');
      if |parts| == 0 then Failure(Unexpected("Index 0 out of bounds for length 0"))
      else Success(parts[0])
  }

  /** The corrected `getClientIp`: the text before the first comma (empty when the header
      starts with one), with no failure case. */
  function ClientIp(forwardedFor: Option<string>, remoteAddr: string): (r: string)
    ensures forwardedFor.None? || forwardedFor.value == "" ==> r == remoteAddr
    ensures forwardedFor.Some? && forwardedFor.value != "" ==> ',' !in r && StartsWith(forwardedFor.value, r)
  {
    if forwardedFor.None? || forwardedFor.value == "" then remoteAddr
    else BeforeFirst(forwardedFor.value, ',')
  }

  /** The two agree wherever the original does not fail; a header of only commas is
      where they part. */
  lemma ClientIpAgreesWhereDefined(forwardedFor: Option<string>, remoteAddr: string)
    ensures ClientIpAsWritten(forwardedFor, remoteAddr).Success? ==>
              ClientIpAsWritten(forwardedFor, remoteAddr).value == ClientIp(forwardedFor, remoteAddr)
    ensures ClientIpAsWritten(Some(","), remoteAddr).Failure?
    ensures ClientIp(Some(","), remoteAddr) == ""
  {
    assert AllSeparators(",", ',');
  }

  // ---------------------------------------------------------------------------
  // Keys
  // ---------------------------------------------------------------------------

  /** The security context's authentication. `principal` is the principal when it is a
      plain string (the anonymous token's is "anonymousUser"), `None` for a user object. */
  datatype Authentication = Authentication(authenticated: bool, principal: Option<string>, name: string)

  const AnonymousPrincipal := "anonymousUser"

  predicate IsUser(auth: Option<Authentication>) {
    auth.Some? && auth.value.authenticated && auth.value.principal != Some(AnonymousPrincipal)
  }

  /** `resolveKey`. */
  function ResolveKey(auth: Option<Authentication>, forwardedFor: Option<string>, remoteAddr: string): (key: string)
    ensures IsUser(auth) ==> key == "user:" + auth.value.name
    ensures !IsUser(auth) ==> key == "ip:" + ClientIp(forwardedFor, remoteAddr)
  {
    if IsUser(auth) then "user:" + auth.value.name else "ip:" + ClientIp(forwardedFor, remoteAddr)
  }

  /** `resolveKey` as written: the address part fails where `getClientIp` throws. Users
      never reach `getClientIp`, so their key cannot fail. */
  function ResolveKeyAsWritten(auth: Option<Authentication>, forwardedFor: Option<string>, remoteAddr: string)
    : (r: Result<string, Error>)
    ensures IsUser(auth) ==> r == Success("user:" + auth.value.name)
    ensures !IsUser(auth) ==> (r.Failure? <==> ClientIpAsWritten(forwardedFor, remoteAddr).Failure?)
    ensures r.Success? ==> r.value == ResolveKey(auth, forwardedFor, remoteAddr)
  {
    if IsUser(auth) then Success("user:" + auth.value.name)
    else
      ClientIpAgreesWhereDefined(forwardedFor, remoteAddr);
      var ip :- ClientIpAsWritten(forwardedFor, remoteAddr);
      Success("ip:" + ip)
  }

  /** A user key never equals an address key, whatever the name and address. */
  lemma UserAndIpKeysDiffer(name: string, ip: string)
    ensures "user:" + name != "ip:" + ip
  {
    assert ("user:" + name)[0] == 'u' && ("ip:" + ip)[0] == 'i';
  }

  // ---------------------------------------------------------------------------
  // Retry-After
  // ---------------------------------------------------------------------------

  const NanosPerSecond := 1_000_000_000

  /** Java's `long` division, which truncates toward zero. */
  function JavaDiv(a: int, b: int): int
    requires b > 0
  {
    if a >= 0 then a / b else -((-a) / b)
  }

  /** The whole seconds until refill, at least one. */
  function RetryAfter(nanosToWait: int): (r: int)
    ensures r >= 1
    ensures r == 1 <==> nanosToWait < 2 * NanosPerSecond
    ensures nanosToWait >= NanosPerSecond ==> r * NanosPerSecond <= nanosToWait < (r + 1) * NanosPerSecond
  {
    var w := JavaDiv(nanosToWait, NanosPerSecond);
    if w < 1 then 1 else w
  }

  // ---------------------------------------------------------------------------
  // The bucket registry
  // ---------------------------------------------------------------------------

  datatype BucketConfig = BucketConfig(capacity: nat, refillTokens: nat, refillSeconds: nat)

  /** The configured limits for auth endpoints and for everything else. */
  datatype Limits = Limits(auth: BucketConfig, api: BucketConfig)

  datatype Bucket = Bucket(config: BucketConfig, tokens: nat)

  type Registry = map<string, Bucket>

  function ConfigFor(limits: Limits, isAuthEndpoint: bool): BucketConfig {
    if isAuthEndpoint then limits.auth else limits.api
  }

  /** `resolveBucket` (`computeIfAbsent`): an existing bucket is returned as is; otherwise a
      full bucket with the limits for this request's kind is created. */
  function ResolveBucket(reg: Registry, limits: Limits, key: string, isAuthEndpoint: bool): (r: (Registry, Bucket))
    ensures key in r.0 && r.0[key] == r.1
    ensures key in reg ==> r == (reg, reg[key])
    ensures key !in reg ==>
              (r.0 == reg[key := r.1]
               && r.1.config == ConfigFor(limits, isAuthEndpoint) && r.1.tokens == r.1.config.capacity)
  {
    if key in reg then (reg, reg[key])
    else
      var b := Bucket(ConfigFor(limits, isAuthEndpoint), ConfigFor(limits, isAuthEndpoint).capacity);
      (reg[key := b], b)
  }

  /** `clearBuckets`. */
  function ClearBuckets(reg: Registry): (r: Registry)
    ensures |r| == 0
  {
    map[]
  }

  /** The first request for a key fixes its limits: a later request of the other kind
      resolves the same bucket. Auth and API requests of one client share the bucket. */
  lemma FirstResolveFixesLimits(reg: Registry, limits: Limits, key: string, first: bool, later: bool)
    ensures var (reg1, b1) := ResolveBucket(reg, limits, key, first);
            ResolveBucket(reg1, limits, key, later) == (reg1, b1)
  {
  }

  /** After clearing, the next resolve creates a fresh, full bucket. */
  lemma ClearThenResolveIsFresh(reg: Registry, limits: Limits, key: string, isAuthEndpoint: bool)
    ensures var b := ResolveBucket(ClearBuckets(reg), limits, key, isAuthEndpoint).1;
            b.config == ConfigFor(limits, isAuthEndpoint) && b.tokens == b.config.capacity
  {
  }

  // ---------------------------------------------------------------------------
  // The filter
  // ---------------------------------------------------------------------------

  /** What the filter does with a request: passes it on, answers 429 itself, or throws
      (the servlet container then answers with a server error). */
  datatype Outcome =
    | PassedOn
    | Rejected(status: int, retryAfter: int, body: string)
    | Failed(error: Error)

  const TooManyRequestsBody := "{ \"message\": \"Too many requests. Please try again later.\", \"status\": 429 }"

  /** One request through the filter. `nanosToWait` is what the bucket reports when it
      refuses a token. */
  function Filter(reg: Registry, limits: Limits, path: string, auth: Option<Authentication>,
                  forwardedFor: Option<string>, remoteAddr: string, nanosToWait: int): (r: (Registry, Outcome))
    ensures IsExcluded(path) ==> r == (reg, PassedOn)
    ensures !IsExcluded(path) ==>
              var key := ResolveKey(auth, forwardedFor, remoteAddr);
              var (reg1, b) := ResolveBucket(reg, limits, key, IsAuthEndpoint(path));
              && r.0.Keys == reg1.Keys
              && (forall k :: k in reg1 && k != key ==> r.0[k] == reg1[k])
              && (b.tokens > 0 ==> r.1 == PassedOn && r.0[key] == b.(tokens := b.tokens - 1))
              && (b.tokens == 0 ==>
                    r.1 == Rejected(429, RetryAfter(nanosToWait), TooManyRequestsBody) && r.0 == reg1)
  {
    if IsExcluded(path) then (reg, PassedOn)
    else
      var key := ResolveKey(auth, forwardedFor, remoteAddr);
      var (reg1, b) := ResolveBucket(reg, limits, key, IsAuthEndpoint(path));
      if b.tokens > 0 then (reg1[key := b.(tokens := b.tokens - 1)], PassedOn)
      else (reg1, Rejected(429, RetryAfter(nanosToWait), TooManyRequestsBody))
  }

  /** The filter as written: when the key cannot be resolved, the exception leaves the
      filter before any bucket is touched. */
  function FilterAsWritten(reg: Registry, limits: Limits, path: string, auth: Option<Authentication>,
                           forwardedFor: Option<string>, remoteAddr: string, nanosToWait: int): (r: (Registry, Outcome))
    ensures IsExcluded(path) ==> r == (reg, PassedOn)
    ensures !IsExcluded(path) && ResolveKeyAsWritten(auth, forwardedFor, remoteAddr).Failure? ==>
              r == (reg, Failed(ResolveKeyAsWritten(auth, forwardedFor, remoteAddr).error))
    ensures r.1.Failed? ==> r.0 == reg && r.1.error.Unexpected?
  {
    if IsExcluded(path) then (reg, PassedOn)
    else
      match ResolveKeyAsWritten(auth, forwardedFor, remoteAddr)
      case Failure(e) => (reg, Failed(e))
      case Success(key) =>
        var (reg1, b) := ResolveBucket(reg, limits, key, IsAuthEndpoint(path));
        if b.tokens > 0 then (reg1[key := b.(tokens := b.tokens - 1)], PassedOn)
        else (reg1, Rejected(429, RetryAfter(nanosToWait), TooManyRequestsBody))
  }

  /** The two filters agree on every request except an anonymous one whose
      `X-Forwarded-For` is nothing but commas; there the filter as written fails and
      leaves the registry alone, while the corrected one draws from the bucket "ip:". */
  lemma FilterAgreesUnlessOnlyCommas(reg: Registry, limits: Limits, path: string, auth: Option<Authentication>,
                                     forwardedFor: Option<string>, remoteAddr: string, nanosToWait: int)
    ensures var onlyCommas := !IsExcluded(path) && !IsUser(auth) && forwardedFor.Some? && forwardedFor.value != ""
                              && AllSeparators(forwardedFor.value, ',');
      && (!onlyCommas ==>
            FilterAsWritten(reg, limits, path, auth, forwardedFor, remoteAddr, nanosToWait)
            == Filter(reg, limits, path, auth, forwardedFor, remoteAddr, nanosToWait))
      && (onlyCommas ==>
            && FilterAsWritten(reg, limits, path, auth, forwardedFor, remoteAddr, nanosToWait).0 == reg
            && FilterAsWritten(reg, limits, path, auth, forwardedFor, remoteAddr, nanosToWait).1.Failed?
            && ResolveKey(auth, forwardedFor, remoteAddr) == "ip:")
  {
    if !IsExcluded(path) && !IsUser(auth) && forwardedFor.Some? && forwardedFor.value != ""
       && AllSeparators(forwardedFor.value, ',') {
      var h := forwardedFor.value;
      assert h[0] == ',';
      assert BeforeFirst(h, ',') == "";
    }
  }

  /** A request to an excluded path passes and leaves the registry as it was. */
  lemma ExcludedNeverConsume(reg: Registry, limits: Limits, path: string, auth: Option<Authentication>,
                             forwardedFor: Option<string>, remoteAddr: string, nanosToWait: int)
    requires IsExcluded(path)
    ensures Filter(reg, limits, path, auth, forwardedFor, remoteAddr, nanosToWait) == (reg, PassedOn)
  {
  }

  /** A logged-in user whose bucket is empty is refused, and that refusal leaves the
      anonymous address bucket untouched: an unauthenticated request from the same address
      still passes when its bucket holds a token. */
  lemma ExhaustedUserLeavesIpBucket(reg: Registry, limits: Limits, path: string, user: Authentication,
                                    forwardedFor: Option<string>, remoteAddr: string, nanosToWait: int)
    requires !IsExcluded(path) && IsUser(Some(user))
    requires "user:" + user.name in reg && reg["user:" + user.name].tokens == 0
    requires "ip:" + ClientIp(forwardedFor, remoteAddr) in reg
    requires reg["ip:" + ClientIp(forwardedFor, remoteAddr)].tokens > 0
    ensures var (reg1, o1) := Filter(reg, limits, path, Some(user), forwardedFor, remoteAddr, nanosToWait);
            && o1.Rejected?
            && Filter(reg1, limits, path, None, forwardedFor, remoteAddr, nanosToWait).1 == PassedOn
  {
    UserAndIpKeysDiffer(user.name, ClientIp(forwardedFor, remoteAddr));
  }

  /** A bucket holding at least `n` tokens admits `n` requests in a row, each drawing one
      token; when it held exactly `n`, the next request is refused (no refill). */
  lemma {:induction false} CapacityRequestsPass(reg: Registry, limits: Limits, path: string,
                                                auth: Option<Authentication>, forwardedFor: Option<string>,
                                                remoteAddr: string, nanosToWait: int, n: nat)
    requires !IsExcluded(path)
    requires var key := ResolveKey(auth, forwardedFor, remoteAddr);
             key in reg && reg[key].tokens >= n
    ensures var key := ResolveKey(auth, forwardedFor, remoteAddr);
            var after := Repeat(reg, limits, path, auth, forwardedFor, remoteAddr, nanosToWait, n);
            && after.1 && key in after.0 && after.0[key].tokens == reg[key].tokens - n
            && (reg[key].tokens == n ==>
                  Filter(after.0, limits, path, auth, forwardedFor, remoteAddr, nanosToWait).1.Rejected?)
    decreases n
  {
    if n > 0 {
      var (reg1, _) := Filter(reg, limits, path, auth, forwardedFor, remoteAddr, nanosToWait);
      CapacityRequestsPass(reg1, limits, path, auth, forwardedFor, remoteAddr, nanosToWait, n - 1);
    }
  }

  /** `n` identical requests in a row; the flag says whether all passed. */
  function Repeat(reg: Registry, limits: Limits, path: string, auth: Option<Authentication>,
                  forwardedFor: Option<string>, remoteAddr: string, nanosToWait: int, n: nat): (Registry, bool)
    decreases n
  {
    if n == 0 then (reg, true)
    else
      var (reg1, o) := Filter(reg, limits, path, auth, forwardedFor, remoteAddr, nanosToWait);
      var (reg2, rest) := Repeat(reg1, limits, path, auth, forwardedFor, remoteAddr, nanosToWait, n - 1);
      (reg2, o == PassedOn && rest)
  }
}
