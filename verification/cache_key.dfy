/** The list-cache key generator. A key is
      username ":" roles ":" version ":" methodName ":" p1 "|" p2 "|" ...
    where `version` is the caller's entry in the `taskVersions` cache. Advancing that
    entry makes every earlier list key of the caller unreachable. */
module CacheKey {
  import opened Wrappers
  import opened Text

  /** The authenticated principal: its name and its granted authority names, in order. */
  datatype Authentication = Authentication(name: string, authorities: seq<string>)

  /** The `taskVersions` cache: username to version text. */
  type VersionCache = map<string, string>

  /** A method argument: `null`, or an object with its `toString()` text. */
  datatype Param = Null | Value(text: string)

  const Anonymous := "anonymous"
  const InitialVersion := "0"

  function Username(auth: Option<Authentication>): string {
    if auth.Some? then auth.value.name else Anonymous
  }

  /** The authority names joined by ",", or empty without an authentication. */
  function Roles(auth: Option<Authentication>): string {
    if auth.Some? then Join(auth.value.authorities, ",") else ""
  }

  /** Each argument's text (or `null`) followed by "|". */
  function ParamsText(params: seq<Param>): string {
    if |params| == 0 then ""
    else (if params[0].Null? then "null" else params[0].text) + "|" + ParamsText(params[1..])
  }

  function Layout(username: string, roles: string, version: string, methodName: string,
                  params: seq<Param>): string
  {
    username + ":" + roles + ":" + version + ":" + methodName + ":" + ParamsText(params)
  }

  /** The version used in the key, and the version cache afterwards. Only an authenticated
      caller with a version cache reads it; a missing entry is read as "0" and written back. */
  function ReadVersion(versions: Option<VersionCache>, auth: Option<Authentication>): (r: (string, Option<VersionCache>))
    ensures auth.None? || versions.None? ==> r == (InitialVersion, versions)
    ensures auth.Some? && versions.Some? ==>
              var name := auth.value.name;
              && r.1.Some?
              && name in r.1.value && r.1.value[name] == r.0
              && (name in versions.value ==> r.0 == versions.value[name] && r.1 == versions)
              && (name !in versions.value ==> r.0 == InitialVersion)
              && r.1.value.Keys == versions.value.Keys + {name}
              && (forall u :: u in versions.value && u != name ==> r.1.value[u] == versions.value[u])
  {
    if versions.Some? && auth.Some? then
      var name := auth.value.name;
      if name in versions.value then (versions.value[name], versions)
      else (InitialVersion, Some(versions.value[name := InitialVersion]))
    else (InitialVersion, versions)
  }

  /** `generate`: the key for a call of `methodName` with `params`, and the version cache
      afterwards. */
  function Generate(versions: Option<VersionCache>, auth: Option<Authentication>, methodName: string,
                    params: seq<Param>): (r: (string, Option<VersionCache>))
    ensures r.1 == ReadVersion(versions, auth).1
    ensures r.0 == Layout(Username(auth), Roles(auth), ReadVersion(versions, auth).0, methodName, params)
  {
    var (version, versions') := ReadVersion(versions, auth);
    (Layout(Username(auth), Roles(auth), version, methodName, params), versions')
  }

  /** Without an authentication the key is anonymous, role-less, at version "0", and the
      version cache is not touched. */
  lemma AnonymousKey(versions: Option<VersionCache>, methodName: string, params: seq<Param>)
    ensures Generate(versions, None, methodName, params) ==
            (Anonymous + ":" + "" + ":" + InitialVersion + ":" + methodName + ":" + ParamsText(params), versions)
  {
  }

  /** A first call stores "0" for the caller, and a repeat call (no write in between) yields
      the same key and changes nothing more. No other user's entry is created. */
  lemma FirstObservationIsStable(m: VersionCache, auth: Authentication, methodName: string, params: seq<Param>,
                                 other: string)
    requires auth.name !in m && other != auth.name
    ensures var (key1, after1) := Generate(Some(m), Some(auth), methodName, params);
            && after1 == Some(m[auth.name := InitialVersion])
            && Generate(after1, Some(auth), methodName, params) == (key1, after1)
            && (other in after1.value <==> other in m)
  {
  }

  /** With everything else fixed, two different digit-string versions give two different
      keys: the ":" after the version cannot be mistaken for a digit. */
  lemma {:induction false} VersionsSeparateKeys(username: string, roles: string, v1: string, v2: string,
                                                methodName: string, params: seq<Param>)
    requires IsDigits(v1) && IsDigits(v2) && v1 != v2
    ensures Layout(username, roles, v1, methodName, params) != Layout(username, roles, v2, methodName, params)
  {
    var p := username + ":" + roles + ":";
    var s := ":" + methodName + ":" + ParamsText(params);
    var k1 := Layout(username, roles, v1, methodName, params);
    var k2 := Layout(username, roles, v2, methodName, params);
    assert k1 == p + v1 + s;
    assert k2 == p + v2 + s;
    if |v1| == |v2| {
      assert k1[|p|..|p| + |v1|] == v1;
      assert k2[|p|..|p| + |v2|] == v2;
    } else if |v1| < |v2| {
      assert k1[|p| + |v1|] == ':';
      assert k2[|p| + |v1|] == v2[|v1|];
    } else {
      assert k2[|p| + |v2|] == ':';
      assert k1[|p| + |v2|] == v1[|v2|];
    }
  }

  // ---------------------------------------------------------------------------
  // Advancing a user's version
  // ---------------------------------------------------------------------------

  /** Every stored version is a string of digits. */
  predicate AllDigits(m: VersionCache) {
    forall u :: u in m ==> IsDigits(m[u])
  }

  /** The version after `v`. */
  function Successor(v: string): (r: string)
    ensures IsDigits(r) && r != v
  {
    if IsDigits(v) then
      var r := NatToString(ParseDigits(v) + 1);
      ParseNatToString(ParseDigits(v) + 1);
      r
    else "1"
  }

  /** The abstract bump run after a create: the user's version (a missing one read as "0")
      is replaced by a different one, and no other entry changes. */
  function Bump(m: VersionCache, username: string): (r: VersionCache)
    ensures username in r && r[username] != (if username in m then m[username] else InitialVersion)
    ensures r.Keys == m.Keys + {username}
    ensures forall u :: u in m && u != username ==> r[u] == m[u]
    ensures AllDigits(m) ==> AllDigits(r)
  {
    m[username := Successor(if username in m then m[username] else InitialVersion)]
  }

  /** Reading keeps every stored version a digit string. */
  lemma ReadVersionKeepsDigits(m: VersionCache, auth: Option<Authentication>)
    requires AllDigits(m)
    ensures ReadVersion(Some(m), auth).1.Some? && AllDigits(ReadVersion(Some(m), auth).1.value)
    ensures IsDigits(ReadVersion(Some(m), auth).0)
  {
  }

  /** Version namespacing: after a bump for the caller, the same list call maps to a key
      that differs from the one it mapped to just before the bump. */
  lemma BumpInvalidatesListKeys(m: VersionCache, auth: Authentication, methodName: string, params: seq<Param>)
    requires AllDigits(m)
    ensures var (before, m1) := Generate(Some(m), Some(auth), methodName, params);
            var m2 := Bump(m1.value, auth.name);
            Generate(Some(m2), Some(auth), methodName, params).0 != before
  {
    ReadVersionKeepsDigits(m, Some(auth));
    var (v1, m1) := ReadVersion(Some(m), Some(auth));
    var m2 := Bump(m1.value, auth.name);
    var (v2, _) := ReadVersion(Some(m2), Some(auth));
    assert v2 == m2[auth.name] && v1 == m1.value[auth.name];
    VersionsSeparateKeys(Username(Some(auth)), Roles(Some(auth)), v1, v2, methodName, params);
  }
}
