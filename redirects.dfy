/** Where the authentication pages send the browser (`AuthController` and
    `SecurityConfig`): the Referer sanitiser, which both classes define
    identically; the `login` redirect; the target remembered before a Google
    sign-in; and the redirect chosen after a sign-in or a sign-out.

    Parsing a URI (`new URI(referer)`) is the parameter `parse`: `None`
    stands for a `URISyntaxException`, otherwise it gives the path, query
    and fragment getters, each `None` where Java returns null. */
module Redirects {
  import opened Common
  import opened Text
  import opened Users
  import opened UserAccounts
  import opened Cloudinary
  import opened OAuthAccounts

  /** The components of a `java.net.URI` the sanitiser reads. */
  datatype Uri = Uri(path: Option<string>, query: Option<string>, fragment: Option<string>)

  /** One `key=value` pair of a query string. */
  datatype Param = Param(key: string, value: string)

  /** The query keys that belong to the sign-in and registration dialogs
      (`AUTH_QUERY_KEYS`). */
  const AuthQueryKeys: seq<string> := ["login", "register", "logout", "error", "registered", "registerError"]

  // ---------------------------------------------------------------------
  // Query parameters as an insertion-ordered map

  /** The value held for `k` when the first pair with that key wins. */
  function Lookup(ps: seq<Param>, k: string): Option<string> {
    if ps == [] then None
    else if ps[0].key == k then Some(ps[0].value)
    else Lookup(ps[1..], k)
  }

  /** The position of the first pair with key `k`, or `|ps|` when there is
      none. */
  function FirstIndex(ps: seq<Param>, k: string): nat {
    if ps == [] then 0
    else if ps[0].key == k then 0
    else 1 + FirstIndex(ps[1..], k)
  }

  predicate DistinctKeys(ps: seq<Param>) {
    forall i, j :: 0 <= i < j < |ps| ==> ps[i].key != ps[j].key
  }

  /** The keys of `out` come in the order in which they first occur in
      `ps`. */
  predicate InFirstOccurrenceOrder(out: seq<Param>, ps: seq<Param>) {
    forall i, j :: 0 <= i < j < |out| ==> FirstIndex(ps, out[i].key) < FirstIndex(ps, out[j].key)
  }

  /** The pairs whose key is not among `keys`, in their order. */
  function Retained(ps: seq<Param>, keys: seq<string>): seq<Param> {
    if ps == [] then []
    else (if ps[0].key in keys then [] else [ps[0]]) + Retained(ps[1..], keys)
  }

  /** `LinkedHashMap.remove(k)`. */
  function Removed(ps: seq<Param>, k: string): seq<Param> {
    Retained(ps, [k])
  }

  /** `Collectors.toMap(.., (a, b) -> a, LinkedHashMap::new)`: one pair per
      key, holding the first value given for it, at the place where the key
      first occurs. */
  function FirstWins(ps: seq<Param>): seq<Param> {
    if ps == [] then [] else [ps[0]] + Removed(FirstWins(ps[1..]), ps[0].key)
  }

  lemma LookupCons(p: Param, rest: seq<Param>, k: string)
    ensures Lookup([p] + rest, k) == if p.key == k then Some(p.value) else Lookup(rest, k)
  {
    assert ([p] + rest)[1..] == rest;
  }

  lemma FirstIndexCons(p: Param, rest: seq<Param>, k: string)
    ensures FirstIndex([p] + rest, k) == if p.key == k then 0 else 1 + FirstIndex(rest, k)
  {
    assert ([p] + rest)[1..] == rest;
  }

  lemma {:induction false} RetainedMembers(ps: seq<Param>, keys: seq<string>)
    ensures forall p :: p in Retained(ps, keys) ==> p in ps && p.key !in keys
  {
    if ps != [] {
      RetainedMembers(ps[1..], keys);
    }
  }

  /** Removing `keys` removes exactly their lookups. */
  lemma {:induction false} LookupRetained(ps: seq<Param>, keys: seq<string>, k: string)
    ensures Lookup(Retained(ps, keys), k) == if k in keys then None else Lookup(ps, k)
  {
    if ps != [] {
      LookupRetained(ps[1..], keys, k);
      if ps[0].key !in keys {
        LookupCons(ps[0], Retained(ps[1..], keys), k);
      } else {
        assert Retained(ps, keys) == Retained(ps[1..], keys);
      }
    }
  }

  lemma {:induction false} RetainedNothing(ps: seq<Param>, keys: seq<string>)
    requires forall p :: p in ps ==> p.key !in keys
    ensures Retained(ps, keys) == ps
  {
    if ps != [] {
      RetainedNothing(ps[1..], keys);
      FirstSplit(ps);
    }
  }

  /** Removing one more key after some keys is removing them all at once. */
  lemma {:induction false} RetainedThenRemoved(ps: seq<Param>, keys: seq<string>, k: string)
    ensures Removed(Retained(ps, keys), k) == Retained(ps, keys + [k])
  {
    if ps != [] {
      RetainedThenRemoved(ps[1..], keys, k);
      var head := if ps[0].key in keys then [] else [ps[0]];
      RetainedAppend(head, Retained(ps[1..], keys), [k]);
    }
  }

  lemma {:induction false} RetainedAppend(a: seq<Param>, b: seq<Param>, keys: seq<string>)
    ensures Retained(a + b, keys) == Retained(a, keys) + Retained(b, keys)
  {
    if a != [] {
      assert (a + b)[0] == a[0];
      assert (a + b)[1..] == a[1..] + b;
      RetainedAppend(a[1..], b, keys);
      var head := if a[0].key in keys then [] else [a[0]];
      assert Retained(a + b, keys) == head + Retained(a[1..] + b, keys);
      assert Retained(a, keys) == head + Retained(a[1..], keys);
    } else {
      assert a + b == b;
    }
  }

  lemma DistinctCons(p: Param, rest: seq<Param>)
    requires DistinctKeys(rest)
    requires forall q :: q in rest ==> q.key != p.key
    ensures DistinctKeys([p] + rest)
  {
    forall i, j | 0 <= i < j < |[p] + rest|
      ensures ([p] + rest)[i].key != ([p] + rest)[j].key
    {
      assert ([p] + rest)[j] == rest[j - 1];
      if i > 0 {
        assert ([p] + rest)[i] == rest[i - 1];
      }
    }
  }

  lemma {:induction false} RetainedDistinct(ps: seq<Param>, keys: seq<string>)
    requires DistinctKeys(ps)
    ensures DistinctKeys(Retained(ps, keys))
  {
    if ps != [] {
      var tail := ps[1..];
      assert DistinctKeys(tail) by {
        forall i, j | 0 <= i < j < |tail|
          ensures tail[i].key != tail[j].key
        {
          assert tail[i] == ps[i + 1] && tail[j] == ps[j + 1];
        }
      }
      RetainedDistinct(tail, keys);
      if ps[0].key !in keys {
        RetainedMembers(tail, keys);
        forall q | q in Retained(tail, keys)
          ensures q.key != ps[0].key
        {
          var j :| 0 <= j < |tail| && tail[j] == q;
          assert ps[j + 1] == q;
        }
        DistinctCons(ps[0], Retained(tail, keys));
      }
    }
  }

  lemma InOrderCons(p: Param, rest: seq<Param>, ps: seq<Param>)
    requires InFirstOccurrenceOrder(rest, ps)
    requires forall q :: q in rest ==> FirstIndex(ps, p.key) < FirstIndex(ps, q.key)
    ensures InFirstOccurrenceOrder([p] + rest, ps)
  {
    forall i, j | 0 <= i < j < |[p] + rest|
      ensures FirstIndex(ps, ([p] + rest)[i].key) < FirstIndex(ps, ([p] + rest)[j].key)
    {
      assert ([p] + rest)[j] == rest[j - 1];
      if i > 0 {
        assert ([p] + rest)[i] == rest[i - 1];
      }
    }
  }

  /** Dropping pairs keeps the others in their order. */
  lemma {:induction false} RetainedInOrder(out: seq<Param>, keys: seq<string>, ps: seq<Param>)
    requires InFirstOccurrenceOrder(out, ps)
    ensures InFirstOccurrenceOrder(Retained(out, keys), ps)
  {
    if out != [] {
      var tail := out[1..];
      assert InFirstOccurrenceOrder(tail, ps) by {
        forall i, j | 0 <= i < j < |tail|
          ensures FirstIndex(ps, tail[i].key) < FirstIndex(ps, tail[j].key)
        {
          assert tail[i] == out[i + 1] && tail[j] == out[j + 1];
        }
      }
      RetainedInOrder(tail, keys, ps);
      if out[0].key !in keys {
        RetainedMembers(tail, keys);
        forall q | q in Retained(tail, keys)
          ensures FirstIndex(ps, out[0].key) < FirstIndex(ps, q.key)
        {
          var j :| 0 <= j < |tail| && tail[j] == q;
          assert out[j + 1] == q;
        }
        InOrderCons(out[0], Retained(tail, keys), ps);
      }
    }
  }

  /** Order by first occurrence in `ps` is order by first occurrence in
      `[p] + ps` for keys other than `p`'s. */
  lemma InOrderShift(out: seq<Param>, p: Param, ps: seq<Param>)
    requires InFirstOccurrenceOrder(out, ps)
    requires forall q :: q in out ==> q.key != p.key
    ensures InFirstOccurrenceOrder(out, [p] + ps)
  {
    forall i, j | 0 <= i < j < |out|
      ensures FirstIndex([p] + ps, out[i].key) < FirstIndex([p] + ps, out[j].key)
    {
      FirstIndexCons(p, ps, out[i].key);
      FirstIndexCons(p, ps, out[j].key);
    }
  }

  lemma {:induction false} FirstWinsMembers(ps: seq<Param>)
    ensures forall p :: p in FirstWins(ps) ==> p in ps
  {
    if ps != [] {
      FirstWinsMembers(ps[1..]);
      RetainedMembers(FirstWins(ps[1..]), [ps[0].key]);
    }
  }

  /** The first-wins map holds, for every key, the value of the key's first
      pair; it holds each key once, in the order of first occurrence. */
  lemma {:induction false} FirstWinsIsFirstOccurrence(ps: seq<Param>)
    ensures forall k :: Lookup(FirstWins(ps), k) == Lookup(ps, k)
    ensures DistinctKeys(FirstWins(ps))
    ensures InFirstOccurrenceOrder(FirstWins(ps), ps)
  {
    if ps != [] {
      var p, tail := ps[0], ps[1..];
      var rest := Removed(FirstWins(tail), p.key);
      FirstWinsIsFirstOccurrence(tail);
      forall k
        ensures Lookup(FirstWins(ps), k) == Lookup(ps, k)
      {
        LookupCons(p, rest, k);
        LookupRetained(FirstWins(tail), [p.key], k);
      }
      RetainedMembers(FirstWins(tail), [p.key]);
      RetainedDistinct(FirstWins(tail), [p.key]);
      DistinctCons(p, rest);
      RetainedInOrder(FirstWins(tail), [p.key], tail);
      InOrderShift(rest, p, tail);
      FirstSplit(ps);
      forall q | q in rest
        ensures FirstIndex(ps, p.key) < FirstIndex(ps, q.key)
      {
        FirstIndexCons(p, tail, q.key);
      }
      InOrderCons(p, rest, ps);
    }
  }

  /** A list with distinct keys is its own first-wins map. */
  lemma {:induction false} FirstWinsOfDistinct(ps: seq<Param>)
    requires DistinctKeys(ps)
    ensures FirstWins(ps) == ps
  {
    if ps != [] {
      var tail := ps[1..];
      assert DistinctKeys(tail) by {
        forall i, j | 0 <= i < j < |tail|
          ensures tail[i].key != tail[j].key
        {
          assert tail[i] == ps[i + 1] && tail[j] == ps[j + 1];
        }
      }
      FirstWinsOfDistinct(tail);
      forall q | q in tail
        ensures q.key !in [ps[0].key]
      {
        var j :| 0 <= j < |tail| && tail[j] == q;
        assert ps[j + 1] == q;
      }
      RetainedNothing(tail, [ps[0].key]);
      FirstSplit(ps);
    }
  }

  // ---------------------------------------------------------------------
  // Query strings

  /** `part.split("=", 2)`: the key is the text before the first "=", the
      value the text after it, or "" when there is no "=". */
  function ParseParam(part: string): (p: Param)
    ensures '=' !in p.key
    ensures forall c :: c !in part ==> c !in p.key && c !in p.value
  {
    if '=' in part then
      var k := IndexOf(part, '=');
      Param(part[..k], part[k + 1..])
    else
      Param(part, "")
  }

  /** The pairs of the non-blank parts of a query, in order. */
  function QueryEntries(parts: seq<string>): seq<Param> {
    if parts == [] then []
    else (if IsBlank(parts[0]) then [] else [ParseParam(parts[0])]) + QueryEntries(parts[1..])
  }

  /** The parameter map built from a query string. */
  function QueryParams(query: string): seq<Param> {
    FirstWins(QueryEntries(Split(query, '&')))
  }

  /** The parameters left once the sign-in keys are removed. */
  function CleanedParams(query: string): seq<Param> {
    Retained(QueryParams(query), AuthQueryKeys)
  }

  /** A pair with an empty value is written as its bare key. */
  function RenderParam(p: Param): string {
    if p.value == [] then p.key else p.key + "=" + p.value
  }

  function Rendered(ps: seq<Param>): (r: seq<string>)
    ensures |r| == |ps|
    ensures forall i :: 0 <= i < |ps| ==> r[i] == RenderParam(ps[i])
  {
    seq(|ps|, i requires 0 <= i < |ps| => RenderParam(ps[i]))
  }

  /** `Collectors.joining("&")` over the rendered pairs. */
  function RenderQuery(ps: seq<Param>): string {
    Join(Rendered(ps), "&")
  }

  /** The sanitiser keeps exactly the parameters whose key is not a sign-in
      key, each once, with the first value given for it, in the order in
      which the keys first occur in the query. */
  lemma CleanedParamsSpec(query: string)
    ensures forall p :: p in CleanedParams(query) ==> p.key !in AuthQueryKeys
    ensures forall k :: Lookup(CleanedParams(query), k) ==
                        if k in AuthQueryKeys then None else Lookup(QueryEntries(Split(query, '&')), k)
    ensures DistinctKeys(CleanedParams(query))
    ensures InFirstOccurrenceOrder(CleanedParams(query), QueryEntries(Split(query, '&')))
  {
    var entries := QueryEntries(Split(query, '&'));
    FirstWinsIsFirstOccurrence(entries);
    RetainedMembers(QueryParams(query), AuthQueryKeys);
    forall k
      ensures Lookup(CleanedParams(query), k) == if k in AuthQueryKeys then None else Lookup(entries, k)
    {
      LookupRetained(QueryParams(query), AuthQueryKeys, k);
    }
    RetainedDistinct(QueryParams(query), AuthQueryKeys);
    RetainedInOrder(QueryParams(query), AuthQueryKeys, entries);
  }

  /** A pair that can be written into a query and read back. */
  predicate WellFormedParam(p: Param) {
    '=' !in p.key && '&' !in p.key && '&' !in p.value && !IsBlank(RenderParam(p))
  }

  /** Reading back a written pair gives the pair. */
  lemma ParseRenderParam(p: Param)
    requires '=' !in p.key
    ensures ParseParam(RenderParam(p)) == p
  {
    if p.value != [] {
      var s := RenderParam(p);
      assert s[..|p.key|] == p.key;
      IndexOfFirst(s, '=', |p.key|);
      assert s[|p.key| + 1..] == p.value;
    }
  }

  lemma {:induction false} EntriesOfRendered(ps: seq<Param>)
    requires forall p :: p in ps ==> WellFormedParam(p)
    ensures QueryEntries(Rendered(ps)) == ps
  {
    if ps != [] {
      assert Rendered(ps)[1..] == Rendered(ps[1..]);
      assert ps[0] in ps;
      EntriesOfRendered(ps[1..]);
      ParseRenderParam(ps[0]);
      FirstSplit(ps);
    }
  }

  /** Writing pairs into a query and reading its parts back gives the
      pairs. */
  lemma EntriesRoundTrip(ps: seq<Param>)
    requires forall p :: p in ps ==> WellFormedParam(p)
    ensures QueryEntries(Split(RenderQuery(ps), '&')) == ps
  {
    if ps == [] {
      assert Split([], '&') == [[]];
    } else {
      forall i | 0 <= i < |ps|
        ensures '&' !in Rendered(ps)[i]
      {
        assert ps[i] in ps;
      }
      SplitOfJoin(Rendered(ps), '&');
      EntriesOfRendered(ps);
    }
  }

  /** Writing a parameter map and reading it back gives the map. */
  lemma QueryRoundTrip(ps: seq<Param>)
    requires DistinctKeys(ps)
    requires forall p :: p in ps ==> WellFormedParam(p)
    ensures QueryParams(RenderQuery(ps)) == ps
  {
    EntriesRoundTrip(ps);
    FirstWinsOfDistinct(ps);
  }

  lemma {:induction false} EntriesHaveNoSeparator(parts: seq<string>)
    requires forall i :: 0 <= i < |parts| ==> '&' !in parts[i]
    ensures forall p :: p in QueryEntries(parts) ==> '=' !in p.key && '&' !in p.key && '&' !in p.value
  {
    if parts != [] {
      EntriesHaveNoSeparator(parts[1..]);
    }
  }

  /** Sanitising the query a second time changes nothing, provided no kept
      pair is written as a blank part (a pair such as "=" is written as ""
      and would be dropped when read back). */
  lemma CleanedQueryStable(query: string)
    requires forall p :: p in CleanedParams(query) ==> !IsBlank(RenderParam(p))
    ensures CleanedParams(RenderQuery(CleanedParams(query))) == CleanedParams(query)
  {
    var cleaned := CleanedParams(query);
    var entries := QueryEntries(Split(query, '&'));
    CleanedParamsSpec(query);
    EntriesHaveNoSeparator(Split(query, '&'));
    FirstWinsMembers(entries);
    RetainedMembers(QueryParams(query), AuthQueryKeys);
    QueryRoundTrip(cleaned);
    RetainedNothing(cleaned, AuthQueryKeys);
  }

  // ---------------------------------------------------------------------
  // sanitizeRedirectUrl

  predicate HasQuery(uri: Uri) {
    !IsNullOrBlank(uri.query)
  }

  function FragmentSuffix(uri: Uri): string {
    if uri.fragment.Some? then "#" + uri.fragment.value else ""
  }

  function QuerySuffix(cleanedQuery: string): string {
    if cleanedQuery == [] then "" else "?" + cleanedQuery
  }

  /** The path, or "/" for a URI without one. */
  function PathOrRoot(uri: Uri): string {
    uri.path.GetOr("/")
  }

  /** The parameters a URI keeps: none without a query. */
  function KeptParams(uri: Uri): seq<Param> {
    if HasQuery(uri) then CleanedParams(uri.query.value) else []
  }

  /** The location rebuilt from a parsed Referer; `nullPath` is what a
      URI without a path and without a query contributes in place of its
      path. */
  function Rebuilt(uri: Uri, nullPath: string): string {
    if !HasQuery(uri) then uri.path.GetOr(nullPath) + FragmentSuffix(uri)
    else PathOrRoot(uri) + QuerySuffix(RenderQuery(CleanedParams(uri.query.value))) + FragmentSuffix(uri)
  }

  function SanitizedWith(referer: Option<string>, parse: string -> Option<Uri>, nullPath: string): Option<string> {
    if IsNullOrBlank(referer) then None
    else
      match parse(referer.value)
      case None => Some("/")
      case Some(uri) => Some(Rebuilt(uri, nullPath))
  }

  /** `sanitizeRedirectUrl` as written: without a query the path is
      concatenated as it is, and Java writes a null path as "null". */
  function SanitizedAsWritten(referer: Option<string>, parse: string -> Option<Uri>): Option<string> {
    SanitizedWith(referer, parse, "null")
  }

  /** `sanitizeRedirectUrl` with a missing path read as "/" on both
      branches, as the branch with a query already does. */
  function Sanitized(referer: Option<string>, parse: string -> Option<Uri>): Option<string> {
    SanitizedWith(referer, parse, "/")
  }

  /** `sanitizeRedirectUrl`: removes the sign-in keys from the map one key
      at a time, then writes path, query and fragment. */
  method SanitizeRedirectUrl(referer: Option<string>, parse: string -> Option<Uri>) returns (r: Option<string>)
    ensures r == Sanitized(referer, parse)
  {
    if IsNullOrBlank(referer) {
      return None;
    }
    var parsed := parse(referer.value);
    if parsed.None? {
      return Some("/");
    }
    var uri := parsed.value;
    if !HasQuery(uri) {
      return Some(PathOrRoot(uri) + FragmentSuffix(uri));
    }
    var params := RemoveAuthKeys(QueryParams(uri.query.value));
    var cleanedQuery := RenderQuery(params);
    var cleaned := PathOrRoot(uri);
    if cleanedQuery != [] {
      cleaned := cleaned + "?" + cleanedQuery;
    }
    assert cleaned == PathOrRoot(uri) + QuerySuffix(cleanedQuery);
    if uri.fragment.Some? {
      cleaned := cleaned + "#" + uri.fragment.value;
    }
    assert cleaned == PathOrRoot(uri) + QuerySuffix(cleanedQuery) + FragmentSuffix(uri);
    r := Some(cleaned);
  }

  /** The loop of `sanitizeRedirectUrl` that removes the sign-in keys from
      the parameter map, one key at a time. */
  method RemoveAuthKeys(all: seq<Param>) returns (params: seq<Param>)
    ensures params == Retained(all, AuthQueryKeys)
  {
    params := all;
    RetainedNothing(all, []);
    for i := 0 to |AuthQueryKeys|
      invariant params == Retained(all, AuthQueryKeys[..i])
    {
      RetainedThenRemoved(all, AuthQueryKeys[..i], AuthQueryKeys[i]);
      assert AuthQueryKeys[..i + 1] == AuthQueryKeys[..i] + [AuthQueryKeys[i]];
      params := Removed(params, AuthQueryKeys[i]);
    }
    assert AuthQueryKeys[..|AuthQueryKeys|] == AuthQueryKeys;
  }

  /** The cases of the sanitiser: no location for a missing or blank
      Referer, "/" for one that does not parse, and otherwise the path (or
      "/"), the kept parameters after "?" when there are any, and the
      fragment after "#". */
  lemma SanitizedCases(referer: Option<string>, parse: string -> Option<Uri>)
    ensures Sanitized(referer, parse).None? <==> IsNullOrBlank(referer)
    ensures !IsNullOrBlank(referer) && parse(referer.value).None? ==> Sanitized(referer, parse) == Some("/")
    ensures !IsNullOrBlank(referer) && parse(referer.value).Some? ==>
              var uri := parse(referer.value).value;
              Sanitized(referer, parse) ==
                Some(PathOrRoot(uri) + QuerySuffix(RenderQuery(KeptParams(uri))) + FragmentSuffix(uri))
  {
    if !IsNullOrBlank(referer) && parse(referer.value).Some? {
      var uri := parse(referer.value).value;
      assert Sanitized(referer, parse) == Some(Rebuilt(uri, "/"));
      if !HasQuery(uri) {
        assert Rendered([]) == [];
        assert QuerySuffix(RenderQuery(KeptParams(uri))) == [];
        assert Rebuilt(uri, "/") == PathOrRoot(uri) + [] + FragmentSuffix(uri);
      }
    }
  }

  /** The source and the corrected sanitiser differ only for a URI without
      a path: every URI with a path is sanitised the same way by both. */
  lemma SanitizedAgreesWithPath(referer: Option<string>, parse: string -> Option<Uri>)
    requires !IsNullOrBlank(referer) && parse(referer.value).Some? ==> parse(referer.value).value.path.Some?
    ensures SanitizedAsWritten(referer, parse) == Sanitized(referer, parse)
  {
  }

  /** What `new URI` gives for an opaque URI such as
      `mailto:team@joinus.ro`: neither path nor query. */
  function OpaqueUri(s: string): Option<Uri> {
    Some(Uri(None, None, None))
  }

  /** As written, an opaque Referer is sanitised to the relative location
      "null", while a Referer with a query and no path goes to "/"; the
      corrected sanitiser gives "/" in both cases. */
  lemma OpaqueRefererGivesNull()
    ensures SanitizedAsWritten(Some("mailto:team@joinus.ro"), OpaqueUri) == Some("null")
    ensures Sanitized(Some("mailto:team@joinus.ro"), OpaqueUri) == Some("/")
  {
    var referer := "mailto:team@joinus.ro";
    assert !IsBlank(referer) by {
      assert !IsSpace(referer[0]);
    }
    assert OpaqueUri(referer) == Some(Uri(None, None, None));
    var uri := Uri(None, None, None);
    assert !HasQuery(uri);
    assert Rebuilt(uri, "null") == "null";
    assert SanitizedWith(Some(referer), OpaqueUri, "null") == Some(Rebuilt(uri, "null"));
    assert Rebuilt(uri, "/") == "/";
    assert SanitizedWith(Some(referer), OpaqueUri, "/") == Some(Rebuilt(uri, "/"));
  }

  // ---------------------------------------------------------------------
  // Controller and handler decisions

  /** The pairs after `ps` when a flag is given: its bare key appended. */
  function WithFlag(ps: seq<Param>, given: bool, flag: string): seq<Param> {
    if given then ps + [Param(flag, "")] else ps
  }

  /** A flag appended when given is found under its own key, and nothing
      else changes which keys are present. */
  lemma {:induction false} LookupWithFlag(ps: seq<Param>, given: bool, flag: string, k: string)
    ensures Lookup(WithFlag(ps, given, flag), k).Some? <==> Lookup(ps, k).Some? || (given && k == flag)
    decreases |ps|
  {
    if given && ps != [] {
      assert (ps + [Param(flag, "")])[1..] == ps[1..] + [Param(flag, "")];
      LookupWithFlag(ps[1..], given, flag, k);
    }
  }

  /** The flags `login` writes after "login", in their fixed order. */
  function LoginParams(error: bool, registered: bool, logout: bool): seq<Param> {
    WithFlag(WithFlag(WithFlag([Param("login", "")], error, "error"), registered, "registered"), logout, "logout")
  }

  /** `login`: "redirect:/?login" followed by "&error", "&registered" and
      "&logout" for the flags given. */
  method LoginRedirect(error: bool, registered: bool, logout: bool) returns (r: string)
    ensures r == "redirect:/?" + RenderQuery(LoginParams(error, registered, logout))
  {
    LoginFlagTexts();
    r := "redirect:/?login";
    ghost var ps := [Param("login", "")];
    assert Rendered(ps) == ["login"];
    if error {
      FlagAppended(r, ps, "error");
      r := r + "&error";
    }
    ps := WithFlag(ps, error, "error");
    if registered {
      FlagAppended(r, ps, "registered");
      r := r + "&registered";
    }
    ps := WithFlag(ps, registered, "registered");
    if logout {
      FlagAppended(r, ps, "logout");
      r := r + "&logout";
    }
  }

  /** The texts `login` appends are "&" followed by a flag's key. */
  lemma LoginFlagTexts()
    ensures "&error" == "&" + "error"
    ensures "&registered" == "&" + "registered"
    ensures "&logout" == "&" + "logout"
  {
  }

  /** Appending "&" and a flag to the text of a redirect appends the
      flag's pair to its query. */
  lemma FlagAppended(r: string, ps: seq<Param>, flag: string)
    requires ps != [] && r == "redirect:/?" + RenderQuery(ps)
    ensures r + ("&" + flag) == "redirect:/?" + RenderQuery(ps + [Param(flag, "")])
  {
    JoinSnocFlag(ps, flag);
  }

  /** Appending a bare flag to a non-empty query appends "&" and the flag. */
  lemma {:induction false} JoinSnocFlag(ps: seq<Param>, flag: string)
    requires ps != []
    ensures RenderQuery(ps + [Param(flag, "")]) == RenderQuery(ps) + "&" + flag
    decreases |ps|
  {
    var qs := ps + [Param(flag, "")];
    if |ps| == 1 {
      assert Rendered(qs) == [RenderParam(ps[0]), flag];
      assert Rendered(qs)[1..] == [flag];
      assert Join(Rendered(qs), "&") == RenderParam(ps[0]) + "&" + Join([flag], "&");
      assert Rendered(ps) == [RenderParam(ps[0])];
      assert Join(Rendered(ps), "&") == RenderParam(ps[0]);
    } else {
      assert qs[1..] == ps[1..] + [Param(flag, "")];
      assert Rendered(qs)[1..] == Rendered(qs[1..]);
      assert Rendered(ps)[1..] == Rendered(ps[1..]);
      JoinSnocFlag(ps[1..], flag);
    }
  }

  /** The query `login` writes reads back as its flags, and all of them are
      sign-in keys: sanitising a page reached through it drops them all. */
  lemma LoginQueryIsSignInOnly(error: bool, registered: bool, logout: bool)
    ensures forall k :: Lookup(QueryParams(RenderQuery(LoginParams(error, registered, logout))), k) ==
                        Lookup(LoginParams(error, registered, logout), k)
    ensures CleanedParams(RenderQuery(LoginParams(error, registered, logout))) == []
  {
    var ps := LoginParams(error, registered, logout);
    forall p | p in ps
      ensures WellFormedParam(p) && p.key in AuthQueryKeys
    {
      assert p in [Param("login", "")] || p in [Param("error", "")] || p in [Param("registered", "")] || p in [Param("logout", "")];
      assert p.key == AuthQueryKeys[0] || p.key == AuthQueryKeys[3] || p.key == AuthQueryKeys[4] || p.key == AuthQueryKeys[2];
      assert p.value == [] && !IsSpace(p.key[0]);
    }
    EntriesRoundTrip(ps);
    FirstWinsIsFirstOccurrence(ps);
    FirstWinsMembers(ps);
    RetainedAllRemoved(FirstWins(ps), AuthQueryKeys);
  }

  lemma {:induction false} RetainedAllRemoved(ps: seq<Param>, keys: seq<string>)
    requires forall p :: p in ps ==> p.key in keys
    ensures Retained(ps, keys) == []
  {
    if ps != [] {
      RetainedAllRemoved(ps[1..], keys);
    }
  }

  /** A location that leads back into the sign-in flow. */
  predicate IsSignInPath(t: string) {
    StartsWith(t, "/login") || StartsWith(t, "/register") || StartsWith(t, "/oauth2") || StartsWith(t, "/auth/google")
  }

  /** `googleAuthStart`: the target remembered in the session for after
      the Google sign-in, if any. */
  function GoogleAuthTarget(referer: Option<string>, parse: string -> Option<Uri>): (stored: Option<string>)
    ensures stored.Some? ==> stored == Sanitized(referer, parse) && !IsSignInPath(stored.value)
    ensures stored.None? ==> Sanitized(referer, parse).None? || IsSignInPath(Sanitized(referer, parse).value)
  {
    var target := Sanitized(referer, parse);
    if target.Some? && !IsSignInPath(target.value) then target else None
  }

  /** Where the form-login and logout success handlers send the browser:
      the sanitised Referer, or "/" without one. */
  function RefererRedirect(referer: Option<string>, parse: string -> Option<Uri>): (location: string)
    ensures IsNullOrBlank(referer) ==> location == "/"
    ensures !IsNullOrBlank(referer) ==> Sanitized(referer, parse) == Some(location)
  {
    SanitizedCases(referer, parse);
    Sanitized(referer, parse).GetOr("/")
  }

  const OAuthErrorRedirect: string := "/?login&error"
  const ProfileCompletionRedirect: string := "/profile?completeProfile&birthDateRequired"

  /** The authentication a sign-in succeeded with: a Google token with its
      e-mail, name and picture attributes, or any other kind. */
  datatype Authentication = OtherAuthentication | OAuth2Token(email: Option<string>, name: Option<string>, picture: Option<string>)

  /** `handleOAuth2Success`: a non-Google authentication goes to "/", a
      token without an e-mail to the sign-in error; otherwise the account is
      created or updated for the normalised e-mail, a new account goes to
      complete its profile and an existing one to the target remembered in
      the session (sanitised again), or "/". */
  method HandleOAuth2Success(accounts: OAuthAccountService, auth: Authentication, sessionTarget: Option<string>,
                             parse: string -> Option<Uri>, configured: bool, mirror: string -> UploadOutcome,
                             password: string)
    returns (res: Result<string, UpsertError>)
    modifies accounts.users
    requires accounts.users.Valid()
    ensures accounts.users.Valid()
    ensures !auth.OAuth2Token? ==> res == Ok("/") && unchanged(accounts.users)
    ensures auth.OAuth2Token? && IsNullOrBlank(auth.email) ==>
              res == Ok(OAuthErrorRedirect) && unchanged(accounts.users)
    ensures auth.OAuth2Token? && !IsNullOrBlank(auth.email) ==>
              var email := NormalizeEmail(auth.email.value);
              if ResolvedName(auth.name, email).None? then
                res == Err(NoNameInEmail)
              else if email in old(accounts.users.byEmail) then
                res == Ok(Sanitized(sessionTarget, parse).GetOr("/"))
              else
                res == Ok(ProfileCompletionRedirect)
  {
    if !auth.OAuth2Token? {
      return Ok("/");
    }
    if IsNullOrBlank(auth.email) {
      return Ok(OAuthErrorRedirect);
    }
    var normalizedEmail := NormalizeEmail(auth.email.value);
    NormalizeEmailIdempotent(auth.email.value);
    var upsert := accounts.UpsertGoogleUser(normalizedEmail, auth.name, auth.picture, configured, mirror, password);
    if upsert.Err? {
      return Err(upsert.error);
    }
    var target := SanitizeRedirectUrl(sessionTarget, parse);
    if upsert.value {
      return Ok(ProfileCompletionRedirect);
    }
    res := Ok(if target.Some? then target.value else "/");
  }
}
