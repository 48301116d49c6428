/** The request helper of src/client.ts: `httpGet`, the credential headers it
    attaches and the `getCookie` lookup it relies on. */
module Http {
  import opened Results
  import opened Text

  /** A GET request relative to the API base `https://treehole.pku.edu.cn/api/`:
      the path, and the query parameters set on the URL, in order. */
  datatype Request = Request(path: string, params: seq<(string, string)>)

  type Header = (string, string)

  /** Why a request, or an operation built on requests, fails. */
  datatype Failure =
    | Network(reason: string)                      // `fetch` itself rejected
    | HttpStatus(status: int, statusText: string)  // the response was not ok
    | Malformed(reason: string)                    // `res.json()` rejected
    | ApiFailure(message: string)                  // an envelope with `success: false`

  /** The text of the `Error` thrown for a failure. */
  function Message(f: Failure): string {
    match f
    case Network(reason) => reason
    case HttpStatus(status, statusText) => "HTTP " + IntToString(status) + " " + statusText
    case Malformed(reason) => reason
    case ApiFailure(message) => message
  }

  // ---------------------------------------------------------------- cookies

  /** Whether the pattern `(?:^|; )<name>=` matches when started at index `p`
      of `cookie`, and if so the index where the captured value begins. The
      `^` alternative is tried before the `; ` one. */
  function MatchAt(cookie: string, name: string, p: int): (r: Option<int>)
    ensures r.Some? ==> 0 <= r.value <= |cookie|
  {
    var key := name + "=";
    if p == 0 && key <= cookie then Some(|key|)
    else if 0 <= p && p + 2 + |key| <= |cookie| && cookie[p..p + 2 + |key|] == "; " + key then
      Some(p + 2 + |key|)
    else None
  }

  predicate NotSemicolon(c: char) {
    c != ';'
  }

  /** The starts at which the pattern matches. */
  function Matches(cookie: string, name: string): int -> bool {
    p => MatchAt(cookie, name, p).Some?
  }

  /** Where the leftmost match of the pattern in `cookie` starts. */
  function FirstMatch(cookie: string, name: string): Option<int> {
    FirstWhere(Matches(cookie, name), 0, |cookie| + 1)
  }

  /** `FirstMatch` finds the leftmost start at which the pattern matches,
      and nothing exactly when it matches nowhere. */
  lemma FirstMatchIsLeftmost(cookie: string, name: string)
    ensures var r := FirstMatch(cookie, name);
      && (r.None? <==> forall p :: 0 <= p <= |cookie| ==> MatchAt(cookie, name, p).None?)
      && (r.Some? ==> 0 <= r.value <= |cookie| && MatchAt(cookie, name, r.value).Some?)
      && (r.Some? ==> forall q :: 0 <= q < r.value ==> MatchAt(cookie, name, q).None?)
  {
    assert forall p :: Matches(cookie, name)(p) == MatchAt(cookie, name, p).Some?;
  }

  /** The raw value `getCookie` captures: the leftmost match of
      `(?:^|; )<name>=([^;]*)` in `cookie`, before percent-decoding. */
  function CookieLookup(cookie: string, name: string): Option<string> {
    match FirstMatch(cookie, name)
    case None => None
    case Some(p) => Some(Span(cookie[MatchAt(cookie, name, p).value..], NotSemicolon))
  }

  /** The lookup behaves as the regular expression does: nothing exactly
      when the pattern matches nowhere; otherwise the text after the
      leftmost match's `=`, which holds no `;` and runs up to the next `;`
      or the end. */
  lemma CookieLookupIsLeftmostCapture(cookie: string, name: string)
    ensures var r := CookieLookup(cookie, name);
      && (r.None? <==> forall p :: 0 <= p <= |cookie| ==> MatchAt(cookie, name, p).None?)
      && (r.Some? ==> forall i :: 0 <= i < |r.value| ==> r.value[i] != ';')
      && (r.Some? ==>
            exists p :: 0 <= p <= |cookie| && MatchAt(cookie, name, p).Some?
              && (forall q :: 0 <= q < p ==> MatchAt(cookie, name, q).None?)
              && var v := cookie[MatchAt(cookie, name, p).value..];
                 r.value <= v && (|r.value| == |v| || v[|r.value|] == ';'))
  {
    FirstMatchIsLeftmost(cookie, name);
  }

  /** `getCookie`: the first matching value, passed through the page's
      percent-decoder; `None` when no pair for `name` exists. */
  function GetCookie(cookie: string, name: string, decode: string -> string): Option<string> {
    match CookieLookup(cookie, name)
    case None => None
    case Some(raw) => Some(decode(raw))
  }

  /** A `name=value` pair as `document.cookie` lists it. */
  type CookiePair = (string, string)

  /** `document.cookie`: the visible pairs, each written `name=value`, joined
      by `"; "`. */
  function CookieString(jar: seq<CookiePair>): string
    decreases |jar|
  {
    if |jar| == 0 then ""
    else if |jar| == 1 then jar[0].0 + "=" + jar[0].1
    else jar[0].0 + "=" + jar[0].1 + "; " + CookieString(jar[1..])
  }

  predicate SemicolonFree(s: string) {
    forall i :: 0 <= i < |s| ==> s[i] != ';'
  }

  /** A cookie name as browsers accept it: no `;` and no `=`. */
  predicate PlainName(n: string) {
    SemicolonFree(n) && forall i :: 0 <= i < |n| ==> n[i] != '='
  }

  /** A cookie listing whose every pair has a non-empty plain name and a
      value without `;`. */
  predicate WellFormedJar(jar: seq<CookiePair>) {
    forall i :: 0 <= i < |jar| ==> |jar[i].0| >= 1 && PlainName(jar[i].0) && SemicolonFree(jar[i].1)
  }

  /** The value of the first pair named `name`. */
  function JarValue(jar: seq<CookiePair>, name: string): Option<string>
    decreases |jar|
  {
    if |jar| == 0 then None
    else if jar[0].0 == name then Some(jar[0].1)
    else JarValue(jar[1..], name)
  }

  /** In `head; rest`, with `head` free of `;` and `rest` not starting with
      one, the pattern cannot match inside `head`, on the space of the
      separator, or at the start of `rest`. */
  lemma NoMatchInHead(head: string, rest: string, name: string, p: int)
    requires |head| >= 1 && SemicolonFree(head)
    requires |rest| == 0 || rest[0] != ';'
    requires 0 < p <= |head| + 2 && p != |head|
    ensures MatchAt(head + "; " + rest, name, p).None?
  {
    var s := head + "; " + rest;
    if p < |head| {
      assert s[p] == head[p];
    } else if p == |head| + 1 {
      assert s[p] == ' ';
    } else if |rest| > 0 {
      assert s[p] == rest[0];
    }
  }

  /** The separator in front of `rest` matches exactly when `rest` starts
      with `name=`, and the value then starts at the same place. */
  lemma MatchAtSeparator(head: string, rest: string, name: string)
    requires PlainName(name) && (|rest| == 0 || rest[0] != ';')
    ensures var s := head + "; " + rest;
      && (MatchAt(s, name, |head|).Some? <==> MatchAt(rest, name, 0).Some?)
      && (MatchAt(s, name, |head|).Some? ==>
            MatchAt(s, name, |head|).value == MatchAt(rest, name, 0).value + |head| + 2)
  {
    var s := head + "; " + rest;
    var key := name + "=";
    assert |key| >= 1 && key[0] != ';';
    if |head| + 2 + |key| <= |s| {
      var w := s[|head|..|head| + 2 + |key|];
      assert w == "; " + rest[..|key|];
      assert w[2..] == rest[..|key|];
      assert key <= rest <==> rest[..|key|] == key;
    } else {
      assert !(key <= rest);
    }
  }

  /** Past the separator, the pattern matches in `head; rest` exactly where
      it matches in `rest`. */
  lemma MatchInRest(head: string, rest: string, name: string, p: int)
    requires |head| + 2 < p <= |head| + 2 + |rest|
    ensures var s, d := head + "; " + rest, |head| + 2;
      && (MatchAt(s, name, p).Some? <==> MatchAt(rest, name, p - d).Some?)
      && (MatchAt(s, name, p).Some? ==> MatchAt(s, name, p).value == MatchAt(rest, name, p - d).value + d)
  {
    var s, d := head + "; " + rest, |head| + 2;
    var n := 2 + |name + "="|;
    if p + n <= |s| {
      assert s[p..p + n] == rest[p - d..p - d + n];
    }
  }

  /** Where the pattern matches in `s`, a listing that continues with
      `rest` after `d` characters: nowhere before `d` except possibly at
      `at`, which corresponds to the start of `rest`, and past `d` exactly
      where it matches in `rest`, moved along by `d`. */
  ghost predicate Continues(s: string, rest: string, name: string, d: int, at: int) {
    && 0 <= at < d && |s| == d + |rest|
    && NoneBefore(s, name, d, at)
    && SameAt(s, rest, name, d, at)
    && SameAfter(s, rest, name, d)
    && s[d..] == rest
  }

  ghost predicate NoneBefore(s: string, name: string, d: int, at: int) {
    forall p :: 0 <= p <= d && p != at ==> MatchAt(s, name, p).None?
  }

  ghost predicate SameAt(s: string, rest: string, name: string, d: int, at: int) {
    && (MatchAt(s, name, at).Some? <==> MatchAt(rest, name, 0).Some?)
    && (MatchAt(s, name, at).Some? ==> MatchAt(s, name, at).value == MatchAt(rest, name, 0).value + d)
  }

  ghost predicate SameAfter(s: string, rest: string, name: string, d: int) {
    && (forall p :: d < p <= |s| ==> (MatchAt(s, name, p).Some? <==> MatchAt(rest, name, p - d).Some?))
    && (forall p :: d < p <= |s| && MatchAt(s, name, p).Some? ==>
          MatchAt(s, name, p).value == MatchAt(rest, name, p - d).value + d)
  }

  /** The pattern matches in `head; rest` as `Continues` describes. */
  lemma SkipContinues(head: string, rest: string, name: string)
    requires |head| >= 1 && SemicolonFree(head) && PlainName(name)
    requires |rest| == 0 || rest[0] != ';'
    requires MatchAt(head + "; " + rest, name, 0).None?
    ensures Continues(head + "; " + rest, rest, name, |head| + 2, |head|)
  {
    var s, d := head + "; " + rest, |head| + 2;
    forall p | 0 < p <= d && p != |head|
      ensures MatchAt(s, name, p).None?
    {
      NoMatchInHead(head, rest, name, p);
    }
    MatchAtSeparator(head, rest, name);
    forall p | d < p <= |s|
      ensures MatchAt(s, name, p).Some? <==> MatchAt(rest, name, p - d).Some?
      ensures MatchAt(s, name, p).Some? ==> MatchAt(s, name, p).value == MatchAt(rest, name, p - d).value + d
    {
      MatchInRest(head, rest, name, p);
    }
    assert s[d..] == rest;
    assert NoneBefore(s, name, d, |head|);
    assert SameAt(s, rest, name, d, |head|);
    assert SameAfter(s, rest, name, d);
  }

  /** The facts `Continues` gives, stated of the `Matches` predicates. */
  lemma MatchesContinue(s: string, rest: string, name: string, d: int, at: int)
    requires 0 <= at < d && |s| == d + |rest|
    requires NoneBefore(s, name, d, at) && SameAt(s, rest, name, d, at) && SameAfter(s, rest, name, d)
    ensures forall p :: 0 <= p <= d && p != at ==> !Matches(s, name)(p)
    ensures Matches(s, name)(at) == Matches(rest, name)(0)
    ensures forall p :: d < p <= |s| ==> Matches(s, name)(p) == Matches(rest, name)(p - d)
  {
    assert forall p :: Matches(s, name)(p) == MatchAt(s, name, p).Some?;
    assert forall p :: Matches(rest, name)(p) == MatchAt(rest, name, p).Some?;
  }

  /** In a continuing listing the leftmost match is the leftmost match of
      the rest, moved along. */
  lemma FirstMatchContinues(s: string, rest: string, name: string, d: int, at: int)
    requires 0 <= at < d && |s| == d + |rest|
    requires NoneBefore(s, name, d, at) && SameAt(s, rest, name, d, at) && SameAfter(s, rest, name, d)
    ensures FirstMatch(s, name) == Moved(FirstMatch(rest, name), d, at)
  {
    MatchesContinue(s, rest, name, d, at);
    FirstWhereMoved(Matches(s, name), Matches(rest, name), |s|, |rest|, d, at);
  }

  /** Where the leftmost match of a continuing listing begins its value
      where the leftmost match of the rest does, moved along. */
  lemma FirstValueMoves(s: string, rest: string, name: string, d: int, at: int)
    requires 0 <= at < d && |s| == d + |rest|
    requires SameAt(s, rest, name, d, at) && SameAfter(s, rest, name, d)
    requires FirstMatch(s, name) == Moved(FirstMatch(rest, name), d, at)
    ensures FirstMatch(s, name).Some? <==> FirstMatch(rest, name).Some?
    ensures FirstMatch(rest, name).Some? ==>
      var m, p := FirstMatch(s, name).value, FirstMatch(rest, name).value;
      && MatchAt(s, name, m).Some? && MatchAt(rest, name, p).Some?
      && MatchAt(s, name, m).value == MatchAt(rest, name, p).value + d
  {
    var found := FirstMatch(rest, name);
    if found.Some? {
      FirstMatchIsLeftmost(rest, name);
      var p := found.value;
      if p != 0 {
        assert d < p + d <= |s|;
      }
    }
  }

  /** Where the leftmost matches of a listing and of its continuation begin
      their values at corresponding places, the two lookups agree. */
  lemma LookupContinues(s: string, rest: string, name: string, d: int)
    requires 0 <= d <= |s| && s[d..] == rest
    requires FirstMatch(s, name).Some? <==> FirstMatch(rest, name).Some?
    requires FirstMatch(rest, name).Some? ==>
      var m, p := FirstMatch(s, name).value, FirstMatch(rest, name).value;
      && MatchAt(s, name, m).Some? && MatchAt(rest, name, p).Some?
      && MatchAt(s, name, m).value == MatchAt(rest, name, p).value + d
    ensures CookieLookup(s, name) == CookieLookup(rest, name)
  {
    if FirstMatch(rest, name).Some? {
      var k := MatchAt(rest, name, FirstMatch(rest, name).value).value;
      assert s[d + k..] == s[d..][k..];
    }
  }

  /** Skipping a first pair that does not match: looking `name` up in
      `head; rest` finds what looking it up in `rest` finds. */
  lemma LookupSkip(head: string, rest: string, name: string)
    requires |head| >= 1 && SemicolonFree(head) && PlainName(name)
    requires |rest| == 0 || rest[0] != ';'
    requires MatchAt(head + "; " + rest, name, 0).None?
    ensures CookieLookup(head + "; " + rest, name) == CookieLookup(rest, name)
  {
    var s, d := head + "; " + rest, |head| + 2;
    SkipContinues(head, rest, name);
    FirstMatchContinues(s, rest, name, d, |head|);
    FirstValueMoves(s, rest, name, d, |head|);
    LookupContinues(s, rest, name, d);
  }

  /** Indexing and slicing a concatenation within its left part. */
  lemma IndexOfConcat(a: string, b: string, i: int)
    ensures 0 <= i < |a| ==> (a + b)[i] == a[i]
  {
  }

  /** Of two concatenations, one a prefix of the other, the left parts of
      equal length are equal. */
  lemma SameLengthPrefix(a: string, b: string, c: string, e: string)
    ensures |a| == |c| && a + b <= c + e ==> a == c
  {
    if |a| == |c| && a + b <= c + e {
      forall i | 0 <= i < |a|
        ensures a[i] == c[i]
      {
        assert a[i] == (a + b)[i] == (c + e)[i] == c[i];
      }
    }
  }

  /** A pair `n0=v0...` whose name differs from `name` does not start with
      `name=`, nor with the `"; "` separator. */
  lemma OtherPairNoMatch(n0: string, v0: string, t: string, name: string)
    requires PlainName(n0) && PlainName(name) && n0 != name
    ensures MatchAt(n0 + "=" + v0 + t, name, 0).None?
  {
    var s := n0 + "=" + v0 + t;
    var key := name + "=";
    assert s[|n0|] == '=';
    assert s[0] != ';' by {
      if |n0| > 0 { assert s[0] == n0[0]; }
    }
    assert s == n0 + ("=" + v0 + t);
    if key <= s {
      IndexOfConcat(n0, "=" + v0 + t, |name|);
      IndexOfConcat(name, "=", |n0|);
      if |name| < |n0| {
        assert false;
      } else if |name| > |n0| {
        assert false;
      } else {
        SameLengthPrefix(name, "=", n0, "=" + v0 + t);
        assert false;
      }
    }
  }

  /** A first pair named `name` yields its whole value. */
  lemma LookupFirst(n0: string, v0: string, t: string)
    requires PlainName(n0) && SemicolonFree(v0) && (|t| == 0 || t[0] == ';')
    ensures CookieLookup(n0 + "=" + v0 + t, n0) == Some(v0)
  {
    var s := n0 + "=" + v0 + t;
    assert n0 + "=" <= s;
    assert MatchAt(s, n0, 0) == Some(|n0| + 1);
    FirstMatchIsLeftmost(s, n0);
    assert FirstMatch(s, n0) == Some(0);
    assert s[|n0| + 1..] == v0 + t;
    SpanOfPrefix(v0, t, NotSemicolon);
  }

  /** A lone pair that does not start with `name=` yields nothing. */
  lemma LookupMissing(head: string, name: string)
    requires SemicolonFree(head) && MatchAt(head, name, 0).None?
    ensures CookieLookup(head, name).None?
  {
    forall p | 0 < p <= |head|
      ensures MatchAt(head, name, p).None?
    {
      if p < |head| {
        assert head[p..][0] == head[p];
      }
    }
    FirstMatchIsLeftmost(head, name);
  }

  /** `getCookie` reads `document.cookie` correctly: for well-formed pairs
      and a plain name, the lookup yields the value of the first pair with
      that name, and nothing when no pair has it. */
  lemma {:induction false} CookieLookupReadsJar(jar: seq<CookiePair>, name: string)
    requires WellFormedJar(jar) && PlainName(name)
    ensures CookieLookup(CookieString(jar), name) == JarValue(jar, name)
    decreases |jar|
  {
    if |jar| == 0 {
      LookupMissing("", name);
    } else {
      var n0, v0 := jar[0].0, jar[0].1;
      var head := n0 + "=" + v0;
      if |jar| == 1 {
        assert CookieString(jar) == head + "";
        if n0 == name {
          LookupFirst(n0, v0, "");
        } else {
          OtherPairNoMatch(n0, v0, "", name);
          LookupMissing(head, name);
        }
      } else {
        var rest := CookieString(jar[1..]);
        var tail := "; " + rest;
        assert CookieString(jar) == head + tail == n0 + "=" + v0 + tail;
        if n0 == name {
          LookupFirst(n0, v0, tail);
        } else {
          assert WellFormedJar(jar[1..]) by {
            assert forall i :: 0 <= i < |jar| - 1 ==> jar[1..][i] == jar[i + 1];
          }
          RestStart(jar[1..]);
          OtherPairNoMatch(n0, v0, tail, name);
          assert head[|n0|] == '=';
          LookupSkip(head, rest, name);
          CookieLookupReadsJar(jar[1..], name);
        }
      }
    }
  }

  /** A well-formed non-empty listing does not start with `;`. */
  lemma RestStart(jar: seq<CookiePair>)
    requires |jar| >= 1 && WellFormedJar(jar)
    ensures |CookieString(jar)| >= 1 && CookieString(jar)[0] != ';'
  {
    var n0, v0 := jar[0].0, jar[0].1;
    var s := CookieString(jar);
    if |jar| == 1 {
      assert s == n0 + "=" + v0;
    } else {
      assert s == n0 + "=" + v0 + "; " + CookieString(jar[1..]);
    }
    assert |n0| >= 1;
    assert s[0] == n0[0];
  }

  /** `getCookie` over a well-formed `document.cookie`: the decoded value of
      the first pair with that name. */
  lemma GetCookieReadsJar(jar: seq<CookiePair>, name: string, decode: string -> string)
    requires WellFormedJar(jar) && PlainName(name)
    ensures GetCookie(CookieString(jar), name, decode) ==
      match JarValue(jar, name) { case None => None case Some(v) => Some(decode(v)) }
  {
    CookieLookupReadsJar(jar, name);
  }

  // ---------------------------------------------------------------- headers

  /** The ambient credential stores `httpGet` reads afresh on every call. */
  datatype Browser = Browser(cookie: string, storage: map<string, string>)

  const TokenCookie := "pku_token"
  const XsrfCookie := "XSRF-TOKEN"
  const UuidKey := "pku-uuid"

  /** JavaScript truthiness of a `string | null | undefined`. */
  predicate Truthy(v: Option<string>) {
    v.Some? && v.value != ""
  }

  function StoredUuid(b: Browser): Option<string> {
    if UuidKey in b.storage then Some(b.storage[UuidKey]) else None
  }

  predicate HasHeader(h: seq<Header>, name: string) {
    exists i :: 0 <= i < |h| && h[i].0 == name
  }

  /** The header object `httpGet` sends: the two fixed headers, then each
      credential header only when its credential is truthy. */
  function RequestHeaders(token: Option<string>, xsrf: Option<string>, uuid: Option<string>): (h: seq<Header>)
    ensures |h| >= 2 && h[0] == ("Accept", "application/json")
    ensures h[1] == ("X-Requested-With", "XMLHttpRequest")
  {
    var auth := if Truthy(token) then [("Authorization", "Bearer " + token.value)] else [];
    var anti := if Truthy(xsrf) then [("X-XSRF-TOKEN", xsrf.value)] else [];
    var device := if Truthy(uuid) then [("Uuid", uuid.value)] else [];
    Fixed + auth + anti + device
  }

  /** The two headers every request carries. */
  const Fixed: seq<Header> := [("Accept", "application/json"), ("X-Requested-With", "XMLHttpRequest")]

  /** Each credential header is present exactly when its credential is
      truthy. */
  lemma CredentialHeaderPresence(token: Option<string>, xsrf: Option<string>, uuid: Option<string>)
    ensures var h := RequestHeaders(token, xsrf, uuid);
      && (HasHeader(h, "Authorization") <==> Truthy(token))
      && (HasHeader(h, "X-XSRF-TOKEN") <==> Truthy(xsrf))
      && (HasHeader(h, "Uuid") <==> Truthy(uuid))
  {
    var h := RequestHeaders(token, xsrf, uuid);
    var auth := if Truthy(token) then [("Authorization", "Bearer " + token.value)] else [];
    var anti := if Truthy(xsrf) then [("X-XSRF-TOKEN", xsrf.value)] else [];
    var device := if Truthy(uuid) then [("Uuid", uuid.value)] else [];
    assert h == Fixed + auth + anti + device;
    if Truthy(token) { assert h[2].0 == "Authorization"; }
    if Truthy(xsrf) { assert h[2 + |auth|].0 == "X-XSRF-TOKEN"; }
    if Truthy(uuid) { assert h[2 + |auth| + |anti|].0 == "Uuid"; }
  }

  /** A credential header carries its credential, and no header value is
      ever empty. */
  lemma CredentialHeaderValues(token: Option<string>, xsrf: Option<string>, uuid: Option<string>)
    ensures var h := RequestHeaders(token, xsrf, uuid);
      && (forall i :: 0 <= i < |h| && h[i].0 == "Authorization" ==> h[i].1 == "Bearer " + token.value)
      && (forall i :: 0 <= i < |h| && h[i].0 == "X-XSRF-TOKEN" ==> h[i].1 == xsrf.value)
      && (forall i :: 0 <= i < |h| && h[i].0 == "Uuid" ==> h[i].1 == uuid.value)
      && (forall i :: 0 <= i < |h| ==> h[i].1 != "")
  {
    var h := RequestHeaders(token, xsrf, uuid);
    var auth := if Truthy(token) then [("Authorization", "Bearer " + token.value)] else [];
    var anti := if Truthy(xsrf) then [("X-XSRF-TOKEN", xsrf.value)] else [];
    var device := if Truthy(uuid) then [("Uuid", uuid.value)] else [];
    assert h == Fixed + auth + anti + device;
  }

  /** No header name is sent twice, and nothing beyond the two fixed headers
      and the three credential headers is sent. */
  lemma HeaderNamesDistinct(token: Option<string>, xsrf: Option<string>, uuid: Option<string>)
    ensures var h := RequestHeaders(token, xsrf, uuid);
      && (forall i, j :: 0 <= i < j < |h| ==> h[i].0 != h[j].0)
      && (forall i :: 2 <= i < |h| ==> h[i].0 in {"Authorization", "X-XSRF-TOKEN", "Uuid"})
  {
    var h := RequestHeaders(token, xsrf, uuid);
    var auth := if Truthy(token) then [("Authorization", "Bearer " + token.value)] else [];
    var anti := if Truthy(xsrf) then [("X-XSRF-TOKEN", xsrf.value)] else [];
    var device := if Truthy(uuid) then [("Uuid", uuid.value)] else [];
    assert h == Fixed + auth + anti + device;
  }

  /** The headers for a request made while `b` holds the credentials. */
  function CredentialHeaders(b: Browser, decode: string -> string): seq<Header> {
    RequestHeaders(
      GetCookie(b.cookie, TokenCookie, decode),
      GetCookie(b.cookie, XsrfCookie, decode),
      StoredUuid(b))
  }

  // ---------------------------------------------------------------- httpGet

  /** What the network reports for one request: `fetch` rejected, or a
      response with its status line and what `res.json()` yields. */
  datatype Exchange<+T> =
    | Unreachable(reason: string)
    | Received(status: int, statusText: string, body: Result<T, string>)

  /** `Response.ok`. */
  predicate IsOk(status: int) {
    200 <= status <= 299
  }

  /** `httpGet`: sends `req` with the credential headers through `send` and
      resolves with the parsed body of an ok response. */
  function HttpGet<T>(req: Request, b: Browser, decode: string -> string,
                      send: (Request, seq<Header>) -> Exchange<T>): (r: Result<T, Failure>)
    ensures var ex := send(req, CredentialHeaders(b, decode));
      && (r.Success? <==> ex.Received? && IsOk(ex.status) && ex.body.Success?)
      && (r.Success? ==> r.value == ex.body.value)
      && (ex.Received? && !IsOk(ex.status) ==>
            r.Failure? && Message(r.error) == "HTTP " + IntToString(ex.status) + " " + ex.statusText)
      && (ex.Unreachable? ==> r == Failure(Network(ex.reason)))
  {
    match send(req, CredentialHeaders(b, decode))
    case Unreachable(reason) => Failure(Network(reason))
    case Received(status, statusText, body) =>
      if !IsOk(status) then Failure(HttpStatus(status, statusText))
      else match body
        case Success(v) => Success(v)
        case Failure(reason) => Failure(Malformed(reason))
  }
}
