/**
 * The cookie-string parser (`parseCookies`) and the check its caller makes
 * before the browser is navigated anywhere.
 */
module Cookies {
  import opened Wrappers
  import opened Text

  /** A cookie record as it is handed to the browser. */
  datatype Cookie = Cookie(
    name: string,
    value: string,
    domain: string,
    path: string,
    secure: bool,
    httpOnly: bool,
    sameSite: string)

  const CookieDomain: string := ".facebook.com"
  const InvalidCookiesMessage: string := "Invalid cookies format"

  /** A record with the fixed attributes every parsed cookie carries. */
  function NewCookie(name: string, value: string): Cookie {
    Cookie(name, value, CookieDomain, "/", true, false, "None")
  }

  /** What every record the parser emits looks like. */
  predicate WellFormed(c: Cookie) {
    && c.name != [] && IsTrimmed(c.name) && '=' !in c.name && ';' !in c.name
    && c.value != [] && IsTrimmed(c.value) && ';' !in c.value
    && c.domain == ".facebook.com" && c.path == "/" && c.secure && !c.httpOnly
    && c.sameSite == "None"
  }

  /**
   * One `;`-segment: trimmed, cut at its first `=` (later ones stay in the
   * value), kept only when both halves are non-empty.
   */
  function ParseSegment(pair: string): (r: Option<Cookie>)
    ensures r.Some? ==> '=' in Trim(pair)
    ensures r.Some? ==> r.value == NewCookie(r.value.name, r.value.value)
    ensures r.Some? ==> IsTrimmed(r.value.name) && IsTrimmed(r.value.value)
  {
    var trimmed := Trim(pair);
    if trimmed == [] then None
    else
      var parts := Split(trimmed, '=');
      var name := parts[0];
      var value := Join(parts[1..], '=');
      if name != [] && value != [] then Some(NewCookie(Trim(name), Trim(value))) else None
  }

  /** The values present in `xs`, in order. */
  function Present<T>(xs: seq<Option<T>>): (ys: seq<T>)
    ensures |ys| <= |xs|
  {
    if xs == [] then []
    else
      var last := xs[|xs| - 1];
      Present(xs[..|xs| - 1]) + (if last.Some? then [last.value] else [])
  }

  /** The outcome of every segment, segment by segment. */
  function Segments(pairs: seq<string>): (outcomes: seq<Option<Cookie>>)
    ensures |outcomes| == |pairs|
    ensures forall i :: 0 <= i < |pairs| ==> outcomes[i] == ParseSegment(pairs[i])
  {
    seq(|pairs|, i requires 0 <= i < |pairs| => ParseSegment(pairs[i]))
  }

  /** The records of a sequence of segments, in segment order. */
  function CookiesOf(pairs: seq<string>): seq<Cookie> {
    Present(Segments(pairs))
  }

  /** What `parseCookies(cookieString)` returns. */
  function ParseCookieString(cookieString: string): (cookies: seq<Cookie>)
    ensures |cookies| <= |Split(cookieString, ';')|
  {
    CookiesOf(Split(cookieString, ';'))
  }

  /** `parseCookies`: one pass over the `;`-segments, pushing each accepted record. */
  method ParseCookies(cookieString: string) returns (cookies: seq<Cookie>)
    ensures cookies == ParseCookieString(cookieString)
  {
    cookies := [];
    var pairs := Split(cookieString, ';');
    for k := 0 to |pairs|
      invariant cookies == Present(Segments(pairs[..k]))
    {
      assert Segments(pairs[..k + 1])[..k] == Segments(pairs[..k]);
      var outcome := ParseSegment(pairs[k]);
      assert Present(Segments(pairs[..k + 1]))
          == Present(Segments(pairs[..k])) + if outcome.Some? then [outcome.value] else [];
      var trimmed := Trim(pairs[k]);
      if trimmed == [] {
        continue;
      }
      var parts := Split(trimmed, '=');
      var name, value := parts[0], Join(parts[1..], '=');
      if name != [] && value != [] {
        cookies := cookies + [NewCookie(Trim(name), Trim(value))];
      }
    }
    assert pairs[..|pairs|] == pairs;
  }


  /**
   * The caller's check: no record means the session fails with
   * `Invalid cookies format` and goes no further.
   */
  function LoadCookies(cookieString: string): (r: Result<seq<Cookie>, string>)
    ensures r.Ok? ==> r.value != [] && forall i :: 0 <= i < |r.value| ==> WellFormed(r.value[i])
    ensures r.Err? ==> r.error == InvalidCookiesMessage
    ensures r.Ok? <==> ParseCookieString(cookieString) != []
  {
    var cookies := ParseCookieString(cookieString);
    ParsedCookiesWellFormed(cookieString);
    if cookies == [] then Err(InvalidCookiesMessage) else Ok(cookies)
  }

  /**
   * A segment whose trimmed text is `n=v`, with `n` free of `=`, gives a
   * record exactly when `n` and `v` are both non-empty; its name is `n` and
   * its value is `v` (any later `=` included), each trimmed.
   */
  lemma SegmentAtFirstEquals(pair: string, n: string, v: string)
    requires Trim(pair) == n + ['='] + v
    requires '=' !in n
    ensures ParseSegment(pair) == if n != [] && v != [] then Some(NewCookie(Trim(n), Trim(v))) else None
  {
    SplitAtSeparator(n, v, '=');
    var parts := Split(Trim(pair), '=');
    assert parts == [n] + Split(v, '=');
    assert parts[1..] == Split(v, '=');
  }

  /** A segment whose trimmed text has no `=` (a bare word, or blank) gives no record. */
  lemma SegmentWithoutEquals(pair: string)
    requires '=' !in Trim(pair)
    ensures ParseSegment(pair) == None
  {
    var trimmed := Trim(pair);
    if trimmed != [] {
      SplitPrefix(trimmed, [], '=');
      assert trimmed + [] == trimmed;
      assert Split(trimmed, '=')[1..] == [];
    }
  }

  /** A record made from a `;`-free segment is well formed. */
  lemma SegmentCookieWellFormed(pair: string)
    requires ';' !in pair
    requires ParseSegment(pair).Some?
    ensures WellFormed(ParseSegment(pair).value)
  {
    var trimmed := Trim(pair);
    var parts := Split(trimmed, '=');
    var name, value := parts[0], Join(parts[1..], '=');
    assert |parts| >= 2;
    assert trimmed == name + ['='] + value;
    TrimmedHalf(name, trimmed, pair);
    TrimmedHalf(value, trimmed, pair);
  }

  /**
   * A non-empty half of a trimmed segment that starts or ends it keeps
   * something after its own trim, and every character left comes from the half.
   */
  lemma TrimmedHalf(half: string, trimmed: string, pair: string)
    requires half != [] && trimmed != [] && IsTrimmed(trimmed)
    requires half[0] == trimmed[0] || half[|half| - 1] == trimmed[|trimmed| - 1]
    requires forall c :: c in half ==> c in pair
    ensures Trim(half) != []
    ensures forall c :: c in Trim(half) ==> c in half && c in pair
  {
    assert !IsWhitespace(half[0]) || !IsWhitespace(half[|half| - 1]);
  }

  /**
   * Where each record comes from: `Origins(xs)[k]` is the index of the
   * outcome that gave value `k`. The indices strictly increase (values keep
   * their order) and every present outcome is among them (none is dropped).
   */
  function Origins<T>(xs: seq<Option<T>>): (idx: seq<nat>)
    ensures |idx| == |Present(xs)|
    ensures forall k :: 0 <= k < |idx| ==> idx[k] < |xs| && xs[idx[k]] == Some(Present(xs)[k])
    ensures forall k, l :: 0 <= k < l < |idx| ==> idx[k] < idx[l]
    ensures forall j :: 0 <= j < |xs| && xs[j].Some? ==> j in idx
  {
    if xs == [] then []
    else
      var last := |xs| - 1;
      var init := xs[..last];
      assert forall j :: 0 <= j < last ==> init[j] == xs[j];
      Origins(init) + (if xs[last].Some? then [last] else [])
  }

  /**
   * Every record the parser emits has a trimmed, non-empty name without `=`
   * or `;`, a trimmed, non-empty value without `;`, and the fixed attributes.
   */
  lemma ParsedCookiesWellFormed(cookieString: string)
    ensures forall i :: 0 <= i < |ParseCookieString(cookieString)| ==> WellFormed(ParseCookieString(cookieString)[i])
  {
    var pairs := Split(cookieString, ';');
    var outcomes := Segments(pairs);
    var idx := Origins(outcomes);
    forall k | 0 <= k < |idx| ensures WellFormed(Present(outcomes)[k]) {
      SegmentCookieWellFormed(pairs[idx[k]]);
    }
  }

  /** With no outcome present, `Present` gives nothing. */
  lemma {:induction false} PresentNone<T>(xs: seq<Option<T>>)
    requires forall i :: 0 <= i < |xs| ==> xs[i] == None
    ensures Present(xs) == []
  {
    if xs != [] {
      PresentNone(xs[..|xs| - 1]);
    }
  }

  /** A segment of blank input trims to nothing and gives no record. */
  lemma BlankSegment(pair: string, cookieString: string)
    requires forall i :: 0 <= i < |cookieString| ==> IsWhitespace(cookieString[i]) || cookieString[i] == ';'
    requires forall c :: c in pair ==> c in cookieString
    requires ';' !in pair
    ensures ParseSegment(pair) == None
  {
    forall i | 0 <= i < |pair| ensures IsWhitespace(pair[i]) {
      assert pair[i] in cookieString;
    }
  }

  /** Input made only of whitespace and `;` (the empty string included) gives no record. */
  lemma BlankInputYieldsNothing(cookieString: string)
    requires forall i :: 0 <= i < |cookieString| ==> IsWhitespace(cookieString[i]) || cookieString[i] == ';'
    ensures ParseCookieString(cookieString) == []
    ensures LoadCookies(cookieString) == Err(InvalidCookiesMessage)
  {
    var pairs := Split(cookieString, ';');
    forall j | 0 <= j < |pairs| ensures Segments(pairs)[j] == None {
      JoinKeepsCharacters(pairs, ';', j);
      BlankSegment(pairs[j], cookieString);
    }
    PresentNone(Segments(pairs));
  }

  /** `name=value`, the form one record takes in a cookie string. */
  function Format(c: Cookie): string {
    c.name + ['='] + c.value
  }

  /** Records written back as a cookie string, separated by `;`. */
  function Serialize(cookies: seq<Cookie>): string {
    Join(seq(|cookies|, i requires 0 <= i < |cookies| => Format(cookies[i])), ';')
  }

  lemma FormatParses(c: Cookie)
    requires WellFormed(c)
    ensures ParseSegment(Format(c)) == Some(c)
  {
    var f := Format(c);
    assert f[0] == c.name[0] && f[|f| - 1] == c.value[|c.value| - 1];
    assert Trim(f) == f;
    SegmentAtFirstEquals(f, c.name, c.value);
  }

  /** With every outcome present, `Present` keeps them all. */
  lemma {:induction false} PresentAll<T>(xs: seq<Option<T>>, ys: seq<T>)
    requires |xs| == |ys|
    requires forall i :: 0 <= i < |xs| ==> xs[i] == Some(ys[i])
    ensures Present(xs) == ys
  {
    if xs != [] {
      var n := |xs|;
      PresentAll(xs[..n - 1], ys[..n - 1]);
      assert ys == ys[..n - 1] + [ys[n - 1]];
    }
  }

  /** Parsing the cookie string that a list of well-formed records writes gives that list back. */
  lemma RoundTrip(cookies: seq<Cookie>)
    requires forall i :: 0 <= i < |cookies| ==> WellFormed(cookies[i])
    ensures ParseCookieString(Serialize(cookies)) == cookies
  {
    var pairs := seq(|cookies|, i requires 0 <= i < |cookies| => Format(cookies[i]));
    if cookies == [] {
      assert Serialize(cookies) == [];
      assert Split([], ';') == [[]];
      assert Trim([]) == [];
    } else {
      forall i | 0 <= i < |pairs| ensures ';' !in pairs[i] {
        assert WellFormed(cookies[i]);
      }
      SplitJoin(pairs, ';');
      forall i | 0 <= i < |pairs| ensures Segments(pairs)[i] == Some(cookies[i]) {
        FormatParses(cookies[i]);
      }
      PresentAll(Segments(pairs), cookies);
    }
  }
}
