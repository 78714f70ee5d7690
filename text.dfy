/**
 * The JavaScript string operations the server relies on, on strings of
 * Unicode scalar values: `trim`, `split` and `join` with a one-character
 * separator, `includes`, and `toLowerCase` (ASCII letters only).
 */
module Text {

  /** The ECMAScript WhiteSpace and LineTerminator code points: what `trim` removes. */
  predicate IsWhitespace(c: char) {
    || c == '\t' || c == '\n' || c == '\U{B}' || c == '\U{C}' || c == '\r' || c == ' '
    || c == '\U{A0}' || c == '\U{1680}' || ('\U{2000}' <= c <= '\U{200A}')
    || c == '\U{2028}' || c == '\U{2029}' || c == '\U{202F}' || c == '\U{205F}'
    || c == '\U{3000}' || c == '\U{FEFF}'
  }

  /** Neither end of `s` is whitespace. */
  predicate IsTrimmed(s: string) {
    s == [] || (!IsWhitespace(s[0]) && !IsWhitespace(s[|s| - 1]))
  }

  /** `s` with its leading whitespace removed. */
  function TrimStart(s: string): (r: string)
    ensures |r| <= |s| && r == s[|s| - |r|..]
    ensures forall i :: 0 <= i < |s| - |r| ==> IsWhitespace(s[i])
    ensures r != [] ==> !IsWhitespace(r[0])
  {
    if s != [] && IsWhitespace(s[0]) then TrimStart(s[1..]) else s
  }

  /** `s` with its trailing whitespace removed. */
  function TrimEnd(s: string): (r: string)
    ensures |r| <= |s| && r == s[..|r|]
    ensures forall i :: |r| <= i < |s| ==> IsWhitespace(s[i])
    ensures r != [] ==> !IsWhitespace(r[|r| - 1])
  {
    if s != [] && IsWhitespace(s[|s| - 1]) then TrimEnd(s[..|s| - 1]) else s
  }

  /** `s.trim()`: the longest infix of `s` that neither starts nor ends with whitespace. */
  function Trim(s: string): (r: string)
    ensures IsTrimmed(r)
    ensures r == [] <==> forall i :: 0 <= i < |s| ==> IsWhitespace(s[i])
    ensures forall c :: c in r ==> c in s
    ensures IsTrimmed(s) ==> r == s
    ensures exists a :: WhitespaceAround(s, r, a)
  {
    var t := TrimStart(s);
    var r := TrimEnd(t);
    assert r != [] ==> r[0] == t[0];
    assert r == [] ==> t == [];
    WhitespaceAroundCuts(s, t, r);
    r
  }

  /**
   * Cutting a whitespace prefix off `s`, giving `t`, then a whitespace suffix
   * off `t`, giving `r`, leaves whitespace only around `r` in `s`.
   */
  lemma WhitespaceAroundCuts(s: string, t: string, r: string)
    requires |t| <= |s| && t == s[|s| - |t|..]
    requires forall i :: 0 <= i < |s| - |t| ==> IsWhitespace(s[i])
    requires |r| <= |t| && r == t[..|r|]
    requires forall i :: |r| <= i < |t| ==> IsWhitespace(t[i])
    ensures WhitespaceAround(s, r, |s| - |t|)
  {
    var a := |s| - |t|;
    assert s[a..a + |r|] == r;
    forall i | a + |r| <= i < |s| ensures IsWhitespace(s[i]) {
      assert s[i] == t[i - a];
    }
  }

  /** `s` is `r` preceded by `a` whitespace characters and followed by whitespace only. */
  predicate WhitespaceAround(s: string, r: string, a: int) {
    && 0 <= a <= |s| - |r| && s[a..a + |r|] == r
    && (forall i :: 0 <= i < a ==> IsWhitespace(s[i]))
    && (forall i :: a + |r| <= i < |s| ==> IsWhitespace(s[i]))
  }

  /** `parts.join(d)`: the first piece starts the text and, when more follow, the separator comes right after it. */
  function Join(parts: seq<string>, d: char): (r: string)
    ensures |parts| >= 1 ==> |parts[0]| <= |r| && r[..|parts[0]|] == parts[0]
    ensures |parts| >= 2 ==> |parts[0]| < |r| && r[|parts[0]|] == d
  {
    if parts == [] then []
    else if |parts| == 1 then parts[0]
    else parts[0] + [d] + Join(parts[1..], d)
  }

  /**
   * `s.split(d)` for a one-character separator: the pieces between the
   * occurrences of `d`, one more piece than there are occurrences.
   */
  function Split(s: string, d: char): (parts: seq<string>)
    ensures |parts| >= 1
    ensures forall i :: 0 <= i < |parts| ==> d !in parts[i]
    ensures Join(parts, d) == s
  {
    if s == [] then [[]]
    else
      var rest := Split(s[1..], d);
      if s[0] == d then [[]] + rest
      else [[s[0]] + rest[0]] + rest[1..]
  }

  /** Splitting text that starts with a separator-free prefix extends the first piece. */
  lemma {:induction false} SplitPrefix(a: string, s: string, d: char)
    requires d !in a
    ensures Split(a + s, d) == [a + Split(s, d)[0]] + Split(s, d)[1..]
  {
    if a == [] {
      var tail := Split(s, d);
      assert a + s == s && a + tail[0] == tail[0];
      assert tail == [tail[0]] + tail[1..];
    } else {
      var whole, tail := a + s, Split(s, d);
      assert whole[0] == a[0] != d && whole[1..] == a[1..] + s;
      SplitPrefix(a[1..], s, d);
      var rest := Split(a[1..] + s, d);
      assert rest == [a[1..] + tail[0]] + tail[1..];
      assert Split(whole, d) == [[a[0]] + rest[0]] + rest[1..];
      assert [a[0]] + (a[1..] + tail[0]) == a + tail[0];
    }
  }

  /** The first separator ends the first piece. */
  lemma {:induction false} SplitAtSeparator(a: string, s: string, d: char)
    requires d !in a
    ensures Split(a + [d] + s, d) == [a] + Split(s, d)
  {
    var next := [d] + s;
    assert a + [d] + s == a + next;
    assert next[0] == d && next[1..] == s;
    assert Split(next, d) == [[]] + Split(s, d);
    SplitPrefix(a, next, d);
    assert a + [] == a;
  }

  /** `split` undoes `join` whenever no piece contains the separator. */
  lemma {:induction false} SplitJoin(parts: seq<string>, d: char)
    requires |parts| >= 1
    requires forall i :: 0 <= i < |parts| ==> d !in parts[i]
    ensures Split(Join(parts, d), d) == parts
  {
    if |parts| == 1 {
      SplitPrefix(parts[0], [], d);
      assert parts[0] + [] == parts[0];
    } else {
      SplitJoin(parts[1..], d);
      SplitAtSeparator(parts[0], Join(parts[1..], d), d);
    }
  }

  /** There is one piece more than there are separators. */
  lemma {:induction false} SplitCount(s: string, d: char)
    ensures |Split(s, d)| == multiset(s)[d] + 1
  {
    if s != [] {
      assert s == [s[0]] + s[1..];
      SplitCount(s[1..], d);
    }
  }

  /** Every character of a piece occurs in the joined text. */
  lemma {:induction false} JoinKeepsCharacters(parts: seq<string>, d: char, i: nat)
    requires i < |parts|
    ensures forall c :: c in parts[i] ==> c in Join(parts, d)
  {
    if i > 0 {
      JoinKeepsCharacters(parts[1..], d, i - 1);
    }
  }

  /** `part` occurs in `s` starting at index `i`. */
  predicate OccursAt(s: string, part: string, i: int)
    requires 0 <= i <= |s| - |part|
  {
    s[i..i + |part|] == part
  }

  /** `s.includes(part)`: nothing longer than `s` occurs in it. */
  predicate Contains(s: string, part: string)
    ensures Contains(s, part) ==> |part| <= |s|
  {
    exists i :: 0 <= i <= |s| - |part| && OccursAt(s, part, i)
  }

  /** `toLowerCase` on one character, for the ASCII letters only. */
  function LowerChar(c: char): char {
    if 'A' <= c <= 'Z' then (c as int + 32) as char else c
  }

  /** `s.toLowerCase()`, folding ASCII letters only. */
  function Lower(s: string): (r: string)
    ensures |r| == |s|
    ensures forall i :: 0 <= i < |s| ==> r[i] == LowerChar(s[i])
  {
    seq(|s|, i requires 0 <= i < |s| => LowerChar(s[i]))
  }
}
