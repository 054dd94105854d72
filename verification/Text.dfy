/** The string operations of the Rust standard library that the modelled code uses. */
module Text {
  function AsciiLower(c: char): char {
    if 'A' <= c <= 'Z' then c + 32 as char else c
  }

  /** `eq_ignore_ascii_case`. */
  predicate EqIgnoreCase(a: string, b: string) {
    |a| == |b| && forall i :: 0 <= i < |a| ==> AsciiLower(a[i]) == AsciiLower(b[i])
  }

  /** The Unicode White_Space property. */
  predicate IsWhitespace(c: char) {
    var n := c as int;
    || 0x9 <= n <= 0xD || n == 0x20 || n == 0x85 || n == 0xA0 || n == 0x1680
    || 0x2000 <= n <= 0x200A || n == 0x2028 || n == 0x2029 || n == 0x202F
    || n == 0x205F || n == 0x3000
  }

  /** How many characters of leading white space `s` has. */
  function SpaceRun(s: string): (n: nat)
    ensures n <= |s| && (n < |s| ==> !IsWhitespace(s[n]))
    ensures forall j :: 0 <= j < n ==> IsWhitespace(s[j])
  {
    if s != "" && IsWhitespace(s[0]) then 1 + SpaceRun(s[1..]) else 0
  }

  function TrimStart(s: string): string {
    s[SpaceRun(s)..]
  }

  function TrimEnd(s: string): string {
    if s != "" && IsWhitespace(s[|s| - 1]) then TrimEnd(s[..|s| - 1]) else s
  }

  /** `str::trim`. */
  function Trim(s: string): string {
    TrimEnd(TrimStart(s))
  }

  predicate StartsWith(s: string, pattern: string) {
    pattern <= s
  }

  predicate Contains(s: string, pattern: string) {
    exists i :: 0 <= i <= |s| && pattern <= s[i..]
  }

  /** How often `c` occurs in `s`. */
  function Count(s: string, c: char): nat {
    if s == "" then 0 else (if s[0] == c then 1 else 0) + Count(s[1..], c)
  }

  function WordRun(s: string): (n: nat)
    ensures n <= |s| && (n < |s| ==> IsWhitespace(s[n]))
    ensures forall j :: 0 <= j < n ==> !IsWhitespace(s[j])
    ensures s != "" && !IsWhitespace(s[0]) ==> n > 0
  {
    if s != "" && !IsWhitespace(s[0]) then 1 + WordRun(s[1..]) else 0
  }

  /** `str::split_whitespace`. */
  function Words(s: string): seq<string>
    decreases |s|
  {
    var t := TrimStart(s);
    if t == "" then [] else [t[..WordRun(t)]] + Words(t[WordRun(t)..])
  }

  lemma {:induction false} CountConcat(a: string, b: string, c: char)
    ensures Count(a + b, c) == Count(a, c) + Count(b, c)
  {
    if a == "" {
      assert a + b == b;
    } else {
      assert (a + b)[1..] == a[1..] + b;
      CountConcat(a[1..], b, c);
    }
  }

  lemma {:induction false} CountAbsent(s: string, c: char)
    requires c !in s
    ensures Count(s, c) == 0
  {
    if s != "" {
      CountAbsent(s[1..], c);
    }
  }

  lemma TrimIndented(s: string)
    ensures Trim("\t" + s) == Trim(s)
  {
    assert ("\t" + s)[1..] == s;
    assert ("\t" + s)[1 + SpaceRun(s)..] == s[SpaceRun(s)..];
  }

  lemma TrimSolid(s: string)
    requires s != "" && !IsWhitespace(s[0]) && !IsWhitespace(s[|s| - 1])
    ensures Trim(s) == s
  {
    assert s[0..] == s;
  }

  lemma WordsFirst(word: string, rest: string)
    requires word != "" && forall i :: 0 <= i < |word| ==> !IsWhitespace(word[i])
    requires rest == "" || IsWhitespace(rest[0])
    ensures Words(word + rest) == [word] + Words(rest)
  {
    var s := word + rest;
    assert !IsWhitespace(s[0]);
    assert s[0..] == s && TrimStart(s) == s;
    var n := WordRun(s);
    assert n < |s| ==> IsWhitespace(s[n]);
    assert |word| < |s| ==> IsWhitespace(s[|word|]);
    assert forall i :: 0 <= i < |word| ==> s[i] == word[i];
    assert n == |word|;
    assert s[..n] == word && s[n..] == rest;
  }

  lemma WordsSkipSpace(s: string)
    ensures Words(" " + s) == Words(s)
  {
    assert (" " + s)[1..] == s;
    assert (" " + s)[1 + SpaceRun(s)..] == s[SpaceRun(s)..];
  }
}
