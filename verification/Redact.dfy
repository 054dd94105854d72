/** Transcript redaction (crates/progress-store/src/redact.rs).

    The scan works on the UTF-8 bytes of a line but slices it as text, so two index spaces
    meet in one loop.  `Redact` states the scan on characters; `RedactLine` is the loop on
    byte indices, in which every slice carries the obligation that its ends are character
    boundaries. */
module Redaction {
  import opened Prelude
  import opened Text

  // ---------------------------------------------------------------- keys and characters

  const SENSITIVE_KEYS: seq<string> := [
    "password=", "passwd=", "token=", "secret=", "api_key=", "apikey=",
    "authorization:", "auth_token=", "private_key="
  ]

  const MASK: string := "***redacted***"

  /** The key list and the mask.  The scan is stated for every policy of a certain shape, and
      the shipped one has it. */
  datatype Policy = Policy(keys: seq<string>, mask: string) {
    /** Keys are lower-case words closed by `=` or `:`; the mask holds nothing that ends a
        value or belongs to both a key's last character and a value, and neither end of it
        can be part of a key. */
    ghost predicate Shaped() {
      && (forall key :: key in keys ==> KeyShaped(key))
      && mask != ""
      && !KeyChar(AsciiLower(mask[0])) && !KeyChar(AsciiLower(mask[|mask| - 1]))
      && forall j :: 0 <= j < |mask| ==> MaskChar(mask[j])
    }
  }

  const POLICY := Policy(SENSITIVE_KEYS, MASK)

  predicate WordChar(c: char) {
    'a' <= c <= 'z' || c == '_'
  }

  predicate KeyChar(c: char) {
    WordChar(c) || c == '=' || c == ':'
  }

  predicate MaskChar(c: char) {
    c != '=' && c != ':' && !IsWhitespace(c) && !Terminates(false, c)
  }

  ghost predicate KeyShaped(key: string) {
    && key != "" && (key[|key| - 1] == '=' || key[|key| - 1] == ':')
    && forall j :: 0 <= j < |key| - 1 ==> WordChar(key[j])
  }

  lemma SensitiveKeyIsShaped(key: string)
    requires key in SENSITIVE_KEYS
    ensures KeyShaped(key)
  {
  }

  lemma ShippedPolicyIsShaped()
    ensures POLICY.Shaped()
  {
    forall key | key in POLICY.keys ensures KeyShaped(key) {
      SensitiveKeyIsShaped(key);
    }
    MaskIsShaped();
  }

  lemma MaskIsShaped()
    ensures MASK != "" && !KeyChar(AsciiLower(MASK[0])) && !KeyChar(AsciiLower(MASK[|MASK| - 1]))
    ensures forall j :: 0 <= j < |MASK| ==> MaskChar(MASK[j])
  {
  }

  predicate Terminates(header: bool, c: char) {
    c == '"' || c == '\'' || c == ';' || c == '&' || c == '|' || (!header && IsWhitespace(c))
  }

  predicate IsHeader(key: string) {
    key != "" && key[|key| - 1] == ':'
  }

  /** `s` begins with `key`, ASCII case aside. */
  predicate Matches(key: string, s: string) {
    |key| <= |s| && forall j :: 0 <= j < |key| ==> AsciiLower(s[j]) == key[j]
  }

  function FirstMatch(keys: seq<string>, s: string): (r: Option<string>)
    ensures r.Some? ==> r.value in keys && Matches(r.value, s)
    ensures r.None? ==> forall k :: k in keys ==> !Matches(k, s)
  {
    if keys == [] then None
    else if Matches(keys[0], s) then Some(keys[0])
    else FirstMatch(keys[1..], s)
  }

  /** How many characters come before the first terminator of `s`. */
  function ValueRun(header: bool, s: string): (n: nat)
    ensures n <= |s| && (n < |s| ==> Terminates(header, s[n]))
    ensures forall j :: 0 <= j < n ==> !Terminates(header, s[j])
  {
    if s != "" && !Terminates(header, s[0]) then 1 + ValueRun(header, s[1..]) else 0
  }

  /** Where the value of a key that `s` begins with starts and where it ends. */
  function ValueStart(key: string, s: string): (n: nat)
    requires Matches(key, s)
    ensures |key| <= n <= |s|
  {
    |key| + if IsHeader(key) then SpaceRun(s[|key|..]) else 0
  }

  function ValueEnd(key: string, s: string): (n: nat)
    requires Matches(key, s)
    ensures ValueStart(key, s) <= n <= |s|
  {
    var start := ValueStart(key, s);
    start + ValueRun(IsHeader(key), s[start..])
  }

  // ---------------------------------------------------------------- the scan on characters

  function Masked(p: Policy, nonEmpty: bool): string {
    if nonEmpty then p.mask else ""
  }

  function Redact(p: Policy, s: string): string
    requires p.Shaped()
    decreases |s|
  {
    if s == "" then ""
    else
      match FirstMatch(p.keys, s)
      case Some(key) =>
        var start, end := ValueStart(key, s), ValueEnd(key, s);
        s[..start] + Masked(p, end > start) + Redact(p, s[end..])
      case None => [s[0]] + Redact(p, s[1..])
  }

  // ---------------------------------------------------------------- what a redacted line is

  /** The value that follows a key occurrence. */
  function Value(key: string, s: string): string
    requires Matches(key, s)
  {
    s[ValueStart(key, s)..ValueEnd(key, s)]
  }

  /** The key occurrence at the front of `s`, if there is one, gives nothing away. */
  ghost predicate Harmless(p: Policy, key: string, s: string) {
    Matches(key, s) ==> Value(key, s) == "" || Value(key, s) == p.mask
  }

  /** Every occurrence of every key, overlapping ones included, has an empty value or the mask. */
  ghost predicate Clean(p: Policy, t: string) {
    forall j, key :: 0 <= j <= |t| && key in p.keys ==> Harmless(p, key, t[j..])
  }

  /** A pattern without `=` and `:` before its last character is found at the front of a
      redacted line only if it was at the front of the line. */
  lemma {:induction false} MatchReflects(p: Policy, x: string, s: string)
    requires p.Shaped()
    requires x != "" && forall j :: 0 <= j < |x| - 1 ==> x[j] != '=' && x[j] != ':'
    requires Matches(x, Redact(p, s))
    ensures Matches(x, s)
    decreases |s|
  {
    if s != "" {
      var t := Redact(p, s);
      match FirstMatch(p.keys, s)
      case Some(key) =>
        hide Redact, ValueStart, ValueEnd, FirstMatch;
        var last := |key| - 1;
        RedactCopies(p, key, s, last);
        assert AsciiLower(t[last]) == AsciiLower(s[last]) == key[last];
        forall j | 0 <= j < |x| ensures AsciiLower(s[j]) == x[j] {
          RedactCopies(p, key, s, j);
        }
      case None =>
        if |x| > 1 {
          assert t == [s[0]] + Redact(p, s[1..]);
          hide Redact, FirstMatch;
          MatchesStep(x, t);
          MatchesStep(x, s);
          assert t[1..] == Redact(p, s[1..]);
          MatchReflects(p, x[1..], s[1..]);
        }
    }
  }

  /** A matched key and the spaces after it are copied, whatever its value. */
  lemma RedactMatched(p: Policy, key: string, s: string)
    requires p.Shaped() && s != "" && FirstMatch(p.keys, s) == Some(key)
    ensures Redact(p, s)
              == s[..ValueStart(key, s)] + Masked(p, ValueEnd(key, s) > ValueStart(key, s))
                  + Redact(p, s[ValueEnd(key, s)..])
  {
    hide ValueStart, ValueEnd, FirstMatch, Matches, KeyShaped, Masked;
  }

  lemma RedactUnmatched(p: Policy, s: string)
    requires p.Shaped() && s != "" && FirstMatch(p.keys, s) == None
    ensures Redact(p, s) == [s[0]] + Redact(p, s[1..])
  {
    hide FirstMatch, Matches, KeyShaped, Masked;
  }

  lemma RedactCopies(p: Policy, key: string, s: string, i: nat)
    requires p.Shaped() && s != "" && FirstMatch(p.keys, s) == Some(key) && i < ValueStart(key, s)
    ensures i < |Redact(p, s)| && Redact(p, s)[i] == s[i]
  {
    hide ValueStart, ValueEnd, FirstMatch, Matches, KeyShaped, Masked;
  }

  lemma MatchesStep(key: string, s: string)
    requires key != "" && s != ""
    ensures Matches(key, s) <==> AsciiLower(s[0]) == key[0] && Matches(key[1..], s[1..])
  {
    if AsciiLower(s[0]) == key[0] && Matches(key[1..], s[1..]) {
      forall j | 0 <= j < |key| ensures AsciiLower(s[j]) == key[j] {
        assert j > 0 ==> AsciiLower(s[1..][j - 1]) == key[1..][j - 1];
      }
    }
  }

  /** Scanning leaves a leading terminator in place. */
  lemma LeadingTerminatorStays(p: Policy, header: bool, s: string)
    requires p.Shaped()
    requires s != "" && Terminates(header, s[0])
    ensures Redact(p, s) != "" && Redact(p, s)[0] == s[0]
  {
    match FirstMatch(p.keys, s)
    case Some(key) => assert AsciiLower(s[0]) == key[0];
    case None =>
  }

  /** The value of the key at the front of `u` lies between `start` and `end`. */
  ghost predicate Layout(key: string, u: string, start: nat, end: nat) {
    && Matches(key, u) && |key| <= start <= end <= |u|
    && (if IsHeader(key)
        then (forall i :: |key| <= i < start ==> IsWhitespace(u[i])) && (start < |u| ==> !IsWhitespace(u[start]))
        else start == |key|)
    && (forall i :: start <= i < end ==> !Terminates(IsHeader(key), u[i]))
    && (end < |u| ==> Terminates(IsHeader(key), u[end]))
  }

  lemma LayoutHolds(key: string, u: string)
    requires Matches(key, u)
    ensures Layout(key, u, ValueStart(key, u), ValueEnd(key, u))
  {
    var start, end, header := ValueStart(key, u), ValueEnd(key, u), IsHeader(key);
    forall i | |key| <= i < start && header ensures IsWhitespace(u[i]) {
      assert u[i] == u[|key|..][i - |key|];
    }
    assert start < |u| && header ==> u[start] == u[|key|..][start - |key|];
    forall i | start <= i < end ensures !Terminates(header, u[i]) {
      assert u[i] == u[start..][i - start];
    }
    assert end < |u| ==> u[end] == u[start..][end - start];
  }

  lemma LayoutIsUnique(key: string, u: string, start: nat, end: nat)
    requires Layout(key, u, start, end)
    ensures ValueStart(key, u) == start && ValueEnd(key, u) == end
  {
    LayoutHolds(key, u);
    var s, e, header := ValueStart(key, u), ValueEnd(key, u), IsHeader(key);
    assert s < |u| && header ==> !IsWhitespace(u[s]);
    assert start < |u| && header ==> !IsWhitespace(u[start]);
    assert s == start;
    assert e < |u| ==> Terminates(header, u[e]);
    assert end < |u| ==> Terminates(header, u[end]);
  }

  /** One scan step, character by character: the text up to the value is copied, the mask
      replaces a non-empty value, and what ended the value still does. */
  ghost predicate Stepped(p: Policy, s: string, start: nat, end: nat, mask: string, t: string) {
    && start <= end <= |s| && start + |mask| <= |t|
    && (forall i :: 0 <= i < start ==> t[i] == s[i])
    && t[start..start + |mask|] == mask
    && (forall i :: start <= i < start + |mask| ==> MaskChar(t[i]))
    && (end == |s| ==> |t| == start + |mask|)
    && (end < |s| ==> start + |mask| < |t| && t[start + |mask|] == s[end])
  }

  lemma ScanStep(p: Policy, key: string, s: string)
    requires p.Shaped()
    requires s != "" && FirstMatch(p.keys, s) == Some(key)
    ensures var start, end := ValueStart(key, s), ValueEnd(key, s);
      Stepped(p, s, start, end, Masked(p, end > start), Redact(p, s))
  {
    hide *;
    var start, end := ValueStart(key, s), ValueEnd(key, s);
    var mask, rest := Masked(p, end > start), Redact(p, s[end..]);
    RedactMatched(p, key, s);
    MaskedIsMask(p, end > start);
    if end < |s| {
      LayoutEnds(key, s);
      LeadingTerminatorStays(p, IsHeader(key), s[end..]);
    } else {
      assert s[end..] == "";
      RedactEmpty(p);
    }
    ConcatIsStepped(p, s, start, end, mask, rest);
  }

  lemma RedactEmpty(p: Policy)
    requires p.Shaped()
    ensures Redact(p, "") == ""
  {
  }

  lemma MaskedIsMask(p: Policy, nonEmpty: bool)
    requires p.Shaped()
    ensures forall i :: 0 <= i < |Masked(p, nonEmpty)| ==> MaskChar(Masked(p, nonEmpty)[i])
  {
  }

  lemma LayoutEnds(key: string, u: string)
    requires Matches(key, u) && ValueEnd(key, u) < |u|
    ensures Terminates(IsHeader(key), u[ValueEnd(key, u)])
  {
    LayoutHolds(key, u);
  }

  lemma ConcatIsStepped(p: Policy, s: string, start: nat, end: nat, mask: string, rest: string)
    requires start <= end <= |s| && forall i :: 0 <= i < |mask| ==> MaskChar(mask[i])
    requires if end < |s| then rest != "" && rest[0] == s[end] else rest == ""
    ensures Stepped(p, s, start, end, mask, s[..start] + mask + rest)
  {
    hide MaskChar;
  }

  lemma LayoutAfterStep(p: Policy, key: string, s: string, start: nat, end: nat, mask: string, t: string)
    requires Stepped(p, s, start, end, mask, t) && Layout(key, s, start, end)
    requires start == end ==> mask == ""
    ensures Layout(key, t, start, start + |mask|)
  {
  }

  /** After one scan the key at the front is still there, and its value is the mask, or empty
      if it was empty. */
  lemma KeyStays(p: Policy, key: string, s: string)
    requires p.Shaped()
    requires s != "" && FirstMatch(p.keys, s) == Some(key)
    ensures Matches(key, Redact(p, s)) && ValueStart(key, Redact(p, s)) == ValueStart(key, s)
    ensures Value(key, Redact(p, s)) == Masked(p, Value(key, s) != "")
  {
    hide Redact, ValueStart, ValueEnd, FirstMatch, Layout, Matches, KeyShaped;
    var t, start, end := Redact(p, s), ValueStart(key, s), ValueEnd(key, s);
    var mask := Masked(p, end > start);
    ScanStep(p, key, s);
    LayoutHolds(key, s);
    LayoutAfterStep(p, key, s, start, end, mask, t);
    LayoutIsUnique(key, t, start, start + |mask|);
  }

  /** Two key occurrences that overlap before the value of the first end together: `=` and `:`
      stand only at the end of keys. */
  lemma OverlapsEndTogether(key: string, other: string, t: string, start: nat, end: nat, j: nat)
    requires KeyShaped(key) && KeyShaped(other) && Layout(key, t, start, end)
    requires start < |t| ==> !KeyChar(AsciiLower(t[start]))
    requires j < start && Matches(other, t[j..])
    ensures j + |other| == |key| && IsHeader(other) == IsHeader(key)
  {
    OccurrenceChars(other, t, j);
    if start < j + |other| {
      OccurrenceChar(other, t, j, start);
    }
    var last := j + |other| - 1;
    assert last < |key| ==> AsciiLower(t[last]) == key[last];
    assert j < |key| ==> AsciiLower(t[|key| - 1]) == key[|key| - 1];
  }

  lemma OccurrenceChars(other: string, t: string, j: nat)
    requires KeyShaped(other) && j <= |t| && Matches(other, t[j..])
    ensures forall i :: j <= i < j + |other| ==> i < |t| && AsciiLower(t[i]) == other[i - j]
  {
    assert forall i :: j <= i < j + |other| ==> i < |t| && t[i] == t[j..][i - j];
  }

  lemma OccurrenceChar(other: string, t: string, j: nat, i: nat)
    requires KeyShaped(other) && j <= |t| && Matches(other, t[j..]) && j <= i < j + |other|
    ensures i < |t| && KeyChar(AsciiLower(t[i]))
  {
    OccurrenceChars(other, t, j);
  }

  lemma LayoutShifts(key: string, other: string, t: string, start: nat, end: nat, j: nat)
    requires Layout(key, t, start, end) && IsHeader(other) == IsHeader(key)
    requires j + |other| == |key| && Matches(other, t[j..])
    ensures Layout(other, t[j..], start - j, end - j)
  {
    var u := t[j..];
    forall i | |other| <= i < start - j && IsHeader(key) ensures IsWhitespace(u[i]) {
      assert u[i] == t[j + i];
    }
    forall i | start - j <= i < end - j ensures !Terminates(IsHeader(key), u[i]) {
      assert u[i] == t[j + i];
    }
    assert start < |t| ==> u[start - j] == t[start];
    assert end < |t| ==> u[end - j] == t[end];
  }

  lemma OverlapsShareTheirValue(key: string, other: string, t: string, start: nat, end: nat, j: nat)
    requires Layout(key, t, start, end) && IsHeader(other) == IsHeader(key)
    requires j + |other| == |key| && Matches(other, t[j..])
    ensures Value(other, t[j..]) == t[start..end]
  {
    hide Layout, Matches, ValueStart, ValueEnd, IsHeader;
    LayoutBounds(key, t, start, end);
    LayoutShifts(key, other, t, start, end, j);
    LayoutIsUnique(other, t[j..], start - j, end - j);
    SliceOfSuffix(t, j, start, end);
  }

  lemma SliceOfSuffix(t: string, j: nat, start: nat, end: nat)
    requires j <= start <= end <= |t|
    ensures t[j..][start - j..end - j] == t[start..end]
  {
  }

  /** What follows the key and its spaces in a redacted line is the mask, a terminator or
      nothing; none of these can be part of a key. */
  lemma ValueCharIsNoKeyChar(p: Policy, key: string, s: string)
    requires p.Shaped()
    requires s != "" && FirstMatch(p.keys, s) == Some(key)
    ensures var t, start := Redact(p, s), ValueStart(key, s);
      start <= |t| && (start < |t| ==> !KeyChar(AsciiLower(t[start])))
  {
    KeyStays(p, key, s);
    var t := Redact(p, s);
    LayoutHolds(key, t);
    if ValueStart(key, s) < |t| && Value(key, t) != "" {
      assert t[ValueStart(key, s)] == Value(key, t)[0] == p.mask[0];
    }
  }

  /** No key starts inside a mask. */
  lemma NoKeyInMask(p: Policy, other: string, j: nat, u: string)
    requires p.Shaped() && j < |p.mask| && other in p.keys && p.mask[j..] <= u
    ensures !Matches(other, u)
  {
    var last, edge := |other| - 1, |p.mask| - 1 - j;
    assert u[edge] == p.mask[j..][edge] == p.mask[|p.mask| - 1];
    if edge <= last {
      assert KeyChar(other[edge]);
    } else {
      assert u[last] == p.mask[j..][last] == p.mask[j + last];
      assert MaskChar(u[last]);
    }
  }

  /** An occurrence in a redacted line that starts before the end of its first mask. */
  lemma FrontIsHarmless(p: Policy, key: string, s: string, other: string, j: nat)
    requires p.Shaped()
    requires s != "" && FirstMatch(p.keys, s) == Some(key) && other in p.keys
    requires Matches(key, Redact(p, s)) && j < ValueEnd(key, Redact(p, s))
    ensures Harmless(p, other, Redact(p, s)[j..])
  {
    KeyStays(p, key, s);
    ValueCharIsNoKeyChar(p, key, s);
    LayoutHolds(key, Redact(p, s));
    OccurrenceIsHarmless(p, key, other, Redact(p, s), ValueStart(key, Redact(p, s)), ValueEnd(key, Redact(p, s)), j);
  }

  lemma OccurrenceIsHarmless(p: Policy, key: string, other: string, t: string, start: nat, end: nat, j: nat)
    requires p.Shaped() && KeyShaped(key) && other in p.keys
    requires Layout(key, t, start, end) && (t[start..end] == "" || t[start..end] == p.mask)
    requires start < |t| ==> !KeyChar(AsciiLower(t[start]))
    requires j < end
    ensures Harmless(p, other, t[j..])
  {
    hide Layout, Matches, KeyShaped, ValueStart, ValueEnd, MaskChar, KeyChar;
    LayoutBounds(key, t, start, end);
    if j >= start {
      RestOfMask(p.mask, t, start, end, j);
      NoKeyInMask(p, other, j - start, t[j..]);
    } else if Matches(other, t[j..]) {
      OverlapsEndTogether(key, other, t, start, end, j);
      OverlapsShareTheirValue(key, other, t, start, end, j);
    }
  }

  lemma LayoutBounds(key: string, t: string, start: nat, end: nat)
    requires Layout(key, t, start, end)
    ensures |key| <= start <= end <= |t|
  {
  }

  lemma RestOfMask(mask: string, t: string, start: nat, end: nat, j: nat)
    requires start <= j < end <= |t| && (t[start..end] == "" || t[start..end] == mask)
    ensures j - start < |mask| && mask[j - start..] <= t[j..]
  {
    DropOfSlice(t, start, end, j);
    SliceIsPrefix(t, j, end);
  }

  lemma DropOfSlice(t: string, start: nat, end: nat, j: nat)
    requires start <= j <= end <= |t|
    ensures t[start..end][j - start..] == t[j..end]
  {
  }

  lemma SliceIsPrefix(t: string, j: nat, end: nat)
    requires j <= end <= |t|
    ensures t[j..end] <= t[j..]
  {
  }

  /** Whatever the line was, every key occurrence left in the redacted line is harmless. */
  lemma {:induction false} RedactIsClean(p: Policy, s: string)
    requires p.Shaped()
    ensures Clean(p, Redact(p, s))
    decreases |s|
  {
    var t := Redact(p, s);
    if s == "" {
      assert forall j, other :: 0 <= j <= |t| && other in p.keys ==> !Matches(other, t[j..]);
    } else {
      var cut := match FirstMatch(p.keys, s) case Some(key) => ValueEnd(key, s) case None => 1;
      RedactIsClean(p, s[cut..]);
      forall j, other | 0 <= j <= |t| && other in p.keys ensures Harmless(p, other, t[j..]) {
        match FirstMatch(p.keys, s)
        case Some(key) => CleanAfterKey(p, key, s, other, j);
        case None => CleanAfterCharacter(p, s, other, j);
      }
    }
  }

  lemma CleanAfterKey(p: Policy, key: string, s: string, other: string, j: nat)
    requires p.Shaped() && s != "" && FirstMatch(p.keys, s) == Some(key) && other in p.keys
    requires j <= |Redact(p, s)| && Clean(p, Redact(p, s[ValueEnd(key, s)..]))
    ensures Harmless(p, other, Redact(p, s)[j..])
  {
    hide ValueStart, ValueEnd, FirstMatch, Matches, KeyShaped, Redact;
    var t, rest := Redact(p, s), Redact(p, s[ValueEnd(key, s)..]);
    KeyStays(p, key, s);
    RedactMatched(p, key, s);
    var cut := ValueEnd(key, t);
    assert cut == ValueStart(key, s) + |Masked(p, ValueEnd(key, s) > ValueStart(key, s))|;
    assert t[cut..] == rest;
    if j < cut {
      FrontIsHarmless(p, key, s, other, j);
    } else {
      assert t[j..] == rest[j - cut..];
    }
  }

  lemma CleanAfterCharacter(p: Policy, s: string, other: string, j: nat)
    requires p.Shaped() && s != "" && FirstMatch(p.keys, s) == None && other in p.keys
    requires j <= |Redact(p, s)| && Clean(p, Redact(p, s[1..]))
    ensures Harmless(p, other, Redact(p, s)[j..])
  {
    var t := Redact(p, s);
    if j == 0 {
      assert t[0..] == t;
      if Matches(other, t) { MatchReflects(p, other, s); }
    } else {
      assert t[j..] == Redact(p, s[1..])[j - 1..];
    }
  }

  /** A clean line is left alone. */
  lemma {:induction false} CleanIsFixed(p: Policy, t: string)
    requires p.Shaped()
    requires Clean(p, t)
    ensures Redact(p, t) == t
    decreases |t|
  {
    if t != "" {
      var cut := match FirstMatch(p.keys, t) case Some(key) => ValueEnd(key, t) case None => 1;
      SuffixIsClean(p, t, cut);
      CleanIsFixed(p, t[cut..]);
      match FirstMatch(p.keys, t)
      case Some(key) => FrontIsFixed(p, key, t);
      case None =>
    }
  }

  lemma FrontIsFixed(p: Policy, key: string, t: string)
    requires p.Shaped() && t != "" && FirstMatch(p.keys, t) == Some(key)
    requires Clean(p, t) && Redact(p, t[ValueEnd(key, t)..]) == t[ValueEnd(key, t)..]
    ensures Redact(p, t) == t
  {
    hide *;
    FrontIsHarmlessIfClean(p, key, t);
    MaskIsNotEmpty(p);
    MaskedIsValue(p, key, t);
    RedactMatched(p, key, t);
    ThreeParts(t, ValueStart(key, t), ValueEnd(key, t));
  }

  lemma MaskIsNotEmpty(p: Policy)
    requires p.Shaped()
    ensures p.mask != ""
  {
  }

  lemma FrontIsHarmlessIfClean(p: Policy, key: string, t: string)
    requires Clean(p, t) && key in p.keys && Matches(key, t)
    ensures Value(key, t) == "" || Value(key, t) == p.mask
  {
    hide ValueStart, ValueEnd, Matches;
    assert t[0..] == t && Harmless(p, key, t[0..]);
  }

  lemma MaskedIsValue(p: Policy, key: string, t: string)
    requires Matches(key, t) && (Value(key, t) == "" || Value(key, t) == p.mask) && p.mask != ""
    ensures Masked(p, ValueEnd(key, t) > ValueStart(key, t)) == t[ValueStart(key, t)..ValueEnd(key, t)]
  {
    hide ValueStart, ValueEnd, Matches;
  }

  lemma ThreeParts(t: string, start: nat, end: nat)
    requires start <= end <= |t|
    ensures t[..start] + t[start..end] + t[end..] == t
  {
  }

  lemma SuffixIsClean(p: Policy, t: string, n: nat)
    requires Clean(p, t) && n <= |t|
    ensures Clean(p, t[n..])
  {
    forall j, key | 0 <= j <= |t[n..]| && key in p.keys ensures Harmless(p, key, t[n..][j..]) {
      assert t[n..][j..] == t[n + j..];
      assert Harmless(p, key, t[n + j..]);
    }
  }

  /** The lines that redaction leaves alone are exactly those that give nothing away. */
  lemma FixedExactlyWhenClean(p: Policy, s: string)
    requires p.Shaped()
    ensures Redact(p, s) == s <==> Clean(p, s)
  {
    if Redact(p, s) == s { RedactIsClean(p, s); }
    if Clean(p, s) { CleanIsFixed(p, s); }
  }

  /** The redactor applied to its own output is a no-op. */
  lemma RedactIsIdempotent(p: Policy, s: string)
    requires p.Shaped()
    ensures Redact(p, Redact(p, s)) == Redact(p, s)
  {
    RedactIsClean(p, s);
    CleanIsFixed(p, Redact(p, s));
  }

  /** Ordinary output, in which no key occurs, comes out as it went in. */
  lemma OrdinaryLineUnchanged(p: Policy, s: string)
    requires p.Shaped()
    requires forall j, key :: 0 <= j <= |s| && key in p.keys ==> !Matches(key, s[j..])
    ensures Redact(p, s) == s
  {
    assert Clean(p, s);
    CleanIsFixed(p, s);
  }

  // ---------------------------------------------------------------- secrets do not show

  /** The forward scan of `s` comes to position `k` outside any value. */
  ghost predicate Reaches(p: Policy, s: string, k: nat)
    requires p.Shaped()
    decreases |s|
  {
    k == 0 ||
    (s != "" &&
     match FirstMatch(p.keys, s)
     case Some(key) => ValueEnd(key, s) <= k && Reaches(p, s[ValueEnd(key, s)..], k - ValueEnd(key, s))
     case None => Reaches(p, s[1..], k - 1))
  }

  /** How an occurrence of `other` at `j` relates to a matched key at `i`: it ends where that key
      ends, so that both have the same value, or it lies inside the value that the mask replaces. */
  ghost predicate Covers(p: Policy, s: string, i: nat, j: nat, other: string)
    requires i <= |s|
  {
    match FirstMatch(p.keys, s[i..])
    case None => false
    case Some(key) =>
      || j + |other| == i + |key|
      || i + ValueStart(key, s[i..]) <= j < j + |other| <= i + ValueEnd(key, s[i..])
  }

  lemma KeyCharsAreNoSpace(c: char)
    requires KeyChar(AsciiLower(c))
    ensures !IsWhitespace(c) && !Terminates(true, c) && !Terminates(false, c)
  {
  }

  /** An occurrence that starts inside a matched key ends with it. */
  lemma InsideKeyEndsWithIt(key: string, other: string, s: string, j: nat)
    requires KeyShaped(key) && KeyShaped(other) && Matches(key, s)
    requires j < |key| && Matches(other, s[j..])
    ensures j + |other| == |key|
  {
    OccurrenceChars(other, s, j);
    var end := if |key| < j + |other| then |key| - 1 else j + |other| - 1;
    assert AsciiLower(s[end]) == key[end] == other[end - j];
    MarkIsLast(key, end);
    MarkIsLast(other, end - j);
  }

  lemma MarkIsLast(key: string, k: nat)
    requires KeyShaped(key) && k < |key|
    ensures key[k] == '=' || key[k] == ':' <==> k == |key| - 1
  {
  }

  /** One that starts behind a matched key, before the end of its value, lies inside the value. */
  lemma BehindKeyIsInValue(key: string, other: string, s: string, j: nat)
    requires KeyShaped(other) && Matches(key, s) && |key| <= j < ValueEnd(key, s) && Matches(other, s[j..])
    ensures ValueStart(key, s) <= j && j + |other| <= ValueEnd(key, s)
  {
    var start, end := ValueStart(key, s), ValueEnd(key, s);
    LayoutHolds(key, s);
    hide ValueStart, ValueEnd;
    OccurrenceChar(other, s, j, j);
    KeyCharsAreNoSpace(s[j]);
    if end < j + |other| {
      OccurrenceChar(other, s, j, end);
      KeyCharsAreNoSpace(s[end]);
    }
  }

  /** Where the scan goes on after the front of `s`. */
  ghost function Cut(p: Policy, s: string): (n: nat)
    requires p.Shaped() && s != ""
    ensures 0 < n <= |s|
  {
    match FirstMatch(p.keys, s)
    case Some(key) => KeyIsNotEmpty(p, key); ValueEnd(key, s)
    case None => 1
  }

  lemma ReachesOn(p: Policy, s: string, k: nat)
    requires p.Shaped() && s != "" && Reaches(p, s[Cut(p, s)..], k)
    ensures Reaches(p, s, Cut(p, s) + k)
  {
    hide ValueEnd, FirstMatch, KeyShaped;
  }

  lemma CoversOn(p: Policy, s: string, cut: nat, i: nat, j: nat, other: string)
    requires cut + i <= |s| && Covers(p, s[cut..], i, j, other)
    ensures Covers(p, s, cut + i, cut + j, other)
  {
    hide ValueStart, ValueEnd, FirstMatch;
    assert s[cut..][i..] == s[cut + i..];
  }

  lemma FrontCovers(p: Policy, s: string, j: nat, other: string)
    requires p.Shaped() && other in p.keys && s != "" && 0 < j < Cut(p, s) && Matches(other, s[j..])
    ensures Covers(p, s, 0, j, other)
  {
    hide ValueStart, ValueEnd, FirstMatch, Matches, KeyShaped;
    assert s[0..] == s;
    var key := FirstMatch(p.keys, s).value;
    KeyIsNotEmpty(p, key);
    KeyIsNotEmpty(p, other);
    if j < |key| {
      InsideKeyEndsWithIt(key, other, s, j);
    } else {
      BehindKeyIsInValue(key, other, s, j);
    }
  }

  /** The scan misses no key.  Every occurrence in the line, wherever it is, either is reached by the
      scan itself, or ends together with a reached key, or lies inside a value that a reached key
      hides. */
  lemma {:induction false} EveryKeyIsCovered(p: Policy, s: string, j: nat, other: string) returns (i: nat)
    requires p.Shaped() && other in p.keys && j < |s| && Matches(other, s[j..])
    ensures i <= j && Reaches(p, s, i) && (i == j || Covers(p, s, i, j, other))
    decreases |s|
  {
    hide Cut, Covers, Matches, Policy.Shaped;
    i := 0;
    if j >= Cut(p, s) {
      var cut := Cut(p, s);
      assert s[cut..][j - cut..] == s[j..];
      i := EveryKeyIsCovered(p, s[cut..], j - cut, other);
      ReachesOn(p, s, i);
      if i != j - cut {
        CoversOn(p, s, cut, i, j - cut, other);
      }
      i := i + cut;
    } else if j > 0 {
      FrontCovers(p, s, j, other);
    }
  }

  /** A key cannot see past the first `=` or `:`. */
  lemma MatchStopsAtMark(key: string, s: string, s': string, e: nat)
    requires KeyShaped(key) && Matches(key, s)
    requires e < |s| && e < |s'| && (s[e] == '=' || s[e] == ':') && forall i :: 0 <= i <= e ==> s[i] == s'[i]
    ensures Matches(key, s')
  {
    assert e < |key| ==> AsciiLower(s[e]) == key[e];
  }

  lemma {:induction false} KeysStopAtTheirMark(keys: seq<string>, s: string, s': string, e: nat)
    requires forall key :: key in keys ==> KeyShaped(key)
    requires e < |s| && e < |s'| && (s[e] == '=' || s[e] == ':') && forall i :: 0 <= i <= e ==> s[i] == s'[i]
    ensures FirstMatch(keys, s) == FirstMatch(keys, s')
  {
    if keys != [] {
      if Matches(keys[0], s) { MatchStopsAtMark(keys[0], s, s', e); }
      if Matches(keys[0], s') { MatchStopsAtMark(keys[0], s', s, e); }
      KeysStopAtTheirMark(keys[1..], s, s', e);
    }
  }

  function Replaced(s: string, start: nat, end: nat, other: string): string
    requires start <= end <= |s|
  {
    s[..start] + other + s[end..]
  }

  lemma ReplacedTail(s: string, start: nat, end: nat, other: string, cut: nat)
    requires cut <= start <= end <= |s|
    ensures Replaced(s, start, end, other)[cut..] == Replaced(s[cut..], start - cut, end - cut, other)
    ensures forall i :: 0 <= i < start ==> Replaced(s, start, end, other)[i] == s[i]
  {
  }

  lemma HiddenHere(p: Policy, s: string, key: string, other: string)
    requires p.Shaped() && s != ""
    requires FirstMatch(p.keys, s) == Some(key) && Value(key, s) != ""
    requires other != "" && forall i :: 0 <= i < |other| ==> !Terminates(IsHeader(key), other[i])
    requires IsHeader(key) ==> !IsWhitespace(other[0])
    ensures Redact(p, Replaced(s, ValueStart(key, s), ValueEnd(key, s), other)) == Redact(p, s)
  {
    hide ValueStart, ValueEnd, FirstMatch, Matches, KeyShaped, Layout, Redact;
    var start, end := ValueStart(key, s), ValueEnd(key, s);
    var s' := Replaced(s, start, end, other);
    LayoutHolds(key, s);
    KeyIsNotEmpty(p, key);
    KeyMark(key, s);
    SameFirstMatch(p, s, s', |key| - 1);
    ReplacedLayout(key, s, start, end, other);
    LayoutIsUnique(key, s', start, start + |other|);
    RedactMatched(p, key, s);
    RedactMatched(p, key, s');
    assert s'[start + |other|..] == s[end..];
    assert s'[..start] == s[..start];
  }

  lemma ReplacedLayout(key: string, s: string, start: nat, end: nat, other: string)
    requires Layout(key, s, start, end)
    requires other != "" && forall i :: 0 <= i < |other| ==> !Terminates(IsHeader(key), other[i])
    requires IsHeader(key) ==> !IsWhitespace(other[0])
    ensures Layout(key, Replaced(s, start, end, other), start, start + |other|)
  {
  }

  /** A value that the scan hides leaves no trace: any other value that ends where it ended,
      whatever its length and text, gives the same redacted line. */
  lemma {:induction false} HiddenValueDoesNotShow(p: Policy, s: string, k: nat, key: string, other: string)
    requires p.Shaped() && k < |s| && Reaches(p, s, k)
    requires FirstMatch(p.keys, s[k..]) == Some(key) && Value(key, s[k..]) != ""
    requires other != "" && forall i :: 0 <= i < |other| ==> !Terminates(IsHeader(key), other[i])
    requires IsHeader(key) ==> !IsWhitespace(other[0])
    ensures Redact(p, Replaced(s, k + ValueStart(key, s[k..]), k + ValueEnd(key, s[k..]), other)) == Redact(p, s)
    decreases |s|
  {
    hide ValueStart, ValueEnd, Redact, Replaced, Matches;
    if k == 0 {
      assert s[0..] == s;
      HiddenHere(p, s, key, other);
    } else {
      var cut := match FirstMatch(p.keys, s) case Some(front) => ValueEnd(front, s) case None => 1;
      assert s[cut..][k - cut..] == s[k..];
      HiddenValueDoesNotShow(p, s[cut..], k - cut, key, other);
      HiddenLater(p, s, k, key, other, cut);
    }
  }

  lemma HiddenLater(p: Policy, s: string, k: nat, key: string, other: string, cut: nat)
    requires p.Shaped() && 0 < cut <= k < |s| && KeyShaped(key) && Matches(key, s[k..])
    requires cut == match FirstMatch(p.keys, s) case Some(front) => ValueEnd(front, s) case None => 1
    requires var start, end := k + ValueStart(key, s[k..]), k + ValueEnd(key, s[k..]);
      Redact(p, Replaced(s[cut..], start - cut, end - cut, other)) == Redact(p, s[cut..])
    ensures Redact(p, Replaced(s, k + ValueStart(key, s[k..]), k + ValueEnd(key, s[k..]), other)) == Redact(p, s)
  {
    hide ValueStart, ValueEnd, Redact, Matches;
    var start, end := k + ValueStart(key, s[k..]), k + ValueEnd(key, s[k..]);
    var s' := Replaced(s, start, end, other);
    ReplacedTail(s, start, end, other, cut);
    match FirstMatch(p.keys, s)
    case Some(front) => SameFront(p, front, s, s', start);
    case None => SameCharacter(p, key, s, s', k);
  }

  /** Two lines that agree beyond the end of the first value scan alike up to there. */
  lemma SameFront(p: Policy, front: string, s: string, s': string, n: nat)
    requires p.Shaped() && s != "" && FirstMatch(p.keys, s) == Some(front)
    requires ValueEnd(front, s) < n <= |s| && n <= |s'| && forall i :: 0 <= i < n ==> s'[i] == s[i]
    requires Redact(p, s'[ValueEnd(front, s)..]) == Redact(p, s[ValueEnd(front, s)..])
    ensures Redact(p, s') == Redact(p, s)
  {
    hide *;
    var start, end := ValueStart(front, s), ValueEnd(front, s);
    LayoutHolds(front, s);
    KeyIsNotEmpty(p, front);
    KeyMark(front, s);
    SameFirstMatch(p, s, s', |front| - 1);
    SameLayout(front, s, s', start, end);
    LayoutIsUnique(front, s', start, end);
    SamePrefix(s, s', start, n);
    SameScan(p, front, s, s', start, end);
  }

  lemma SameScan(p: Policy, key: string, s: string, s': string, start: nat, end: nat)
    requires p.Shaped() && s != "" && s' != "" && FirstMatch(p.keys, s) == FirstMatch(p.keys, s') == Some(key)
    requires start == ValueStart(key, s) == ValueStart(key, s') && end == ValueEnd(key, s) == ValueEnd(key, s')
    requires s'[..start] == s[..start] && Redact(p, s'[end..]) == Redact(p, s[end..])
    ensures Redact(p, s') == Redact(p, s)
  {
    hide *;
    RedactMatched(p, key, s);
    RedactMatched(p, key, s');
  }

  lemma SamePrefix(s: string, s': string, start: nat, n: nat)
    requires start <= n <= |s| && n <= |s'| && forall i :: 0 <= i < n ==> s'[i] == s[i]
    ensures s'[..start] == s[..start]
  {
  }

  lemma SameFirstMatch(p: Policy, s: string, s': string, e: nat)
    requires p.Shaped()
    requires e < |s| && e < |s'| && (s[e] == '=' || s[e] == ':') && forall i :: 0 <= i <= e ==> s[i] == s'[i]
    ensures FirstMatch(p.keys, s) == FirstMatch(p.keys, s')
  {
    KeysStopAtTheirMark(p.keys, s, s', e);
  }

  lemma SameLayout(key: string, s: string, s': string, start: nat, end: nat)
    requires Layout(key, s, start, end) && end < |s| && end < |s'|
    requires forall i :: 0 <= i <= end ==> s'[i] == s[i]
    ensures Layout(key, s', start, end)
  {
  }

  lemma SameCharacter(p: Policy, key: string, s: string, s': string, k: nat)
    requires p.Shaped() && s != "" && FirstMatch(p.keys, s) == None && 0 < k < |s|
    requires KeyShaped(key) && Matches(key, s[k..]) && k + |key| <= |s'|
    requires forall i :: 0 <= i < k + |key| ==> s'[i] == s[i]
    requires Redact(p, s'[1..]) == Redact(p, s[1..])
    ensures Redact(p, s') == Redact(p, s)
  {
    MarkBehind(key, s, k);
    hide Matches, KeyShaped, Redact, FirstMatch, KeyChar;
    SameFirstMatch(p, s, s', k + |key| - 1);
    RedactUnmatched(p, s);
    RedactUnmatched(p, s');
  }

  lemma MarkBehind(key: string, s: string, k: nat)
    requires KeyShaped(key) && k <= |s| && Matches(key, s[k..])
    ensures var e := k + |key| - 1;
      |key| > 0 && e < |s| && (s[e] == '=' || s[e] == ':')
  {
    KeyMark(key, s[k..]);
    hide *;
    assert s[k..][|key| - 1] == s[k + |key| - 1];
  }

  lemma KeyMark(key: string, s: string)
    requires KeyShaped(key) && Matches(key, s)
    ensures s[|key| - 1] == '=' || s[|key| - 1] == ':'
  {
    assert AsciiLower(s[|key| - 1]) == key[|key| - 1];
  }

  // ---------------------------------------------------------------- the same in plain words

  /** `s` begins with `key`, in whatever case. */
  ghost predicate Begins(key: string, s: string) {
    |key| <= |s| && EqIgnoreCase(s[..|key|], key)
  }

  /** The value of the key that `s` begins with goes from `start` to `end`.  After a `:` the blanks in
      front belong to the key, and only a quote or a shell separator ends the value; after a `=` nothing
      is passed over, and white space ends it too. */
  ghost predicate Spans(key: string, s: string, start: nat, end: nat) {
    && 0 < |key| <= start <= end <= |s|
    && (forall i :: start <= i < end ==> s[i] !in "\"';&|")
    && if key[|key| - 1] == ':' then
         && (forall i :: |key| <= i < start ==> IsWhitespace(s[i]))
         && (start < |s| ==> !IsWhitespace(s[start]))
         && (end < |s| ==> s[end] in "\"';&|")
       else
         && start == |key|
         && (forall i :: start <= i < end ==> !IsWhitespace(s[i]))
         && (end < |s| ==> s[end] in "\"';&|" || IsWhitespace(s[end]))
  }

  /** `t` is `s` redacted: at a key the text up to the value is copied, the mask stands for a value that
      is not empty, and the rest is redacted; anywhere else one character is copied. */
  ghost predicate Described(p: Policy, s: string, t: string)
    decreases |s|
  {
    if s == "" then t == ""
    else if exists key :: key in p.keys && Begins(key, s) then
      exists key, start: nat, end: nat ::
        && key in p.keys && Begins(key, s) && Spans(key, s, start, end)
        && var front := s[..start] + (if start < end then p.mask else "");
          front <= t && Described(p, s[end..], t[|front|..])
    else t != "" && t[0] == s[0] && Described(p, s[1..], t[1..])
  }

  lemma BeginsIsMatches(key: string, s: string)
    requires KeyShaped(key)
    ensures Begins(key, s) <==> Matches(key, s)
  {
    forall j | 0 <= j < |key| && |key| <= |s|
      ensures AsciiLower(s[..|key|][j]) == AsciiLower(key[j]) <==> AsciiLower(s[j]) == key[j]
    {
    }
  }

  lemma SpansIsLayout(key: string, s: string, start: nat, end: nat)
    requires KeyShaped(key) && Matches(key, s)
    ensures Spans(key, s, start, end) <==> start == ValueStart(key, s) && end == ValueEnd(key, s)
  {
    hide ValueStart, ValueEnd, Matches, KeyShaped, Layout;
    KeyEnds(key);
    LayoutHolds(key, s);
    assert Spans(key, s, start, end) <==> Layout(key, s, start, end) by {
      SpansLayout(key, s, start, end);
    }
    if Spans(key, s, start, end) {
      LayoutIsUnique(key, s, start, end);
    }
  }

  lemma KeyEnds(key: string)
    requires KeyShaped(key)
    ensures key != "" && (key[|key| - 1] == '=' || key[|key| - 1] == ':')
  {
  }

  lemma SpansLayout(key: string, s: string, start: nat, end: nat)
    requires key != "" && Matches(key, s)
    ensures Spans(key, s, start, end) <==> Layout(key, s, start, end)
  {
    hide Matches, IsWhitespace;
    forall c: char ensures c in "\"';&|" <==> Terminates(true, c) {
    }
  }

  /** At most one key stands at a position. */
  lemma OneKeyBegins(key: string, other: string, s: string)
    requires KeyShaped(key) && KeyShaped(other) && Matches(key, s) && Matches(other, s)
    ensures key == other
  {
    var last := if |key| < |other| then |key| - 1 else |other| - 1;
    assert AsciiLower(s[last]) == key[last] == other[last];
    MarkIsLast(key, last);
    MarkIsLast(other, last);
    assert forall j :: 0 <= j < |key| ==> AsciiLower(s[j]) == key[j] == other[j];
  }

  /** The scan is exactly that description. */
  lemma {:induction false} RedactIsDescribed(p: Policy, s: string, t: string)
    requires p.Shaped()
    ensures Described(p, s, t) <==> t == Redact(p, s)
    decreases |s|
  {
    hide Redact, Described, ValueStart, ValueEnd, Matches, KeyShaped, Cut;
    if s == "" {
      RedactEmpty(p);
      assert Described(p, "", t) <==> t == "" by { DescribedEmpty(p, t); }
    } else {
      var rest := s[Cut(p, s)..];
      forall u ensures Described(p, rest, u) <==> u == Redact(p, rest) {
        RedactIsDescribed(p, rest, u);
      }
      CutIs(p, s);
      match FirstMatch(p.keys, s)
      case Some(key) => DescribedAtKey(p, key, s, t);
      case None => DescribedElsewhere(p, s, t);
    }
  }

  lemma DescribedEmpty(p: Policy, t: string)
    ensures Described(p, "", t) <==> t == ""
  {
  }

  lemma CutIs(p: Policy, s: string)
    requires p.Shaped() && s != ""
    ensures Cut(p, s) == match FirstMatch(p.keys, s) case Some(key) => ValueEnd(key, s) case None => 1
  {
    hide ValueEnd, FirstMatch, KeyShaped;
  }

  lemma DescribedElsewhere(p: Policy, s: string, t: string)
    requires p.Shaped() && s != "" && FirstMatch(p.keys, s) == None
    requires forall u :: Described(p, s[1..], u) <==> u == Redact(p, s[1..])
    ensures Described(p, s, t) <==> t == Redact(p, s)
  {
    hide Redact, Begins, Matches, Spans, KeyShaped;
    forall key | key in p.keys ensures !Begins(key, s) {
      KeyIsNotEmpty(p, key);
      BeginsIsMatches(key, s);
    }
    RedactUnmatched(p, s);
    assert t != "" ==> t == [t[0]] + t[1..];
  }

  lemma DescribedAtKey(p: Policy, key: string, s: string, t: string)
    requires p.Shaped() && s != "" && FirstMatch(p.keys, s) == Some(key)
    requires forall u :: Described(p, s[ValueEnd(key, s)..], u) <==> u == Redact(p, s[ValueEnd(key, s)..])
    ensures Described(p, s, t) <==> t == Redact(p, s)
  {
    hide Redact, Begins, Matches, Spans, KeyShaped, ValueStart, ValueEnd;
    forall other | other in p.keys ensures Begins(other, s) <==> other == key {
      KeyIsNotEmpty(p, key);
      KeyIsNotEmpty(p, other);
      BeginsIsMatches(other, s);
      if Matches(other, s) {
        OneKeyBegins(key, other, s);
      }
    }
    forall start: nat, end: nat
      ensures Spans(key, s, start, end) <==> start == ValueStart(key, s) && end == ValueEnd(key, s) {
      KeyIsNotEmpty(p, key);
      SpansIsLayout(key, s, start, end);
    }
    RedactMatched(p, key, s);
    KeyIsNotEmpty(p, key);
    DescribedOnlyThere(p, key, s, t, ValueStart(key, s), ValueEnd(key, s));
    var front := s[..ValueStart(key, s)] + Masked(p, ValueEnd(key, s) > ValueStart(key, s));
    assert front <= t ==> t == front + t[|front|..];
  }

  lemma DescribedOnlyThere(p: Policy, key: string, s: string, t: string, start: nat, end: nat)
    requires s != "" && key in p.keys && start <= end <= |s| && 0 < end
    requires forall other :: other in p.keys ==> (Begins(other, s) <==> other == key)
    requires forall a: nat, b: nat :: Spans(key, s, a, b) <==> a == start && b == end
    ensures var front := s[..start] + (if start < end then p.mask else "");
      Described(p, s, t) <==> front <= t && Described(p, s[end..], t[|front|..])
  {
    hide Begins, Spans;
    assert Begins(key, s) && Spans(key, s, start, end);
  }

  // ---------------------------------------------------------------- the loop on bytes

  type Byte = n: int | 0 <= n < 256

  function Utf8(c: char): (b: seq<Byte>)
    ensures 1 <= |b| <= 4
    ensures c as int < 128 ==> b == [c as int]
    ensures c as int >= 128 ==> forall x :: x in b ==> x >= 128
  {
    var n := c as int;
    if n < 0x80 then [n]
    else if n < 0x800 then [0xC0 + n / 0x40, 0x80 + n % 0x40]
    else if n < 0x1_0000 then [0xE0 + n / 0x1000, 0x80 + n / 0x40 % 0x40, 0x80 + n % 0x40]
    else [0xF0 + n / 0x4_0000, 0x80 + n / 0x1000 % 0x40, 0x80 + n / 0x40 % 0x40, 0x80 + n % 0x40]
  }

  function Encode(s: string): seq<Byte> {
    if s == "" then [] else Utf8(s[0]) + Encode(s[1..])
  }

  /** The byte index of character `k`. */
  function Offset(s: string, k: nat): nat
    requires k <= |s|
  {
    |Encode(s[..k])|
  }

  ghost predicate Boundary(s: string, i: nat) {
    exists k :: 0 <= k <= |s| && Offset(s, k) == i
  }

  lemma {:induction false} EncodeConcat(a: string, b: string)
    ensures Encode(a + b) == Encode(a) + Encode(b)
  {
    if a == "" {
      assert a + b == b;
    } else {
      assert (a + b)[1..] == a[1..] + b;
      EncodeConcat(a[1..], b);
    }
  }

  lemma EncodeSplit(s: string, k: nat, m: nat)
    requires k <= m <= |s|
    ensures Offset(s, k) + |Encode(s[k..m])| == Offset(s, m)
    ensures Encode(s) == Encode(s[..k]) + Encode(s[k..])
    ensures m > k ==> Offset(s, m) > Offset(s, k)
    ensures Offset(s, |s|) == |Encode(s)|
  {
    hide Encode;
    if m > k {
      EncodeIsNotEmpty(s[k..m]);
    }
    EncodePrefix(s, k, m);
    EncodePrefix(s, k, |s|);
    EncodePrefix(s, |s|, |s|);
  }

  lemma EncodePrefix(s: string, k: nat, m: nat)
    requires k <= m <= |s|
    ensures Encode(s[..m]) == Encode(s[..k]) + Encode(s[k..m])
    ensures s[..|s|] == s && s[k..|s|] == s[k..]
  {
    hide Encode;
    EncodeConcat(s[..k], s[k..m]);
    assert s[..k] + s[k..m] == s[..m];
  }

  lemma EncodeIsNotEmpty(s: string)
    requires s != ""
    ensures Encode(s) != []
  {
  }

  /** The character at which a byte index falls; the index must be a boundary, or the program
      would stop. */
  function CharIndex(s: string, i: nat): (k: nat)
    requires Boundary(s, i)
    ensures k <= |s| && Offset(s, k) == i
  {
    if i == 0 then assert s[..0] == ""; 0
    else
      BoundaryOfTail(s, i);
      var k := CharIndex(s[1..], i - |Utf8(s[0])|);
      assert s[..k + 1][1..] == s[1..][..k];
      k + 1
  }

  lemma BoundaryOfTail(s: string, i: nat)
    requires Boundary(s, i) && i > 0
    ensures s != "" && i >= |Utf8(s[0])| && Boundary(s[1..], i - |Utf8(s[0])|)
  {
    var k :| 0 <= k <= |s| && Offset(s, k) == i;
    assert s[..k][1..] == s[1..][..k - 1];
    assert Offset(s[1..], k - 1) == i - |Utf8(s[0])|;
  }

  /** `&line[i..j]`. */
  function Slice(line: string, i: nat, j: nat): string
    requires Boundary(line, i) && Boundary(line, j) && i <= j
  {
    var k, m := CharIndex(line, i), CharIndex(line, j);
    assert k <= m by { if m < k { EncodeSplit(line, m, k); } }
    line[k..m]
  }

  lemma SliceIsChars(line: string, k: nat, m: nat)
    requires k <= m <= |line|
    ensures var i, j := Offset(line, k), Offset(line, m);
      Boundary(line, i) && Boundary(line, j) && i <= j && Slice(line, i, j) == line[k..m]
  {
    EncodeSplit(line, k, m);
    OffsetsAreDistinct(line, k, CharIndex(line, Offset(line, k)));
    OffsetsAreDistinct(line, m, CharIndex(line, Offset(line, m)));
  }

  lemma OffsetsAreDistinct(s: string, k: nat, m: nat)
    requires k <= |s| && m <= |s| && Offset(s, k) == Offset(s, m)
    ensures k == m
  {
    if k < m { EncodeSplit(s, k, m); }
    if m < k { EncodeSplit(s, m, k); }
  }

  function ByteLower(b: Byte): Byte {
    if 65 <= b <= 90 then b + 32 else b
  }

  /** `bytes[i..i + key.len()].eq_ignore_ascii_case(key)`, the length checked first. */
  predicate BytesMatch(key: string, bytes: seq<Byte>, i: nat) {
    i + |key| <= |bytes| && forall j :: 0 <= j < |key| ==> ByteLower(bytes[i + j]) == key[j] as int
  }

  function FindKey(keys: seq<string>, bytes: seq<Byte>, i: nat): Option<string> {
    if keys == [] then None
    else if BytesMatch(keys[0], bytes, i) then Some(keys[0])
    else FindKey(keys[1..], bytes, i)
  }

  /** The byte comparison sees what the character comparison sees, because the bytes of other
      characters are above the ASCII range; and an ASCII key takes one byte a character. */
  lemma {:induction false} BytesMatchChars(key: string, pre: seq<Byte>, s: string)
    requires forall j :: 0 <= j < |key| ==> KeyChar(key[j])
    ensures BytesMatch(key, pre + Encode(s), |pre|) <==> Matches(key, s)
    ensures Matches(key, s) ==> Offset(s, |key|) == |key|
    decreases |key|
  {
    var bytes := pre + Encode(s);
    if key != "" && s != "" {
      var first := Utf8(s[0]);
      assert bytes == pre + first + Encode(s[1..]);
      assert bytes[|pre|] == first[0];
      assert ByteLower(first[0]) == key[0] as int <==> AsciiLower(s[0]) == key[0];
      BytesMatchStep(key, bytes, |pre|);
      MatchesStep(key, s);
      if AsciiLower(s[0]) == key[0] {
        BytesMatchChars(key[1..], pre + first, s[1..]);
        if Matches(key, s) {
          assert s[..|key|][1..] == s[1..][..|key| - 1];
        }
      }
    }
  }

  lemma BytesMatchStep(key: string, bytes: seq<Byte>, i: nat)
    requires key != "" && i < |bytes|
    ensures BytesMatch(key, bytes, i)
       <==> ByteLower(bytes[i]) == key[0] as int && BytesMatch(key[1..], bytes, i + 1)
  {
    if BytesMatch(key, bytes, i) {
      assert ByteLower(bytes[i + 0]) == key[0] as int;
      forall j | 0 <= j < |key[1..]| ensures ByteLower(bytes[i + 1 + j]) == key[1..][j] as int {
        assert ByteLower(bytes[i + (j + 1)]) == key[j + 1] as int;
      }
    }
    if ByteLower(bytes[i]) == key[0] as int && BytesMatch(key[1..], bytes, i + 1) {
      forall j | 0 <= j < |key| ensures ByteLower(bytes[i + j]) == key[j] as int {
        assert j > 0 ==> ByteLower(bytes[i + 1 + (j - 1)]) == key[1..][j - 1] as int;
      }
    }
  }

  lemma {:induction false} FindKeyIsFirstMatch(keys: seq<string>, line: string, k: nat)
    requires k <= |line| && forall key :: key in keys ==> KeyShaped(key)
    ensures FindKey(keys, Encode(line), Offset(line, k)) == FirstMatch(keys, line[k..])
  {
    if keys != [] {
      EncodeSplit(line, k, |line|);
      assert KeyShaped(keys[0]);
      BytesMatchChars(keys[0], Encode(line[..k]), line[k..]);
      FindKeyIsFirstMatch(keys[1..], line, k);
    }
  }

  lemma KeyOffset(key: string, line: string, k: nat)
    requires KeyShaped(key) && k <= |line| && Matches(key, line[k..])
    ensures Offset(line, k + |key|) == Offset(line, k) + |key|
  {
    KeyIsAscii(key);
    KeyLength(key, line[k..]);
    hide *;
    OffsetAdvances(line, k, |key|);
  }

  lemma KeyIsAscii(key: string)
    requires KeyShaped(key)
    ensures forall j :: 0 <= j < |key| ==> KeyChar(key[j])
  {
  }

  lemma KeyLength(key: string, s: string)
    requires Matches(key, s) && forall j :: 0 <= j < |key| ==> KeyChar(key[j])
    ensures |Encode(s[..|key|])| == |key|
  {
    hide Matches, Encode, KeyChar;
    BytesMatchChars(key, [], s);
  }

  /** Where the value of `key`, found at byte `i`, starts and ends.  `k` is the character that
      byte `i` belongs to. */
  method LocateValue(line: string, length: nat, i: nat, key: string, ghost k: nat)
    returns (valueStart: nat, valueEnd: nat)
    requires KeyShaped(key) && k <= |line| && i == Offset(line, k) && length == |Encode(line)|
    requires Matches(key, line[k..])
    ensures valueStart == Offset(line, k + ValueStart(key, line[k..]))
    ensures valueEnd == Offset(line, k + ValueEnd(key, line[k..]))
  {
    hide Encode, Slice, Boundary, SpaceRun, ValueRun;
    ghost var raw := k + |key|;
    var rawValueStart := i + |key|;
    KeyOffset(key, line, k);
    var tail := SliceFrom(line, rawValueStart, length, raw);
    assert tail == line[k..][|key|..];
    var lead := if IsHeader(key) then SpaceRun(tail) else 0;
    valueStart := rawValueStart + |Encode(tail[..lead])|;
    OffsetAdvances(line, raw, lead);
    var rest := SliceFrom(line, valueStart, length, raw + lead);
    assert rest == line[k..][|key| + lead..];
    var run := ValueRun(IsHeader(key), rest);
    valueEnd := if run < |rest| then valueStart + |Encode(rest[..run])| else length;
    OffsetAdvances(line, raw + lead, run);
  }

  lemma OffsetAdvances(line: string, k: nat, n: nat)
    requires k + n <= |line|
    ensures Offset(line, k) + |Encode(line[k..][..n])| == Offset(line, k + n)
    ensures k + n == |line| ==> Offset(line, k + n) == |Encode(line)|
  {
    EncodeSplit(line, k, k + n);
    hide Encode;
    assert line[k..][..n] == line[k..k + n];
    assert k + n == |line| ==> line[..k + n] == line;
  }

  /** `&line[i..]`. */
  method SliceFrom(line: string, i: nat, length: nat, ghost k: nat) returns (r: string)
    requires k <= |line| && i == Offset(line, k) && length == |Encode(line)|
    ensures r == line[k..]
  {
    EncodeSplit(line, k, |line|);
    SliceIsChars(line, k, |line|);
    r := Slice(line, i, length);
  }

  /** One step of the scan, in the positions of the whole line. */
  lemma RedactUnfolds(p: Policy, line: string, k: nat)
    requires p.Shaped() && k < |line|
    ensures var s := line[k..];
      match FirstMatch(p.keys, s)
      case Some(key) =>
        var start, end := k + ValueStart(key, s), k + ValueEnd(key, s);
        k < start <= end <= |line| && Redact(p, s) == line[k..start] + Masked(p, end > start) + Redact(p, line[end..])
      case None => Redact(p, s) == line[k..k + 1] + Redact(p, line[k + 1..])
  {
    hide *;
    var s := line[k..];
    match FirstMatch(p.keys, s)
    case Some(key) =>
      RedactMatched(p, key, s);
      KeyIsNotEmpty(p, key);
      SliceOfTail(line, k, ValueStart(key, s));
      SliceOfTail(line, k, ValueEnd(key, s));
    case None =>
      RedactUnmatched(p, s);
      SliceOfTail(line, k, 1);
      assert s[..1] == [s[0]];
  }

  lemma KeyIsNotEmpty(p: Policy, key: string)
    requires p.Shaped() && key in p.keys
    ensures key != "" && KeyShaped(key)
  {
  }

  lemma SliceOfTail(line: string, k: nat, n: nat)
    requires k + n <= |line|
    ensures line[k..][..n] == line[k..k + n] && line[k..][n..] == line[k + n..]
  {
  }

  lemma CharacterWidth(line: string, k: nat)
    requires k < |line|
    ensures Offset(line, k) + |Utf8(line[k..][0])| == Offset(line, k + 1)
  {
    assert line[k..k + 1] == [line[k]];
    assert Encode([line[k]]) == Utf8(line[k]) + Encode([line[k]][1..]);
    EncodeSplit(line, k, k + 1);
  }

  /** The two branches of one iteration: what to append and where to go on. */
  method ScanOnce(p: Policy, line: string, bytes: seq<Byte>, i: nat, ghost k: nat)
    returns (piece: string, next: nat, ghost end: nat)
    requires p.Shaped() && k < |line| && i == Offset(line, k) && bytes == Encode(line)
    ensures k < end <= |line| && next == Offset(line, end)
    ensures Redact(p, line[k..]) == piece + Redact(p, line[end..])
  {
    hide Redact, Encode, Offset, Boundary, Slice, Utf8, Matches, FirstMatch, FindKey, ValueStart, ValueEnd, KeyShaped;
    ghost var s := line[k..];
    end := k + 1;
    RedactUnfolds(p, line, k);
    FindKeyIsFirstMatch(p.keys, line, k);
    var matched := FindKey(p.keys, bytes, i);
    if matched.Some? {
      var valueStart, valueEnd := LocateValue(line, |bytes|, i, matched.value, k);
      ghost var start := k + ValueStart(matched.value, s);
      end := k + ValueEnd(matched.value, s);
      SliceIsChars(line, k, start);
      EncodeSplit(line, start, end);
      piece := Slice(line, i, valueStart);
      if valueEnd > valueStart {
        piece := piece + p.mask;
      }
      next := valueEnd;
    } else {
      var rest := SliceFrom(line, i, |bytes|, k);
      var charLen := |Utf8(rest[0])|;
      CharacterWidth(line, k);
      SliceIsChars(line, k, k + 1);
      piece := Slice(line, i, i + charLen);
      next := i + charLen;
    }
  }

  /** `redact_line`: one forward pass over byte indices.  Each slice proves that its ends are
      character boundaries, for any text whatever. */
  method RedactLine(p: Policy, line: string) returns (result: string)
    requires p.Shaped()
    ensures result == Redact(p, line) && Described(p, line, result)
  {
    hide Redact, Described, Encode, Offset, Utf8, Policy.Shaped;
    WholeLine(line);
    var bytes := Encode(line);
    result := "";
    var i := 0;
    ghost var k: nat := 0;
    while i < |bytes|
      invariant k <= |line| && i == Offset(line, k)
      invariant result + Redact(p, line[k..]) == Redact(p, line)
      decreases |line| - k
    {
      InsideLine(line, k);
      ghost var end: nat;
      var piece;
      piece, i, end := ScanOnce(p, line, bytes, i, k);
      result := result + piece;
      k := end;
    }
    InsideLine(line, k);
    RedactEmpty(p);
    RedactIsDescribed(p, line, result);
  }

  lemma WholeLine(line: string)
    ensures line[0..] == line && Offset(line, 0) == 0
  {
    assert line[..0] == "";
  }

  lemma InsideLine(line: string, k: nat)
    requires k <= |line|
    ensures k < |line| <==> Offset(line, k) < |Encode(line)|
    ensures k == |line| ==> line[k..] == ""
  {
    hide Encode;
    EncodeSplit(line, k, |line|);
  }
}
