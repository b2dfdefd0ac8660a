/** String helpers with JavaScript's meaning: the white space that
    `String.prototype.trim` and the regular-expression class `\s` accept,
    `trim`, lower-casing, decimal rendering of a non-negative integer and
    `Array.prototype.join`/`String.prototype.split` with a one-character
    separator. */
module Strings {

  /** JavaScript's WhiteSpace and LineTerminator code points (ECMAScript
      sections 12.2 and 12.3): the set both `trim` and `\s` use. */
  predicate IsSpace(c: char) {
    c == '\t' || c == '\n' || c == '\U{B}' || c == '\U{C}' || c == '\r' || c == ' '
    || c == '\U{A0}' || c == '\U{1680}' || ('\U{2000}' <= c <= '\U{200A}')
    || c == '\U{2028}' || c == '\U{2029}' || c == '\U{202F}' || c == '\U{205F}'
    || c == '\U{3000}' || c == '\U{FEFF}'
  }

  predicate IsDigit(c: char) {
    '0' <= c <= '9'
  }

  predicate AllSpace(s: string) {
    forall i :: 0 <= i < |s| ==> IsSpace(s[i])
  }

  predicate AllDigits(s: string) {
    forall i :: 0 <= i < |s| ==> IsDigit(s[i])
  }

  /** The number of white-space characters at the front of `s`. */
  function LeadingSpace(s: string): (n: nat)
    ensures n <= |s|
    ensures forall i :: 0 <= i < n ==> IsSpace(s[i])
    ensures n < |s| ==> !IsSpace(s[n])
  {
    if s != [] && IsSpace(s[0]) then 1 + LeadingSpace(s[1..]) else 0
  }

  /** The number of white-space characters at the back of `s`. */
  function TrailingSpace(s: string): (n: nat)
    ensures n <= |s|
    ensures forall i :: |s| - n <= i < |s| ==> IsSpace(s[i])
    ensures n < |s| ==> !IsSpace(s[|s| - n - 1])
  {
    if s != [] && IsSpace(s[|s| - 1]) then 1 + TrailingSpace(s[..|s| - 1]) else 0
  }

  /** A white-space run followed by a non-space (or by the end) is the
      whole of the leading white space. */
  lemma LeadingSpaceIs(s: string, m: nat)
    requires m <= |s| && (forall i :: 0 <= i < m ==> IsSpace(s[i]))
    requires m < |s| ==> !IsSpace(s[m])
    ensures LeadingSpace(s) == m
  {
  }

  /** The same for the trailing white space. */
  lemma TrailingSpaceIs(s: string, m: nat)
    requires m <= |s| && (forall i :: |s| - m <= i < |s| ==> IsSpace(s[i]))
    requires m < |s| ==> !IsSpace(s[|s| - m - 1])
    ensures TrailingSpace(s) == m
  {
  }

  /** `s.trim()`: the slice `s[lo..hi]` left once the white space at both
      ends is dropped; it neither starts nor ends with white space. */
  function Trim(s: string): (r: string)
    ensures exists lo, hi ::
      (0 <= lo <= hi <= |s| && r == s[lo..hi] && AllSpace(s[..lo]) && AllSpace(s[hi..]))
    ensures r != [] ==> !IsSpace(r[0]) && !IsSpace(r[|r| - 1])
  {
    var lo := LeadingSpace(s);
    var hi := if lo == |s| then |s| else |s| - TrailingSpace(s);
    assert AllSpace(s[..lo]) by {
      forall i | 0 <= i < lo ensures IsSpace(s[..lo][i]) { assert s[..lo][i] == s[i]; }
    }
    assert AllSpace(s[hi..]) by {
      forall i | 0 <= i < |s| - hi ensures IsSpace(s[hi..][i]) { assert s[hi..][i] == s[hi + i]; }
    }
    s[lo..hi]
  }

  /** Trimming an already trimmed string changes nothing. */
  lemma TrimIdempotent(s: string)
    ensures Trim(Trim(s)) == Trim(s)
  {
    TrimOfTrimmed(Trim(s));
  }

  /** A string with no white space at either end is its own trim. */
  lemma TrimOfTrimmed(s: string)
    requires s != [] ==> !IsSpace(s[0]) && !IsSpace(s[|s| - 1])
    ensures Trim(s) == s
  {
    LeadingSpaceIs(s, 0);
    TrailingSpaceIs(s, 0);
    assert s[0..|s|] == s;
  }

  /** Trimming removes exactly the white space around a string that neither
      starts nor ends with white space. */
  lemma TrimSurrounded(lead: string, core: string, trail: string)
    requires AllSpace(lead) && AllSpace(trail)
    requires core != [] ==> !IsSpace(core[0]) && !IsSpace(core[|core| - 1])
    ensures Trim(lead + core + trail) == core
  {
    var s := lead + core + trail;
    if core == [] {
      assert forall i :: 0 <= i < |s| ==> IsSpace(s[i]) by {
        forall i | 0 <= i < |s| ensures IsSpace(s[i]) {
          if i < |lead| { assert s[i] == lead[i]; } else { assert s[i] == trail[i - |lead|]; }
        }
      }
      LeadingSpaceIs(s, |s|);
    } else {
      assert forall i :: 0 <= i < |lead| ==> s[i] == lead[i];
      assert s[|lead|] == core[0];
      LeadingSpaceIs(s, |lead|);
      assert forall i :: |s| - |trail| <= i < |s| ==> s[i] == trail[i - (|s| - |trail|)];
      assert s[|s| - |trail| - 1] == core[|core| - 1];
      TrailingSpaceIs(s, |trail|);
      assert s[|lead|..|s| - |trail|] == core;
    }
  }

  /** Trimming yields the empty string exactly when the input is all white space. */
  lemma TrimEmptyIffAllSpace(s: string)
    ensures Trim(s) == [] <==> AllSpace(s)
  {
    if AllSpace(s) {
      LeadingSpaceIs(s, |s|);
    }
    if Trim(s) == [] {
      TrimEmptyIsSpace(s);
    }
  }

  /** What trims away to nothing was white space throughout. */
  lemma TrimEmptyIsSpace(s: string)
    requires Trim(s) == []
    ensures AllSpace(s)
  {
    assert LeadingSpace(s) == |s|;
  }

  /** ASCII lower-casing of one character. */
  function LowerChar(c: char): (r: char)
    ensures 'A' <= c <= 'Z' ==> r as int == c as int + 32
    ensures !('A' <= c <= 'Z') ==> r == c
  {
    if 'A' <= c <= 'Z' then (c as int + 32) as char else c
  }

  /** `s.toLowerCase()` restricted to ASCII letters (see README). */
  function Lower(s: string): (r: string)
    ensures |r| == |s|
    ensures forall i :: 0 <= i < |s| ==> r[i] == LowerChar(s[i])
  {
    seq(|s|, i requires 0 <= i < |s| => LowerChar(s[i]))
  }

  function DigitChar(d: nat): (c: char)
    requires d < 10
    ensures IsDigit(c) && c as int - '0' as int == d
  {
    ('0' as int + d) as char
  }

  /** The decimal rendering of `n`, as `${n}` gives it for a safe integer. */
  function NatToString(n: nat): (r: string)
    ensures r != [] && AllDigits(r)
    ensures (r[0] == '0') == (n == 0)
    decreases n
  {
    if n < 10 then [DigitChar(n)] else NatToString(n / 10) + [DigitChar(n % 10)]
  }

  /** The value of a string of decimal digits. */
  function DigitsValue(s: string): nat
    requires AllDigits(s)
  {
    if s == [] then 0 else 10 * DigitsValue(s[..|s| - 1]) + (s[|s| - 1] as int - '0' as int)
  }

  /** Reading back a rendered number gives the number. */
  lemma {:induction false} DigitsValueOfNatToString(n: nat)
    ensures DigitsValue(NatToString(n)) == n
    decreases n
  {
    var r := NatToString(n);
    if n < 10 {
      assert r[..0] == [];
    } else {
      DigitsValueOfNatToString(n / 10);
      assert r[..|r| - 1] == NatToString(n / 10);
    }
  }

  /** Distinct numbers render to distinct strings. */
  lemma NatToStringInjective(m: nat, n: nat)
    requires m != n
    ensures NatToString(m) != NatToString(n)
  {
    DigitsValueOfNatToString(m);
    DigitsValueOfNatToString(n);
  }

  /** Distinct numbers after a common prefix give distinct strings. */
  lemma PrefixedNatInjective(prefix: string, m: nat, n: nat)
    requires m != n
    ensures prefix + NatToString(m) != prefix + NatToString(n)
  {
    NatToStringInjective(m, n);
    assert (prefix + NatToString(m))[|prefix|..] == NatToString(m);
    assert (prefix + NatToString(n))[|prefix|..] == NatToString(n);
  }

  /** `parts.join(sep)` for a one-character separator. */
  function Join(parts: seq<string>, sep: char): (r: string)
    ensures |parts| == 1 ==> r == parts[0]
    decreases |parts|
  {
    if parts == [] then ""
    else if |parts| == 1 then parts[0]
    else parts[0] + [sep] + Join(parts[1..], sep)
  }

  /** Index of the first `sep` in `s`, or `|s|` when there is none. */
  function IndexOf(s: string, sep: char): (i: nat)
    ensures i <= |s|
    ensures i < |s| ==> s[i] == sep
    ensures forall j :: 0 <= j < i ==> s[j] != sep
  {
    if s == [] then 0 else if s[0] == sep then 0 else 1 + IndexOf(s[1..], sep)
  }

  /** `s.split(sep)` for a one-character separator: the pieces between the
      separators, `[s]` when there is none. */
  function Split(s: string, sep: char): (r: seq<string>)
    ensures r != []
    decreases |s|
  {
    var i := IndexOf(s, sep);
    if i == |s| then [s] else [s[..i]] + Split(s[i + 1..], sep)
  }

  /** The first separator after a separator-free prefix is the one right
      after it. */
  lemma IndexOfPast(p: string, sep: char, rest: string)
    requires sep !in p
    ensures IndexOf(p + [sep] + rest, sep) == |p|
  {
    var s := p + [sep] + rest;
    assert s[|p|] == sep;
    assert forall j :: 0 <= j < |p| ==> s[j] == p[j];
  }

  /** Splitting a join at the separator recovers the parts, provided no part
      contains the separator. */
  lemma {:induction false} SplitJoin(parts: seq<string>, sep: char)
    requires parts != []
    requires forall k :: 0 <= k < |parts| ==> sep !in parts[k]
    ensures Split(Join(parts, sep), sep) == parts
    decreases |parts|
  {
    var p := parts[0];
    if |parts| == 1 {
      assert IndexOf(p, sep) == |p|;
    } else {
      var rest := Join(parts[1..], sep);
      assert Join(parts, sep) == p + [sep] + rest;
      SplitAfterFirst(p, sep, rest);
      SplitJoin(parts[1..], sep);
      assert parts == [p] + parts[1..];
    }
  }

  /** A separator-free prefix followed by the separator splits off as the
      first piece. */
  lemma SplitAfterFirst(p: string, sep: char, rest: string)
    requires sep !in p
    ensures Split(p + [sep] + rest, sep) == [p] + Split(rest, sep)
  {
    var s := p + [sep] + rest;
    IndexOfPast(p, sep, rest);
    assert s[..|p|] == p;
    assert s[|p| + 1..] == rest;
  }
}
