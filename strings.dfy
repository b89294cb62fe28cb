/** String helpers shared by the two scripts: substring search, per-character
    replacement, trimming, line splitting and joining, and Python's ordering of
    `str` values. Strings are sequences of Unicode scalar values, which is what a
    Python `str` indexes and measures. */
module Strings {
  import opened Sequences


  /** `pat in s`, Python's substring test. */
  predicate Contains(s: string, pat: string)
    decreases |s|
  {
    if |s| < |pat| then false
    else if s[..|pat|] == pat then true
    else Contains(s[1..], pat)
  }

  /** The code points for which Python's `str.isspace()` holds: the ones that
      `str.strip()` with no argument removes. */
  predicate IsWhitespace(c: char)
  {
    || c == ' ' || ('\t' <= c <= '\r') || ('\U{1c}' <= c <= '\U{1f}')
    || c == '\U{85}' || c == '\U{a0}' || c == '\U{1680}'
    || ('\U{2000}' <= c <= '\U{200a}') || c == '\U{2028}' || c == '\U{2029}'
    || c == '\U{202f}' || c == '\U{205f}' || c == '\U{3000}'
  }

  /** The code points at which Python's `str.splitlines()` breaks a line. */
  predicate IsLineBoundary(c: char)
  {
    || ('\n' <= c <= '\r') || ('\U{1c}' <= c <= '\U{1e}')
    || c == '\U{85}' || c == '\U{2028}' || c == '\U{2029}'
  }

  lemma {:induction false} BoundaryIsWhitespace(c: char)
    ensures IsLineBoundary(c) ==> IsWhitespace(c)
  {
  }

  /** `s.replace(c, rep)` for a single character `c`. */
  function ReplaceChar(s: string, c: char, rep: string): (r: string)
    ensures c !in rep ==> c !in r
    ensures c !in s ==> r == s
  {
    if s == [] then []
    else (if s[0] == c then rep else [s[0]]) + ReplaceChar(s[1..], c, rep)
  }

  lemma {:induction false} ReplaceCharAppend(a: string, b: string, c: char, rep: string)
    ensures ReplaceChar(a + b, c, rep) == ReplaceChar(a, c, rep) + ReplaceChar(b, c, rep)
  {
    if a == [] {
      assert a + b == b;
    } else {
      assert (a + b)[0] == a[0] && (a + b)[1..] == a[1..] + b;
      ReplaceCharAppend(a[1..], b, c, rep);
    }
  }

  /** Replacing a character by a single character keeps every position: each
      `c` becomes `d` and every other character stays. */
  lemma {:induction false} ReplaceCharPointwise(s: string, c: char, d: char)
    ensures var r := ReplaceChar(s, c, [d]);
      |r| == |s| && forall i :: 0 <= i < |s| ==> r[i] == if s[i] == c then d else s[i]
  {
    if s != [] {
      ReplaceCharPointwise(s[1..], c, d);
    }
  }

  /** A replacement by nothing or by one character never lengthens the text,
      and brings in no character absent from `s` and from `rep`. */
  lemma {:induction false} ReplaceCharBounds(s: string, c: char, rep: string, x: char)
    requires |rep| <= 1
    ensures |ReplaceChar(s, c, rep)| <= |s|
    ensures x !in s && x !in rep ==> x !in ReplaceChar(s, c, rep)
  {
    if s != [] {
      ReplaceCharBounds(s[1..], c, rep, x);
    }
  }

  /** How many leading characters of `s` satisfy `drop`. */
  function LeadingCount(s: string, drop: char -> bool): (n: nat)
    ensures n <= |s|
    ensures n < |s| ==> !drop(s[n])
    ensures forall k :: 0 <= k < n ==> drop(s[k])
  {
    if s != [] && drop(s[0]) then 1 + LeadingCount(s[1..], drop) else 0
  }

  /** Where the run of trailing characters satisfying `drop` begins. */
  function TrailingStart(s: string, drop: char -> bool): (n: nat)
    ensures n <= |s|
    ensures n > 0 ==> !drop(s[n - 1])
    ensures forall k :: n <= k < |s| ==> drop(s[k])
  {
    if s != [] && drop(s[|s| - 1]) then TrailingStart(s[..|s| - 1], drop) else |s|
  }

  /** `s.strip(chars)`: the piece of `s` between its leading and its trailing
      run of dropped characters. Neither end of the result is dropped. */
  function Strip(s: string, drop: char -> bool): (r: string)
    ensures r == [] || (!drop(r[0]) && !drop(r[|r| - 1]))
  {
    var i := LeadingCount(s, drop);
    s[i..i + TrailingStart(s[i..], drop)]
  }

  /** A text that neither starts nor ends with a dropped character is kept. */
  lemma {:induction false} StripUnchanged(s: string, drop: char -> bool)
    requires s == [] || (!drop(s[0]) && !drop(s[|s| - 1]))
    ensures Strip(s, drop) == s
  {
    assert LeadingCount(s, drop) == 0;
    assert s[0..] == s;
  }

  /** A text that ends in exactly one dropped character loses just that one. */
  lemma {:induction false} StripOneTrailing(s: string, drop: char -> bool)
    requires |s| >= 2 && !drop(s[0]) && !drop(s[|s| - 2]) && drop(s[|s| - 1])
    ensures Strip(s, drop) == s[..|s| - 1]
  {
    assert LeadingCount(s, drop) == 0;
    assert s[..|s| - 1][|s| - 2] == s[|s| - 2];
    assert TrailingStart(s, drop) == |s| - 1;
    assert s[0..] == s;
  }

  /** The strip leaves nothing exactly when every character is dropped. */
  lemma {:induction false} StripEmpty(s: string, drop: char -> bool)
    ensures (forall k :: 0 <= k < |s| ==> drop(s[k])) <==> Strip(s, drop) == []
  {
    var i := LeadingCount(s, drop);
    var t := s[i..];
    if Strip(s, drop) == [] {
      assert TrailingStart(t, drop) == 0;
      forall k | i <= k < |s| ensures drop(s[k]) {
        assert s[k] == t[k - i];
      }
    }
  }

  /** Index of the first character of `s` satisfying `p`, or `|s|` if none. */
  function FirstWhere(s: string, p: char -> bool): (k: nat)
    ensures k <= |s|
    ensures k < |s| ==> p(s[k])
    ensures forall j :: 0 <= j < k ==> !p(s[j])
  {
    if s == [] then 0
    else if p(s[0]) then 0
    else 1 + FirstWhere(s[1..], p)
  }

  /** Cuts `s` at every character satisfying `sep`; the separators themselves
      are dropped and the pieces are kept in order. */
  function Split(s: string, sep: char -> bool): (r: seq<string>)
    ensures |r| >= 1
    ensures forall i, k :: 0 <= i < |r| && 0 <= k < |r[i]| ==> !sep(r[i][k]) && r[i][k] in s
    decreases |s|
  {
    var k := FirstWhere(s, sep);
    if k == |s| then [s] else [s[..k]] + Split(s[k + 1..], sep)
  }

  /** `sep.join(parts)` for a one-character separator. */
  function Join(parts: seq<string>, sep: char): (r: string)
    ensures forall x :: x in r ==> x == sep || exists i :: 0 <= i < |parts| && x in parts[i]
  {
    if parts == [] then []
    else if |parts| == 1 then parts[0]
    else parts[0] + [sep] + Join(parts[1..], sep)
  }

  /** Python's `<` on `str`: lexicographic by code point, a proper prefix first. */
  predicate Less(a: string, b: string)
    decreases |a|
  {
    if a == [] then b != []
    else if b == [] then false
    else if a[0] != b[0] then a[0] < b[0]
    else Less(a[1..], b[1..])
  }

  lemma {:induction false} LessIrreflexive(a: string)
    ensures !Less(a, a)
    decreases |a|
  {
    if a != [] { LessIrreflexive(a[1..]); }
  }

  lemma {:induction false} LessTransitive(a: string, b: string, c: string)
    requires Less(a, b) && Less(b, c)
    ensures Less(a, c)
    decreases |a|
  {
    if a != [] && a[0] == b[0] && b[0] == c[0] {
      LessTransitive(a[1..], b[1..], c[1..]);
    }
  }

  lemma {:induction false} LessTotal(a: string, b: string)
    ensures a == b || Less(a, b) || Less(b, a)
    decreases |a|
  {
    if a != [] && b != [] && a[0] == b[0] {
      LessTotal(a[1..], b[1..]);
      if a[1..] == b[1..] {
        assert a == [a[0]] + a[1..] && b == [b[0]] + b[1..];
      }
    }
  }
}
