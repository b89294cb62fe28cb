/** The file-name sanitiser of the static-site generator (`sanitize_filename` in
    generator_v2.py): a fixed chain of deletions and substitutions, a collapse of
    underscore runs, a strip of underscores and a 100-character cut, with
    "untitled" when nothing is left. */
module Filenames {
  import opened Sequences
  import opened Strings

  const MaxLength: nat := 100
  const Fallback: string := "untitled"
  const FullWidthSpace: char := '\U{3000}'

  /** The members of the character class deleted first: `\ / : * ? " < > |`. */
  predicate IsForbidden(c: char)
  {
    c == '\\' || c == '/' || c == ':' || c == '*' || c == '?' || c == '"' || c == '<' || c == '>' || c == '|'
  }

  /** Every character that the sanitiser removes or turns into an underscore. */
  predicate IsUnsafe(c: char)
  {
    IsForbidden(c) || c == '(' || c == ')' || c == ' ' || c == FullWidthSpace
  }

  predicate IsUnderscore(c: char) { c == '_' }

  /** No character of `s` is one the sanitiser removes or substitutes. */
  predicate AllSafe(s: string)
  {
    forall k :: 0 <= k < |s| ==> !IsUnsafe(s[k])
  }

  /** No two adjacent underscores. */
  predicate NoDoubleUnderscore(s: string)
  {
    forall i :: 0 <= i < |s| - 1 ==> !(s[i] == '_' && s[i + 1] == '_')
  }

  /** The regular-expression substitution of line 324: every forbidden
      character is deleted. */
  function RemoveForbidden(s: string): string
  {
    if s == [] then [] else (if IsForbidden(s[0]) then [] else [s[0]]) + RemoveForbidden(s[1..])
  }

  /** The chain of deletions and substitutions of lines 324-325, in their order. */
  function SubstitutionChain(s: string): string
  {
    var t := RemoveForbidden(s);
    var t := ReplaceChar(t, '(', "");
    var t := ReplaceChar(t, ')', "");
    var t := ReplaceChar(t, ' ', "_");
    ReplaceChar(t, FullWidthSpace, "_")
  }

  /** What the chain does to one character. No step of the chain produces a
      character that a later step changes, so the chain acts character by
      character (see SubstitutedIsChain). */
  function SubstituteChar(c: char): string
  {
    if IsForbidden(c) || c == '(' || c == ')' then ""
    else if c == ' ' || c == FullWidthSpace then "_"
    else [c]
  }

  function Substituted(s: string): (r: string)
    ensures AllSafe(r)
    ensures AllSafe(s) ==> r == s
    ensures (forall k :: 0 <= k < |s| ==> IsUnsafe(s[k]) || s[k] == '_') ==>
              forall k :: 0 <= k < |r| ==> r[k] == '_'
  {
    if s == [] then [] else SubstituteChar(s[0]) + Substituted(s[1..])
  }

  lemma {:induction false} RemoveForbiddenAppend(a: string, b: string)
    ensures RemoveForbidden(a + b) == RemoveForbidden(a) + RemoveForbidden(b)
  {
    if a == [] {
      assert a + b == b;
    } else {
      assert (a + b)[0] == a[0] && (a + b)[1..] == a[1..] + b;
      RemoveForbiddenAppend(a[1..], b);
    }
  }

  /** Each step of the chain, and so the chain, distributes over concatenation. */
  lemma {:induction false} ChainAppend(a: string, b: string)
    ensures SubstitutionChain(a + b) == SubstitutionChain(a) + SubstitutionChain(b)
  {
    RemoveForbiddenAppend(a, b);
    var a0, b0 := RemoveForbidden(a), RemoveForbidden(b);
    ReplaceCharAppend(a0, b0, '(', "");
    var a1, b1 := ReplaceChar(a0, '(', ""), ReplaceChar(b0, '(', "");
    ReplaceCharAppend(a1, b1, ')', "");
    var a2, b2 := ReplaceChar(a1, ')', ""), ReplaceChar(b1, ')', "");
    ReplaceCharAppend(a2, b2, ' ', "_");
    var a3, b3 := ReplaceChar(a2, ' ', "_"), ReplaceChar(b2, ' ', "_");
    ReplaceCharAppend(a3, b3, FullWidthSpace, "_");
  }

  lemma {:induction false} ReplaceOne(c: char, x: char, rep: string)
    ensures ReplaceChar([c], x, rep) == if c == x then rep else [c]
  {
    assert [c][1..] == [];
  }

  lemma {:induction false} ChainOfChar(c: char)
    ensures SubstitutionChain([c]) == SubstituteChar(c)
  {
    assert [c][0] == c && [c][1..] == [];
    assert RemoveForbidden([c]) == (if IsForbidden(c) then [] else [c]) + RemoveForbidden([]);
    var t0 := RemoveForbidden([c]);
    assert t0 == if IsForbidden(c) then [] else [c];
    if t0 == [] {
      assert SubstitutionChain([c]) == [];
    } else {
      ReplaceOne(c, '(', "");
      ReplaceOne(c, ')', "");
      ReplaceOne(c, ' ', "_");
      ReplaceOne(c, FullWidthSpace, "_");
      ReplaceOne('_', FullWidthSpace, "_");
    }
  }

  /** The per-character view agrees with the chain as the source writes it. */
  lemma {:induction false} SubstitutedIsChain(s: string)
    ensures Substituted(s) == SubstitutionChain(s)
  {
    if s != [] {
      SubstitutedIsChain(s[1..]);
      assert s == [s[0]] + s[1..];
      ChainAppend([s[0]], s[1..]);
      ChainOfChar(s[0]);
    }
  }

  /** Replaces each maximal run of underscores by a single one. */
  function CollapseUnderscores(s: string): (r: string)
    ensures NoDoubleUnderscore(r)
    ensures r == [] <==> s == []
    ensures r != [] ==> r[0] == s[0]
  {
    if |s| < 2 then s
    else if s[0] == '_' && s[1] == '_' then CollapseUnderscores(s[1..])
    else [s[0]] + CollapseUnderscores(s[1..])
  }

  /** The text with its underscores deleted. */
  function NonUnderscores(s: string): (r: string)
    ensures '_' !in r
    ensures forall k :: 0 <= k < |r| ==> r[k] in s
  {
    if s == [] then []
    else (if s[0] == '_' then [] else [s[0]]) + NonUnderscores(s[1..])
  }

  /** The collapse only deletes characters, and only underscores: every other
      character is kept, in order, and a text without a double underscore is
      kept whole. */
  lemma {:induction false} CollapseKeeps(s: string)
    ensures forall k :: 0 <= k < |CollapseUnderscores(s)| ==> CollapseUnderscores(s)[k] in s
    ensures NonUnderscores(CollapseUnderscores(s)) == NonUnderscores(s)
    ensures NoDoubleUnderscore(s) ==> CollapseUnderscores(s) == s
  {
    CollapseFromInput(s);
    CollapseKeepsOthers(s);
    if NoDoubleUnderscore(s) {
      CollapseWithoutRuns(s);
    }
  }

  lemma {:induction false} CollapseFromInput(s: string)
    ensures forall k :: 0 <= k < |CollapseUnderscores(s)| ==> CollapseUnderscores(s)[k] in s
  {
    if |s| >= 2 {
      CollapseFromInput(s[1..]);
      assert forall x :: x in s[1..] ==> x in s;
    }
  }

  lemma {:induction false} CollapseKeepsOthers(s: string)
    ensures NonUnderscores(CollapseUnderscores(s)) == NonUnderscores(s)
  {
    if |s| >= 2 {
      CollapseKeepsOthers(s[1..]);
      if !(s[0] == '_' && s[1] == '_') {
        var c := CollapseUnderscores(s);
        assert c[0] == s[0] && c[1..] == CollapseUnderscores(s[1..]);
      }
    }
  }

  lemma {:induction false} CollapseWithoutRuns(s: string)
    requires NoDoubleUnderscore(s)
    ensures CollapseUnderscores(s) == s
  {
    if |s| >= 2 {
      assert NoDoubleUnderscore(s[1..]) by {
        forall i | 0 <= i < |s[1..]| - 1 ensures !(s[1..][i] == '_' && s[1..][i + 1] == '_') {
          assert s[1..][i] == s[i + 1] && s[1..][i + 1] == s[i + 2];
        }
      }
      CollapseWithoutRuns(s[1..]);
    }
  }

  /** A run of underscores becomes a single one: shortening a run by one
      underscore does not change the result. With the identity on texts
      without `__`, this determines the collapse. */
  lemma {:induction false} CollapseRun(a: string, b: string)
    ensures CollapseUnderscores(a + "__" + b) == CollapseUnderscores(a + "_" + b)
  {
    var s, t := a + "__" + b, a + "_" + b;
    if a == [] {
      assert s[1..] == t;
    } else {
      assert s[0] == t[0] && s[1] == t[1];
      assert s[1..] == a[1..] + "__" + b && t[1..] == a[1..] + "_" + b;
      CollapseRun(a[1..], b);
    }
  }

  /** The text after the collapse and the underscore strip of line 326. */
  function Normalized(s: string): string
  {
    Strip(CollapseUnderscores(Substituted(s)), IsUnderscore)
  }

  lemma {:induction false} NormalizedShape(s: string)
    ensures var t := Normalized(s);
      && AllSafe(t)
      && NoDoubleUnderscore(t)
      && (t == [] || (t[0] != '_' && t[|t| - 1] != '_'))
  {
    CollapseKeeps(Substituted(s));
    StripShape(CollapseUnderscores(Substituted(s)));
  }

  lemma {:induction false} StripShape(u: string)
    requires AllSafe(u) && NoDoubleUnderscore(u)
    ensures var t := Strip(u, IsUnderscore);
      && AllSafe(t)
      && NoDoubleUnderscore(t)
      && (t == [] || (t[0] != '_' && t[|t| - 1] != '_'))
  {
    PieceKeepsShape(u, LeadingCount(u, IsUnderscore), Strip(u, IsUnderscore));
  }

  lemma {:induction false} PieceKeepsShape(u: string, i: nat, t: string)
    requires i + |t| <= |u| && t == u[i..i + |t|]
    requires AllSafe(u) && NoDoubleUnderscore(u)
    ensures AllSafe(t) && NoDoubleUnderscore(t)
  {
    forall k | 0 <= k < |t| - 1 ensures !(t[k] == '_' && t[k + 1] == '_') {
      assert t[k] == u[i + k] && t[k + 1] == u[i + k + 1];
    }
  }

  /** `sanitize_filename`: at most 100 characters of the normalised title, or the
      fallback when the normalised title is empty. */
  function SanitizeFilename(title: string): (r: string)
    ensures r != []
    ensures |r| <= MaxLength
    ensures AllSafe(r)
    ensures NoDoubleUnderscore(r)
    ensures r[0] != '_'
    ensures r[|r| - 1] == '_' ==> |Normalized(title)| > MaxLength
  {
    var t := Normalized(title);
    NormalizedShape(title);
    if t == [] then FallbackShape(); Fallback
    else
      CutShape(t);
      Take(t, MaxLength)
  }

  lemma {:induction false} CutShape(t: string)
    requires t != [] && AllSafe(t) && NoDoubleUnderscore(t) && t[0] != '_' && t[|t| - 1] != '_'
    ensures var r := Take(t, MaxLength);
      && r != [] && AllSafe(r) && NoDoubleUnderscore(r) && r[0] != '_'
      && (r[|r| - 1] == '_' ==> |t| > MaxLength)
  {
    PieceKeepsShape(t, 0, Take(t, MaxLength));
  }

  lemma {:induction false} FallbackShape()
    ensures AllSafe(Fallback) && NoDoubleUnderscore(Fallback)
    ensures Fallback[0] != '_' && Fallback[|Fallback| - 1] != '_'
  {
  }

  /** The fallback is returned exactly when the normalised title is empty, or is
      itself "untitled". */
  lemma {:induction false} FallbackExactly(title: string)
    ensures SanitizeFilename(title) == Fallback <==> Normalized(title) in {"", Fallback}
  {
  }

  /** A title made only of characters the sanitiser removes or turns into
      underscores (underscores, spaces, parentheses, forbidden characters) gives
      the fallback. */
  lemma {:induction false} BlankTitleGivesFallback(title: string)
    requires forall k :: 0 <= k < |title| ==> IsUnsafe(title[k]) || title[k] == '_'
    ensures SanitizeFilename(title) == Fallback
  {
    var u := CollapseUnderscores(Substituted(title));
    CollapseKeeps(Substituted(title));
    assert forall k :: 0 <= k < |u| ==> IsUnderscore(u[k]);
    StripEmpty(u, IsUnderscore);
  }

  /** A title that is already a clean name comes back unchanged: `走れメロス`, say. */
  lemma {:induction false} CleanTitleUnchanged(title: string)
    requires 0 < |title| <= MaxLength
    requires AllSafe(title) && NoDoubleUnderscore(title)
    requires title[0] != '_' && title[|title| - 1] != '_'
    ensures SanitizeFilename(title) == title
  {
    assert Substituted(title) == title;
    CollapseKeeps(title);
    StripUnchanged(title, IsUnderscore);
  }

  lemma {:induction false} MelosUnchanged()
    ensures SanitizeFilename("走れメロス") == "走れメロス"
  {
    CleanTitleUnchanged("走れメロス");
  }

  /** Sanitising twice changes nothing unless the cut left a trailing underscore. */
  lemma {:induction false} IdempotentUnlessCutAtUnderscore(title: string)
    requires var r := SanitizeFilename(title); r[|r| - 1] != '_'
    ensures SanitizeFilename(SanitizeFilename(title)) == SanitizeFilename(title)
  {
    CleanTitleUnchanged(SanitizeFilename(title));
  }

  /** When the cut does leave a trailing underscore, a second pass strips it, so
      the sanitiser is not idempotent (a title of 99 `a`s followed by " b" is one). */
  lemma {:induction false} NotIdempotentAfterCutAtUnderscore(title: string)
    requires var r := SanitizeFilename(title); r[|r| - 1] == '_'
    ensures var r := SanitizeFilename(title);
      SanitizeFilename(r) == r[..|r| - 1] != r
  {
    var r := SanitizeFilename(title);
    assert |r| == MaxLength;
    NormalizedDropsTrailingUnderscore(r);
    SanitizeShortNormalized(r);
  }

  /** A non-empty normalised title within the length limit is the name itself. */
  lemma {:induction false} SanitizeShortNormalized(title: string)
    requires 0 < |Normalized(title)| <= MaxLength
    ensures SanitizeFilename(title) == Normalized(title)
  {
    var t := Normalized(title);
    assert Take(t, MaxLength) == t;
  }

  /** A clean name that ends in an underscore normalises to itself without
      that underscore. */
  lemma {:induction false} NormalizedDropsTrailingUnderscore(r: string)
    requires AllSafe(r) && NoDoubleUnderscore(r)
    requires r != [] && r[0] != '_' && r[|r| - 1] == '_'
    ensures Normalized(r) == r[..|r| - 1]
  {
    assert Substituted(r) == r;
    CollapseKeeps(r);
    assert r[|r| - 2] != '_';
    StripOneTrailing(r, IsUnderscore);
  }
}
