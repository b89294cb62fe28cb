/** The scraper's way from a work's card page to its cleaned text
    (`get_text_url_from_card` and `extract_text_from_work` in generator.py): the
    first link to an HTML file, then the page's main text with ruby readings and
    editorial notes removed, ruby bars deleted and the lines tidied. */
module Extraction {
  import opened Sequences
  import opened Strings
  import opened Web

  const RubyOpen: char := '\U{300A}'    // 《
  const RubyClose: char := '\U{300B}'   // 》
  const NoteOpen: string := "\U{FF3B}\U{FF03}"  // ［＃
  const NoteClose: char := '\U{FF3D}'   // ］
  const RubyBar: char := '\U{FF5C}'     // ｜

  // ---------------------------------------------------------------------------
  // Removing spans: `re.sub(open + '.*?' + close, '', s)`

  predicate StartsWith(s: string, p: string)
  {
    |p| <= |s| && s[..|p|] == p
  }

  /** The index of the first `close`, provided no line feed comes before it:
      where the non-greedy `.*?` stops, since `.` does not match a line feed.
      There is none exactly when every `close` has a line feed before it. */
  function CloseAt(s: string, close: char): (r: Option<nat>)
    ensures r.Some? ==> r.value < |s| && s[r.value] == close
    ensures r.Some? ==> forall j :: 0 <= j < r.value ==> s[j] != '\n' && s[j] != close
    ensures r.None? ==> forall j :: 0 <= j < |s| && s[j] == close ==> '\n' in s[..j]
  {
    if s == [] then None
    else if s[0] == close then Some(0)
    else if s[0] == '\n' then assert forall j :: 0 < j <= |s| ==> s[..j][0] == '\n'; None
    else match CloseAt(s[1..], close)
      case None =>
        assert forall j :: 0 < j <= |s| ==> s[..j] == [s[0]] + s[1..][..j - 1];
        None
      case Some(k) => Some(k + 1)
  }

  /** The substitution scans from the left; a match starting at the current
      position is deleted and the scan resumes after it, otherwise the
      character is kept. */
  function RemoveSpans(s: string, open: string, close: char): (r: string)
    ensures |r| <= |s|
    decreases |s|
  {
    if s == [] then []
    else if StartsWith(s, open) && CloseAt(s[|open|..], close).Some? then
      RemoveSpans(s[|open| + CloseAt(s[|open|..], close).value + 1..], open, close)
    else [s[0]] + RemoveSpans(s[1..], open, close)
  }

  /** `re.sub(r'《.*?》', '', text)`. */
  function StripRuby(s: string): string
  {
    RemoveSpans(s, [RubyOpen], RubyClose)
  }

  /** `re.sub(r'［＃.*?］', '', text)`. */
  function StripNotes(s: string): string
  {
    RemoveSpans(s, NoteOpen, NoteClose)
  }

  /** `re.sub(r'｜', '', text)`. */
  function RemoveBars(s: string): (r: string)
    ensures RubyBar !in r
  {
    ReplaceChar(s, RubyBar, "")
  }

  // ---------------------------------------------------------------------------
  // Tidying lines: `[line.strip() for line in text.splitlines() if line.strip()]`

  /** Every line stripped of surrounding whitespace; the lines left empty dropped. */
  function Tidy(pieces: seq<string>): (r: seq<string>)
    ensures |r| <= |pieces|
  {
    if pieces == [] then [] else TidyOne(pieces[0]) + Tidy(pieces[1..])
  }

  /** One line of the comprehension: the stripped line, or nothing when that is
      empty. */
  function TidyOne(piece: string): (r: seq<string>)
    ensures |r| <= 1
    ensures r == [] <==> forall k :: 0 <= k < |piece| ==> IsWhitespace(piece[k])
    ensures r != [] ==> Trimmed(r[0])
  {
    var t := Strip(piece, IsWhitespace);
    StripEmpty(piece, IsWhitespace);
    if t == [] then [] else [t]
  }

  /** Every tidied line is non-empty and trimmed. */
  lemma {:induction false} TidyTrimmed(pieces: seq<string>)
    ensures forall i :: 0 <= i < |Tidy(pieces)| ==> Trimmed(Tidy(pieces)[i])
  {
    if pieces != [] {
      TidyTrimmed(pieces[1..]);
    }
  }

  /** Non-empty, and neither starting nor ending with whitespace. */
  predicate Trimmed(line: string)
  {
    line != [] && !IsWhitespace(line[0]) && !IsWhitespace(line[|line| - 1])
  }

  predicate NoBoundary(line: string)
  {
    forall k :: 0 <= k < |line| ==> !IsLineBoundary(line[k])
  }

  function TidyLines(s: string): seq<string>
  {
    Tidy(Split(s, IsLineBoundary))
  }

  /** The lines of the cleaned text, before they are joined. */
  function CleanLines(text: string): seq<string>
  {
    TidyLines(RemoveBars(StripNotes(StripRuby(text))))
  }

  /** The cleaning block of `extract_text_from_work`: the three substitutions,
      then the tidied lines joined by line feeds. */
  function CleanText(text: string): string
  {
    Join(CleanLines(text), '\n')
  }

  // ---------------------------------------------------------------------------
  // Lines

  lemma {:induction false} TidyAppend(a: seq<string>, b: seq<string>)
    ensures Tidy(a + b) == Tidy(a) + Tidy(b)
  {
    if a == [] {
      assert a + b == b;
    } else {
      assert (a + b)[0] == a[0] && (a + b)[1..] == a[1..] + b;
      var h := TidyOne(a[0]);
      TidyAppend(a[1..], b);
      assert h + (Tidy(a[1..]) + Tidy(b)) == (h + Tidy(a[1..])) + Tidy(b);
    }
  }

  /** Lines already tidied come back unchanged, in order. */
  lemma {:induction false} TidyKeepsTidy(lines: seq<string>)
    requires forall i :: 0 <= i < |lines| ==> Trimmed(lines[i])
    ensures Tidy(lines) == lines
  {
    if lines != [] {
      TidyKeepsTidy(lines[1..]);
      StripUnchanged(lines[0], IsWhitespace);
      assert lines == [lines[0]] + lines[1..];
    }
  }

  /** No tidied line holds a line boundary. */
  lemma {:induction false} TidyNoBoundary(pieces: seq<string>)
    requires forall i :: 0 <= i < |pieces| ==> NoBoundary(pieces[i])
    ensures forall i :: 0 <= i < |Tidy(pieces)| ==> NoBoundary(Tidy(pieces)[i])
  {
    if pieces != [] {
      TidyNoBoundary(pieces[1..]);
      var p := pieces[0];
      var t := Strip(p, IsWhitespace);
      var o := LeadingCount(p, IsWhitespace);
      forall k | 0 <= k < |t| ensures !IsLineBoundary(t[k]) {
        assert t[k] == p[o + k];
      }
    }
  }

  lemma {:induction false} SplitNoBoundary(s: string)
    ensures forall i :: 0 <= i < |Split(s, IsLineBoundary)| ==> NoBoundary(Split(s, IsLineBoundary)[i])
  {
  }

  /** Every line of the cleaned text is non-empty, trimmed and holds no line
      boundary. */
  lemma {:induction false} CleanLinesShape(text: string)
    ensures forall i :: 0 <= i < |CleanLines(text)| ==> Trimmed(CleanLines(text)[i]) && NoBoundary(CleanLines(text)[i])
  {
    var s := RemoveBars(StripNotes(StripRuby(text)));
    SplitNoBoundary(s);
    TidyNoBoundary(Split(s, IsLineBoundary));
    TidyTrimmed(Split(s, IsLineBoundary));
  }

  /** The cleaned text holds no line boundary other than the line feeds that
      join its lines; in particular no carriage return. */
  lemma {:induction false} CleanTextNoCarriageReturn(text: string)
    ensures '\r' !in CleanText(text)
  {
    var lines := CleanLines(text);
    CleanLinesShape(text);
  }

  /** Splitting lines joined by line feeds gives the lines back. */
  lemma {:induction false} SplitJoin(lines: seq<string>)
    requires lines != []
    requires forall i :: 0 <= i < |lines| ==> NoBoundary(lines[i])
    ensures Split(Join(lines, '\n'), IsLineBoundary) == lines
  {
    var a := lines[0];
    var k := FirstWhere(a, IsLineBoundary);
    assert k == |a|;
    if |lines| > 1 {
      var s := Join(lines, '\n');
      var rest := Join(lines[1..], '\n');
      assert s == a + ['\n'] + rest;
      FirstIsBoundary(a, rest);
      assert s[..|a|] == a && s[|a| + 1..] == rest;
      SplitJoin(lines[1..]);
      assert lines == [a] + lines[1..];
    }
  }

  lemma {:induction false} FirstIsBoundary(a: string, rest: string)
    requires NoBoundary(a)
    ensures FirstWhere(a + ['\n'] + rest, IsLineBoundary) == |a|
  {
    if a != [] {
      assert (a + ['\n'] + rest)[1..] == a[1..] + ['\n'] + rest;
      FirstIsBoundary(a[1..], rest);
    }
  }

  /** Tidying the lines of a cleaned text again changes nothing: the joined
      lines split back into themselves and are already trimmed. */
  lemma {:induction false} CleanTextLinesStable(text: string)
    ensures TidyLines(CleanText(text)) == CleanLines(text)
  {
    var lines := CleanLines(text);
    CleanLinesShape(text);
    if lines == [] {
      assert Split(CleanText(text), IsLineBoundary) == [[]];
    } else {
      SplitJoin(lines);
      TidyKeepsTidy(lines);
    }
  }

  // ---------------------------------------------------------------------------
  // Characters

  /** No ruby bar is left in the cleaned text. */
  lemma {:induction false} CleanTextHasNoBar(text: string)
    ensures RubyBar !in CleanText(text)
  {
    var s := RemoveBars(StripNotes(StripRuby(text)));
    var lines := CleanLines(text);
    TidySubstrings(Split(s, IsLineBoundary), RubyBar);
  }

  /** Tidied lines hold only characters of the pieces they come from. */
  lemma {:induction false} TidySubstrings(pieces: seq<string>, c: char)
    requires forall i, k :: 0 <= i < |pieces| && 0 <= k < |pieces[i]| ==> pieces[i][k] != c
    ensures forall i, k :: 0 <= i < |Tidy(pieces)| && 0 <= k < |Tidy(pieces)[i]| ==> Tidy(pieces)[i][k] != c
  {
    if pieces != [] {
      TidySubstrings(pieces[1..], c);
      var p := pieces[0];
      var t := Strip(p, IsWhitespace);
      var o := LeadingCount(p, IsWhitespace);
      forall k | 0 <= k < |t| ensures t[k] != c {
        assert t[k] == p[o + k];
      }
    }
  }

  // ---------------------------------------------------------------------------
  // No ruby span survives on one line

  /** Reading `s` left to right, no `》` follows a `》`-opening `《` on the same
      line; `inside` says that a `《` has been read on the current line. */
  predicate RubyFree(s: string, inside: bool)
    decreases |s|
  {
    if s == [] then true
    else if s[0] == '\n' then RubyFree(s[1..], false)
    else if s[0] == RubyClose && inside then false
    else RubyFree(s[1..], inside || s[0] == RubyOpen)
  }

  lemma {:induction false} RubyFreeMonotone(s: string)
    requires RubyFree(s, true)
    ensures RubyFree(s, false)
  {
    if s != [] && s[0] != '\n' {
      if s[0] != RubyOpen {
        RubyFreeMonotone(s[1..]);
      }
    }
  }

  lemma {:induction false} RubyFreeSuffix(s: string, i: nat, inside: bool)
    requires i <= |s| && RubyFree(s, inside)
    ensures RubyFree(s[i..], false)
  {
    if i == 0 {
      if inside {
        RubyFreeMonotone(s);
      }
    } else {
      RubyFreeSuffix(s[1..], i - 1, s[0] != '\n' && (inside || s[0] == RubyOpen));
      assert s[1..][i - 1..] == s[i..];
    }
  }

  lemma {:induction false} RubyFreePrefix(s: string, j: nat, inside: bool)
    requires j <= |s| && RubyFree(s, inside)
    ensures RubyFree(s[..j], inside)
  {
    if j > 0 {
      RubyFreePrefix(s[1..], j - 1, s[0] != '\n' && (inside || s[0] == RubyOpen));
      assert s[..j][1..] == s[1..][..j - 1];
    }
  }

  lemma {:induction false} RubyFreeInfix(s: string, i: nat, j: nat)
    requires i <= j <= |s| && RubyFree(s, false)
    ensures RubyFree(s[i..j], false)
  {
    RubyFreeSuffix(s, i, false);
    RubyFreePrefix(s[i..], j - i, false);
    assert s[i..][..j - i] == s[i..j];
  }

  lemma {:induction false} RubyFreeCons(c: char, t: string, inside: bool)
    ensures RubyFree([c] + t, inside) ==
      if c == '\n' then RubyFree(t, false)
      else if c == RubyClose && inside then false
      else RubyFree(t, inside || c == RubyOpen)
  {
    assert ([c] + t)[1..] == t;
  }

  /** The ruby substitution leaves no `《` followed by `》` on a line; when no
      `》` comes before the next line feed, the result may even follow a `《`. */
  lemma {:induction false} StripRubyFree(s: string)
    ensures RubyFree(StripRuby(s), false)
    ensures CloseAt(s, RubyClose).None? ==> RubyFree(StripRuby(s), true)
    decreases |s|
  {
    if s != [] {
      var open := [RubyOpen];
      if StartsWith(s, open) && CloseAt(s[1..], RubyClose).Some? {
        var k := CloseAt(s[1..], RubyClose).value;
        StripRubyFree(s[k + 2..]);
      } else {
        StripRubyFree(s[1..]);
        RubyFreeCons(s[0], StripRuby(s[1..]), false);
        RubyFreeCons(s[0], StripRuby(s[1..]), true);
      }
    }
  }

  /** Deleting a stretch that holds no line feed keeps RubyFree. */
  lemma {:induction false} RubyFreeSkip(s: string, j: nat, inside: bool)
    requires j <= |s| && RubyFree(s, inside)
    requires forall t :: 0 <= t < j ==> s[t] != '\n'
    ensures RubyFree(s[j..], inside)
  {
    if j > 0 {
      var next := inside || s[0] == RubyOpen;
      RubyFreeSkip(s[1..], j - 1, next);
      assert s[1..][j - 1..] == s[j..];
      if next && !inside {
        RubyFreeMonotone(s[j..]);
      }
    }
  }

  /** The editorial-note substitution keeps RubyFree: it deletes only stretches
      without a line feed. */
  lemma {:induction false} StripNotesKeepsRubyFree(s: string, inside: bool)
    requires RubyFree(s, inside)
    ensures RubyFree(StripNotes(s), inside)
    decreases |s|
  {
    if s != [] {
      if StartsWith(s, NoteOpen) && CloseAt(s[|NoteOpen|..], NoteClose).Some? {
        var u := s[|NoteOpen|..];
        var k := CloseAt(u, NoteClose).value;
        var j := |NoteOpen| + k + 1;
        forall t | 0 <= t < j ensures s[t] != '\n' {
          if t >= |NoteOpen| {
            assert s[t] == u[t - |NoteOpen|];
          } else {
            assert s[t] == NoteOpen[t];
          }
        }
        RubyFreeSkip(s, j, inside);
        StripNotesKeepsRubyFree(s[j..], inside);
      } else {
        var next := s[0] != '\n' && (inside || s[0] == RubyOpen);
        StripNotesKeepsRubyFree(s[1..], next);
        RubyFreeCons(s[0], StripNotes(s[1..]), inside);
      }
    }
  }

  /** Deleting the ruby bars keeps RubyFree. */
  lemma {:induction false} RemoveBarsKeepsRubyFree(s: string, inside: bool)
    requires RubyFree(s, inside)
    ensures RubyFree(RemoveBars(s), inside)
  {
    if s != [] {
      var next := s[0] != '\n' && (inside || s[0] == RubyOpen);
      RemoveBarsKeepsRubyFree(s[1..], next);
      if s[0] == RubyBar {
        assert RemoveBars(s) == RemoveBars(s[1..]);
      } else {
        assert RemoveBars(s) == [s[0]] + RemoveBars(s[1..]);
        RubyFreeCons(s[0], RemoveBars(s[1..]), inside);
      }
    }
  }

  /** Every piece of a RubyFree text is RubyFree. */
  lemma {:induction false} SplitRubyFree(s: string)
    requires RubyFree(s, false)
    ensures forall i :: 0 <= i < |Split(s, IsLineBoundary)| ==> RubyFree(Split(s, IsLineBoundary)[i], false)
    decreases |s|
  {
    var k := FirstWhere(s, IsLineBoundary);
    if k < |s| {
      RubyFreePrefix(s, k, false);
      RubyFreeSuffix(s, k + 1, false);
      SplitRubyFree(s[k + 1..]);
    }
  }

  lemma {:induction false} TidyRubyFree(pieces: seq<string>)
    requires forall i :: 0 <= i < |pieces| ==> RubyFree(pieces[i], false)
    ensures forall i :: 0 <= i < |Tidy(pieces)| ==> RubyFree(Tidy(pieces)[i], false)
  {
    if pieces != [] {
      TidyRubyFree(pieces[1..]);
      var head, tail := TidyOne(pieces[0]), Tidy(pieces[1..]);
      TidyOneRubyFree(pieces[0]);
      AllOfConcat(head, tail, l => RubyFree(l, false));
    }
  }

  lemma {:induction false} TidyOneRubyFree(p: string)
    requires RubyFree(p, false)
    ensures forall i :: 0 <= i < |TidyOne(p)| ==> RubyFree(TidyOne(p)[i], false)
  {
    var o := LeadingCount(p, IsWhitespace);
    RubyFreeInfix(p, o, o + |Strip(p, IsWhitespace)|);
  }

  /** On one line, RubyFree means what it says: no `《` is followed by a `》`. */
  lemma {:induction false} RubyFreeLine(line: string, inside: bool)
    requires RubyFree(line, inside) && NoBoundary(line)
    ensures inside ==> forall j :: 0 <= j < |line| ==> line[j] != RubyClose
    ensures forall i, j :: 0 <= i < j < |line| ==> !(line[i] == RubyOpen && line[j] == RubyClose)
  {
    if line != [] {
      RubyFreeLine(line[1..], inside || line[0] == RubyOpen);
      assert forall j :: 1 <= j < |line| ==> line[j] == line[1..][j - 1];
    }
  }

  /** No line of the cleaned text holds a `《` followed by a `》`. */
  lemma {:induction false} CleanLinesRubyFree(text: string)
    ensures forall l, i, j :: 0 <= l < |CleanLines(text)| && 0 <= i < j < |CleanLines(text)[l]| ==>
      !(CleanLines(text)[l][i] == RubyOpen && CleanLines(text)[l][j] == RubyClose)
  {
    var s1 := StripRuby(text);
    StripRubyFree(text);
    var s2 := StripNotes(s1);
    StripNotesKeepsRubyFree(s1, false);
    var s3 := RemoveBars(s2);
    RemoveBarsKeepsRubyFree(s2, false);
    SplitRubyFree(s3);
    TidyRubyFree(Split(s3, IsLineBoundary));
    CleanLinesShape(text);
    var lines := CleanLines(text);
    forall l | 0 <= l < |lines| ensures forall i, j :: 0 <= i < j < |lines[l]| ==> !(lines[l][i] == RubyOpen && lines[l][j] == RubyClose) {
      RubyFreeLine(lines[l], false);
    }
  }

  /** A single line splits into itself. */
  lemma {:induction false} SplitWithoutBoundary(s: string)
    requires NoBoundary(s)
    ensures Split(s, IsLineBoundary) == [s]
  {
    assert FirstWhere(s, IsLineBoundary) == |s|;
  }

  /** Text without the first character of `open` passes the substitution
      unchanged. */
  lemma {:induction false} RemoveSpansWithoutOpen(s: string, open: string, close: char)
    requires open != [] && forall k :: 0 <= k < |s| ==> s[k] != open[0]
    ensures RemoveSpans(s, open, close) == s
  {
    if s != [] {
      RemoveSpansWithoutOpen(s[1..], open, close);
    }
  }

  /** Text without the first character of `open` is kept, and the scan goes
      on after it. */
  lemma {:induction false} RemoveSpansPlainPrefix(a: string, b: string, open: string, close: char)
    requires open != [] && forall k :: 0 <= k < |a| ==> a[k] != open[0]
    ensures RemoveSpans(a + b, open, close) == a + RemoveSpans(b, open, close)
  {
    if a != [] {
      var s := a + b;
      assert s[0] == a[0] && s[1..] == a[1..] + b;
      if |open| <= |s| {
        assert s[..|open|][0] == s[0] != open[0];
      }
      calc {
        RemoveSpans(a + b, open, close);
        [a[0]] + RemoveSpans(a[1..] + b, open, close);
        { RemoveSpansPlainPrefix(a[1..], b, open, close); }
        [a[0]] + (a[1..] + RemoveSpans(b, open, close));
        { assert a == [a[0]] + a[1..]; }
        a + RemoveSpans(b, open, close);
      }
    } else {
      assert a + b == b;
    }
  }

  /** A complete match, from `open` to the first `close` with no line feed in
      between, is deleted whole, and the scan resumes right after it. */
  lemma {:induction false} RemoveSpansMatch(m: string, b: string, open: string, close: char)
    requires close !in m && '\n' !in m
    ensures RemoveSpans(open + m + [close] + b, open, close) == RemoveSpans(b, open, close)
  {
    var s := open + m + [close] + b;
    assert s[..|open|] == open;
    assert s[|open|..] == m + [close] + b;
    CloseAtAfter(m, b, close);
    assert s[|open| + |m| + 1..] == b;
  }

  /** A character that does not start a complete match is kept, and the scan
      goes on after it. Together with RemoveSpansMatch this determines the
      substitution on every text. */
  lemma {:induction false} RemoveSpansKeepsUnmatched(c: char, b: string, open: string, close: char)
    requires !(StartsWith([c] + b, open) && CloseAt(([c] + b)[|open|..], close).Some?)
    ensures RemoveSpans([c] + b, open, close) == [c] + RemoveSpans(b, open, close)
  {
    assert ([c] + b)[0] == c && ([c] + b)[1..] == b;
  }

  lemma {:induction false} CloseAtAfter(m: string, b: string, close: char)
    requires close !in m && '\n' !in m
    ensures CloseAt(m + [close] + b, close) == Some(|m|)
  {
    var s := m + [close] + b;
    if m == [] {
      assert s[0] == close;
    } else {
      assert s[0] == m[0] && s[1..] == m[1..] + [close] + b;
      CloseAtAfter(m[1..], b, close);
    }
  }

  /** A trimmed single line is its own cleaned line. */
  lemma {:induction false} SingleLineTidy(line: string)
    requires Trimmed(line) && NoBoundary(line)
    ensures TidyLines(line) == [line]
  {
    SplitWithoutBoundary(line);
    TidyKeepsTidy([line]);
  }

  /** The ruby bar is deleted after the editorial notes are, so deleting it can
      join the pieces of a note: `［｜＃` followed by a plain note body and `］`
      cleans to the note `［＃…］`; with an empty body, `［｜＃］` gives `［＃］`. */
  lemma {:induction false} BarDeletionRebuildsNote(body: string)
    requires NoBoundary(body)
    requires forall k :: 0 <= k < |body| ==> body[k] != RubyOpen && body[k] != NoteOpen[0] && body[k] != RubyBar
    ensures CleanText([NoteOpen[0], RubyBar, NoteOpen[1]] + body + [NoteClose]) == NoteOpen + body + [NoteClose]
  {
    var note := NoteOpen + body + [NoteClose];
    NoteSubstitutions(body);
    assert Trimmed(note);
    assert NoBoundary(note);
    SingleLineTidy(note);
  }

  /** Notes do not nest: in `［［＃x］＃y］` the match starting at the inner
      `［＃` ends at the first `］`, which leaves the note `［＃y］` behind. */
  lemma {:induction false} NestedNoteSurvives()
    ensures StripNotes("\U{FF3B}\U{FF3B}\U{FF03}x\U{FF3D}\U{FF03}y\U{FF3D}") == "\U{FF3B}\U{FF03}y\U{FF3D}"
  {
    var s := "\U{FF3B}\U{FF3B}\U{FF03}x\U{FF3D}\U{FF03}y\U{FF3D}";
    var rest := "\U{FF03}y\U{FF3D}";
    assert !StartsWith(s, NoteOpen) by { assert s[..2][1] != NoteOpen[1]; }
    assert StartsWith(s[1..], NoteOpen) by { assert s[1..][..2] == NoteOpen; }
    assert CloseAt(s[1..][2..], NoteClose) == Some(1) by {
      assert s[1..][2..] == "x\U{FF3D}" + rest;
      assert ("x\U{FF3D}" + rest)[1..] == "\U{FF3D}" + rest;
    }
    assert s[1..][4..] == rest;
    RemoveSpansWithoutOpen(rest, NoteOpen, NoteClose);
  }

  lemma {:induction false} NoteSubstitutions(body: string)
    requires forall k :: 0 <= k < |body| ==> body[k] != RubyOpen && body[k] != NoteOpen[0] && body[k] != RubyBar
    ensures var text := [NoteOpen[0], RubyBar, NoteOpen[1]] + body + [NoteClose];
      RemoveBars(StripNotes(StripRuby(text))) == NoteOpen + body + [NoteClose]
  {
    var text := [NoteOpen[0], RubyBar, NoteOpen[1]] + body + [NoteClose];
    NoteWithBarKeptByRuby(text, body);
    NoteWithBarKeptByNotes(text, body);
    NoteWithBarLosesBar(text, body);
  }

  lemma {:induction false} NoteWithBarKeptByRuby(text: string, body: string)
    requires forall k :: 0 <= k < |body| ==> body[k] != RubyOpen
    requires text == [NoteOpen[0], RubyBar, NoteOpen[1]] + body + [NoteClose]
    ensures StripRuby(text) == text
  {
    forall k | 0 <= k < |text| ensures text[k] != RubyOpen {
      if 3 <= k < |text| - 1 {
        assert text[k] == body[k - 3];
      }
    }
    RemoveSpansWithoutOpen(text, [RubyOpen], RubyClose);
  }

  lemma {:induction false} NoteWithBarKeptByNotes(text: string, body: string)
    requires forall k :: 0 <= k < |body| ==> body[k] != NoteOpen[0]
    requires text == [NoteOpen[0], RubyBar, NoteOpen[1]] + body + [NoteClose]
    ensures StripNotes(text) == text
  {
    assert text[1] != NoteOpen[1];
    assert !StartsWith(text, NoteOpen);
    var tail := text[1..];
    forall k | 0 <= k < |tail| ensures tail[k] != NoteOpen[0] {
      if 2 <= k < |tail| - 1 {
        assert tail[k] == body[k - 2];
      }
    }
    RemoveSpansWithoutOpen(tail, NoteOpen, NoteClose);
  }

  lemma {:induction false} NoteWithBarLosesBar(text: string, body: string)
    requires forall k :: 0 <= k < |body| ==> body[k] != RubyBar
    requires text == [NoteOpen[0], RubyBar, NoteOpen[1]] + body + [NoteClose]
    ensures RemoveBars(text) == NoteOpen + body + [NoteClose]
  {
    var rest := [NoteOpen[1]] + body + [NoteClose];
    NoteTailBarFree(body);
    DropBarAfter(NoteOpen[0], rest);
    assert text == [NoteOpen[0], RubyBar] + rest;
    assert NoteOpen + body + [NoteClose] == [NoteOpen[0]] + rest;
  }

  lemma {:induction false} DropBarAfter(c: char, rest: string)
    requires c != RubyBar && RubyBar !in rest
    ensures RemoveBars([c, RubyBar] + rest) == [c] + rest
  {
    var s := [c, RubyBar] + rest;
    assert s[0] == c && s[1..] == [RubyBar] + rest;
    assert ([RubyBar] + rest)[0] == RubyBar && ([RubyBar] + rest)[1..] == rest;
    assert ReplaceChar(rest, RubyBar, "") == rest;
    assert ReplaceChar([RubyBar] + rest, RubyBar, "") == rest;
    assert ReplaceChar(s, RubyBar, "") == [c] + ReplaceChar([RubyBar] + rest, RubyBar, "");
  }

  lemma {:induction false} NoteTailBarFree(body: string)
    requires forall k :: 0 <= k < |body| ==> body[k] != RubyBar
    ensures RubyBar !in [NoteOpen[1]] + body + [NoteClose]
  {
    var rest := [NoteOpen[1]] + body + [NoteClose];
    forall k | 0 <= k < |rest| ensures rest[k] != RubyBar {
      if 1 <= k < |rest| - 1 {
        assert rest[k] == body[k - 1];
      }
    }
  }

  // ---------------------------------------------------------------------------
  // From the card page to the text

  /** `"files/" in href and ".html" in href`, for a link that has an `href`. */
  predicate IsTextLink(l: Link)
  {
    l.href.Some? && Contains(l.href.value, "files/") && Contains(l.href.value, ".html")
  }

  /** The position of the first link to an HTML file, in document order, or
      the number of links when there is none. */
  function FirstTextLink(links: seq<Link>): (k: nat)
    ensures k <= |links|
    ensures k < |links| ==> IsTextLink(links[k])
    ensures forall j :: 0 <= j < k ==> !IsTextLink(links[j])
  {
    if links == [] then 0
    else if IsTextLink(links[0]) then 0
    else 1 + FirstTextLink(links[1..])
  }

  /** What `get_text_url_from_card` returns when fetching the card page gave
      `page`. The status is not looked at: a page that says 404 is searched
      like any other. */
  function TextUrlOf(cardUrl: string, page: Response, join: UrlJoin): Option<string>
  {
    match page
    case Unreachable => None
    case Response(_, links, _, _) =>
      var k := FirstTextLink(links);
      if k < |links| then Some(join(cardUrl, links[k].href.value)) else None
  }

  /** The first link to an HTML file wins. */
  lemma {:induction false} TextUrlOfFirstMatch(cardUrl: string, page: Response, join: UrlJoin, i: nat)
    requires page.Response? && i < |page.links| && IsTextLink(page.links[i])
    requires forall j :: 0 <= j < i ==> !IsTextLink(page.links[j])
    ensures TextUrlOf(cardUrl, page, join) == Some(join(cardUrl, page.links[i].href.value))
  {
  }

  /** Without a link to an HTML file, or without the page, there is no URL. */
  lemma {:induction false} TextUrlOfNone(cardUrl: string, page: Response, join: UrlJoin)
    ensures TextUrlOf(cardUrl, page, join) == None <==>
      page.Unreachable? || forall j :: 0 <= j < |page.links| ==> !IsTextLink(page.links[j])
  {
    if page.Response? {
      var k := FirstTextLink(page.links);
      if k < |page.links| {
        assert IsTextLink(page.links[k]);
      }
    }
  }

  /** `get_text_url_from_card`: the loop over the card page's links returns at
      the first match. */
  method GetTextUrlFromCard(cardUrl: string, fetch: Fetcher, join: UrlJoin) returns (url: Option<string>)
    ensures url == TextUrlOf(cardUrl, fetch(cardUrl), join)
  {
    var page := fetch(cardUrl);
    if page.Unreachable? {
      return None;
    }
    var links := page.links;
    for i := 0 to |links|
      invariant forall j :: 0 <= j < i ==> !IsTextLink(links[j])
    {
      if IsTextLink(links[i]) {
        TextUrlOfFirstMatch(cardUrl, page, join, i);
        return Some(join(cardUrl, links[i].href.value));
      }
    }
    TextUrlOfNone(cardUrl, page, join);
    return None;
  }

  /** The text taken from a text page: that of `div.main_text` when the page
      has one, that of `body` otherwise. */
  function PageText(page: Response): Option<string>
  {
    match page
    case Unreachable => None
    case Response(_, _, mainText, body) => if mainText.Some? then mainText else body
  }

  /** What `extract_text_from_work` returns for the card page at `workUrl`. */
  function ExtractedText(workUrl: string, fetch: Fetcher, join: UrlJoin): Option<string>
  {
    match TextUrlOf(workUrl, fetch(workUrl), join)
    case None => None
    case Some(url) =>
      if url == "" then None
      else match PageText(fetch(url))
        case None => None
        case Some(text) => Some(CleanText(text))
  }

  /** Whatever text is extracted is a cleaned text. */
  lemma {:induction false} ExtractedTextIsClean(workUrl: string, fetch: Fetcher, join: UrlJoin)
    requires ExtractedText(workUrl, fetch, join).Some?
    ensures exists raw :: ExtractedText(workUrl, fetch, join).value == CleanText(raw)
  {
    var url := TextUrlOf(workUrl, fetch(workUrl), join).value;
    var raw := PageText(fetch(url)).value;
    assert ExtractedText(workUrl, fetch, join).value == CleanText(raw);
  }

  /** `extract_text_from_work`: find the text URL, fetch the text page, clean
      its text. A missing URL (None or empty), an unreachable page or a page
      with neither element gives None. */
  method ExtractTextFromWork(workUrl: string, fetch: Fetcher, join: UrlJoin) returns (text: Option<string>)
    ensures text == ExtractedText(workUrl, fetch, join)
  {
    var url := GetTextUrlFromCard(workUrl, fetch, join);
    if url.None? || url.value == "" {
      return None;
    }
    var page := fetch(url.value);
    var mainText := PageText(page);
    if mainText.None? {
      return None;
    }
    text := Some(CleanText(mainText.value));
  }
}
