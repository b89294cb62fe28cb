/** The scraper's summary of a text (`summarize_text` in generator.py): carriage
    returns removed, line feeds turned into spaces, then a cut to 500 characters
    with an ellipsis when the text is longer. */
module Summaries {
  import opened Strings

  const SummaryLength: nat := 500
  const Ellipsis: string := "..."

  /** `text.replace("\r", "").replace("\n", " ")`. */
  function Collapse(text: string): string
  {
    ReplaceChar(ReplaceChar(text, '\r', ""), '\n', " ")
  }

  /** The collapsed text holds no line break and is no longer than the text. */
  lemma {:induction false} CollapseShape(text: string)
    ensures var t := Collapse(text);
      '\r' !in t && '\n' !in t && |t| <= |text|
  {
    var t1 := ReplaceChar(text, '\r', "");
    ReplaceCharBounds(text, '\r', "", '\r');
    ReplaceCharBounds(t1, '\n', " ", '\r');
    ReplaceCharBounds(t1, '\n', " ", '\n');
  }

  /** On a text without carriage returns the collapse works position by
      position: every line feed becomes a space, nothing else changes. */
  lemma {:induction false} CollapseWithoutCarriageReturn(text: string)
    requires '\r' !in text
    ensures var t := Collapse(text);
      |t| == |text| && forall i :: 0 <= i < |text| ==> t[i] == if text[i] == '\n' then ' ' else text[i]
  {
    ReplaceCharPointwise(text, '\n', ' ');
  }

  /** A text without line breaks is left as it is. */
  lemma {:induction false} CollapseIdentity(text: string)
    requires '\r' !in text && '\n' !in text
    ensures Collapse(text) == text
  {
  }

  /** `summarize_text`. */
  function Summarize(text: string): (r: string)
    ensures '\r' !in r && '\n' !in r
    ensures |r| <= SummaryLength + |Ellipsis|
  {
    var t := Collapse(text);
    CollapseShape(text);
    if |t| > SummaryLength then t[..SummaryLength] + Ellipsis else t
  }

  /** A collapsed text longer than 500 characters gives its first 500
      characters followed by the ellipsis: exactly 503 characters. */
  lemma {:induction false} LongTextIsCut(text: string)
    requires |Collapse(text)| > SummaryLength
    ensures var r := Summarize(text);
      |r| == SummaryLength + |Ellipsis|
      && r[..SummaryLength] == Collapse(text)[..SummaryLength]
      && r[SummaryLength..] == Ellipsis
  {
  }

  /** A collapsed text of at most 500 characters is the summary itself. */
  lemma {:induction false} ShortTextIsKept(text: string)
    requires |Collapse(text)| <= SummaryLength
    ensures Summarize(text) == Collapse(text)
  {
  }

  /** On a text without carriage returns the summary has the text's length up
      to 500 characters, and 503 beyond. */
  lemma {:induction false} SummaryLengthWithoutCarriageReturn(text: string)
    requires '\r' !in text
    ensures |text| <= SummaryLength ==> |Summarize(text)| == |text|
    ensures |text| > SummaryLength ==> |Summarize(text)| == SummaryLength + |Ellipsis|
  {
    CollapseWithoutCarriageReturn(text);
  }

  /** A text without line breaks of at most 500 characters is its own summary. */
  lemma {:induction false} ShortPlainTextUnchanged(text: string)
    requires '\r' !in text && '\n' !in text && |text| <= SummaryLength
    ensures Summarize(text) == text
  {
    CollapseIdentity(text);
  }

  /** Summarising a summary changes nothing, long texts included: the cut
      summary is 503 characters long and its first 500 are kept again. */
  lemma {:induction false} SummarizeIdempotent(text: string)
    ensures Summarize(Summarize(text)) == Summarize(text)
  {
    var r := Summarize(text);
    CollapseIdentity(r);
    if |Collapse(text)| > SummaryLength {
      LongTextIsCut(text);
      assert r[..SummaryLength] + Ellipsis == r;
    }
  }
}
