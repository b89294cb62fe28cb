# Aozora Bunko summary site: the verified core

The repository's two scripts build a small static site of literary summaries.

- `generator.py` is a scraper. It reads the Aozora Bunko author index and probes author pages in four windows of the roster until it has five valid authors. For each author it keeps the first three works, follows each work's card page to the HTML text, and cleans that text. Texts of at least 100 characters are summarised, and an author page lists the works kept.
- `generator_v2.py` renders pages from the stored summaries. It derives file names with `sanitize_filename`, builds the index-page cards (an 80-character excerpt) and the totals of works, authors and genres, and groups the works by author, with keys sorted.

This project models the string and list logic of both scripts in Dafny and proves what that logic promises.

Modules, one per concern:

- `Sequences` and `Strings` hold shared helpers.
  - `Strings` has substring search, `str.replace` for one character, `str.strip`, `str.splitlines`, `"\n".join` and Python's `<` on strings.
  - Whitespace is the exact set of code points for which `str.isspace()` holds, and line boundaries are the set at which `str.splitlines()` breaks.
- `Filenames` models `sanitize_filename`.
- `SiteIndex` models the data parts of `generate_index` and `generate_author_index`.
- `Summaries` models `summarize_text`.
- `Web` is what the scraper sees of a page.
  - A page is either `Unreachable`, meaning the request raised, or a response: its status, its links as (text, optional `href`) pairs in document order, and the text of its main-text region and of its body.
  - Fetching is a parameter `fetch: string -> Response`; `urljoin` is a parameter `join`.
- `Extraction` models `get_text_url_from_card` and `extract_text_from_work`, including the cleaning block.
- `Rosters` models `get_author_list` and `get_works_from_author`.
- `Pipeline` models `test_author_page` and `main`: selecting authors, limiting works, skipping short texts, and building the author pages.

The loops of the source are methods with loop invariants. Most methods are proved equal to a specification function, and the properties are proved as lemmas about those functions. `GenerateAuthorIndex` is instead proved to meet the predicate `IsAuthorIndex`, and `TestAuthorPage` is proved to return what its contract states about the page. The methods are:

- `GenerateIndex` and `GroupByAuthor`, `GenerateAuthorIndex` in `generate_author_index`;
- `GetAuthorList`;
- `GetWorksFromAuthor`, with `DropRepeats` for the `seen`-set loop;
- `GetTextUrlFromCard` and `ExtractTextFromWork`;
- `TestAuthorPage`;
- `SelectAuthors`, with `ScanWindow` for the inner loop and its two `break`s;
- `AuthorPageFor`, `BuildPages` and `Scrape` in `main`.

Some behaviour of the code is easy to misread:

- `sanitize_filename` deletes the characters `\ / : * ? " < > |` and the ASCII parentheses. Only ASCII and full-width spaces become `_`. The variant that replaces with `_` and cuts at 200 characters sits inside a string literal in bk/setup_database.py and never runs.
- The author roster is not de-duplicated. Its URLs are cut at the first `#`, so two links that differ only in their fragment give two equal entries.
- The work roster is de-duplicated on the exact (title, URL) pair. Its URLs keep their fragments.
- The sample rows of bk/setup_database.py list 太宰治 twice. `SiteIndex.SharedAuthorLowersTotal` shows that such data makes `total_authors` smaller than `total_works`, so that sample gives four authors, not five.
- Deleting `｜` after the `［＃…］` notes are removed can rebuild a note. `［｜＃` followed by a plain body and `］` cleans to `［＃…］` (`Extraction.BarDeletionRebuildsNote`). Notes also do not nest: in `［［＃x］＃y］` the match from the inner `［＃` stops at the first `］`, which leaves `［＃y］` (`Extraction.NestedNoteSurvives`). Bracketed notes can therefore survive cleaning. No single line keeps a `《` followed by a `》` (`Extraction.CleanLinesRubyFree`).
- Line 370 replaces the two characters backslash and `n`, not a line feed. The literal `'\\n'` is not a raw string. The model does the same.

## Model

| member | source | states |
|---|---|---|
| Filenames.SubstitutedIsChain | generator_v2.py:324-325 | The character-by-character view equals the chain as written: delete `\ / : * ? " < > \|`, delete `(` and `)`, turn space into `_`, turn U+3000 into `_`, in that order |
| Filenames.RemoveForbidden | generator_v2.py:324 | The deletion of `\ / : * ? " < > \|`, done character by character. `SubstitutedIsChain` proves it is the chain's first step |
| Filenames.SubstitutionChain | generator_v2.py:324-325 | The five steps in their written order: the regular-expression deletion, the deletions of `(` and `)`, and the two replacements by `_`. `SubstitutedIsChain` and `ChainAppend` prove what it does |
| Filenames.ChainAppend | generator_v2.py:324-325 | The chain of a concatenation is the concatenation of the chains, because every step works character by character |
| Filenames.Substituted | generator_v2.py:324-325 | The substituted text holds no character that the chain removes or replaces. A text with none of them is unchanged. A text made only of such characters and underscores becomes underscores only |
| Filenames.CollapseUnderscores | generator_v2.py:326 | `re.sub(r'_+', '_', ...)` leaves no two adjacent underscores. The result is empty exactly when the input is, and it keeps the first character |
| Filenames.CollapseKeeps | generator_v2.py:326 | The collapse brings in no new character and deletes only underscores: with the underscores taken out, the text before and after is the same, in order. A text without `__` comes back unchanged. `CollapseRun` proves that shortening a run by one underscore does not change the result |
| Filenames.CollapseRun | generator_v2.py:326 | Two adjacent underscores and one underscore collapse alike, wherever they stand, so a run of any length collapses like a single `_` |
| Filenames.NonUnderscores | generator_v2.py:326 | The text with its underscores deleted holds no underscore and only characters of the text. `CollapseKeeps` uses it to state what the collapse keeps |
| Filenames.Normalized | generator_v2.py:324-326 | The title after the chain, the collapse and `.strip('_')`, before the cut. `NormalizedShape` proves its shape |
| Filenames.NormalizedShape | generator_v2.py:324-326 | After substitution, collapse and `.strip('_')`, the text holds no unsafe character and no `__`, and has no `_` at either end |
| Filenames.SanitizeFilename | generator_v2.py:323-328 | The file name is never empty and has at most 100 characters. It holds none of `\ / : * ? " < > \| ( )`, space or U+3000, never holds `__`, and never starts with `_`. It ends with `_` only when the normalised title was longer than 100 characters, so the cut made that underscore last |
| Filenames.FallbackExactly | generator_v2.py:326-328 | The result is `"untitled"` exactly when the normalised title is empty or is itself `"untitled"` |
| Filenames.BlankTitleGivesFallback | generator_v2.py:324-328 | A title made only of underscores, spaces, parentheses and forbidden characters gives `"untitled"` |
| Filenames.CleanTitleUnchanged | generator_v2.py:323-328 | A title of 1 to 100 characters with no special character, no `__` and no `_` at either end is returned unchanged |
| Filenames.MelosUnchanged | generator_v2.py:323-328 | `走れメロス` is returned unchanged |
| Filenames.SanitizeShortNormalized | generator_v2.py:328 | A non-empty normalised title of at most 100 characters is the file name itself |
| Filenames.NormalizedDropsTrailingUnderscore | generator_v2.py:326 | A safe name without `__` that ends in `_` normalises to itself minus that underscore |
| Filenames.IdempotentUnlessCutAtUnderscore | generator_v2.py:323-328 | Sanitising a sanitised name changes nothing unless it ends in `_` |
| Filenames.NotIdempotentAfterCutAtUnderscore | generator_v2.py:323-328 | When the cut leaves a trailing `_`, a second pass removes it, so the sanitiser is not idempotent |
| SiteIndex.ReplaceBackslashN | generator_v2.py:370 | After `.replace('\\n', ' ')` no backslash is followed by `n`. A text without that pair is unchanged, the text gets no longer, and a non-empty text keeps its first character or gets a space there. `ReplaceLeftmost` and `ReplaceAppend` prove where the replacements fall |
| SiteIndex.ReplaceLeftmost | generator_v2.py:370 | `str.replace` works from the left without overlaps: the text before the first backslash-n is kept, that pair becomes one space, and the replacement goes on after it |
| SiteIndex.ReplaceAppend | generator_v2.py:370 | Cut where no backslash-n pair is split, the text is replaced piece by piece |
| SiteIndex.ExcerptShape | generator_v2.py:370 | The excerpt always ends in `"..."`, has 3 to 83 characters, and holds no backslash-n before the ellipsis |
| SiteIndex.ExcerptOfPlainSummary | generator_v2.py:370 | When the first 80 characters hold no backslash-n, the excerpt is exactly those 80 characters (or fewer) followed by `"..."` |
| SiteIndex.Excerpt | generator_v2.py:370 | The first 80 characters of the summary, with the replacement applied, followed by `"..."`. `ExcerptShape` and `ExcerptOfPlainSummary` prove what it gives |
| SiteIndex.PageName | generator_v2.py:377 | A work's page is its sanitised title followed by `.html`, whose properties `Filenames.SanitizeFilename` states |
| SiteIndex.AuthorEntryOf | generator_v2.py:402-407 | One author-page entry holds the work's title, year, genre and page name. `WorksBySnoc` and `GroupByAuthor` prove which list it is appended to |
| SiteIndex.IndexEntryOf | generator_v2.py:371-378 | One card holds the work's title, author, year and genre, its excerpt and its page name. `IndexEntriesAt` proves card `i` is that of work `i` |
| SiteIndex.AuthorSet | generator_v2.py:380 | `set(w['author'] for w in works)`. `AuthorsAreElements` and `TotalsBounds` relate its size to the listed authors |
| SiteIndex.GenreSet | generator_v2.py:381 | `set(w.get('genre') for w in works if w.get('genre'))`, keeping present, non-empty genres only. `GenresAreElements` and `TotalsBounds` prove what its size is |
| SiteIndex.AuthorsOf | generator_v2.py:380 | The author of each work, position by position |
| SiteIndex.GenresOf | generator_v2.py:381 | A genre is listed exactly when some work has it as a present, non-empty genre |
| SiteIndex.IndexEntriesOf | generator_v2.py:368-378 | There is one index card per work |
| SiteIndex.IndexEntriesAt | generator_v2.py:369-378 | Card `i` is built from work `i`: title, author, year, genre, excerpt and page name |
| SiteIndex.GenerateIndex | generator_v2.py:367-388 | The loop's cards are the cards of the works, in order. The totals are the number of works, the number of distinct authors, and the number of distinct non-empty genres |
| SiteIndex.TotalsBounds | generator_v2.py:380-388 | Neither the author total nor the genre total exceeds the work total. A non-empty list has at least one author. The author total equals the work total exactly when no author repeats. The genre total is 0 exactly when no work has a genre |
| SiteIndex.AuthorsAreElements | generator_v2.py:380 | `set(w['author'] for w in works)` is the set of the works' authors |
| SiteIndex.GenresAreElements | generator_v2.py:381 | The genre set is the set of the present, non-empty genres |
| SiteIndex.SharedAuthorLowersTotal | generator_v2.py:380-387 | Two works by one author make `total_authors` smaller than `total_works` |
| SiteIndex.WorksBySnoc | generator_v2.py:398-407 | One more work adds its entry to its own author's list only |
| SiteIndex.WorksBy | generator_v2.py:398-407 | An author's list holds the entries of that author's works in input order. `WorksBySnoc` proves how one more work changes it, and `GroupByAuthor` proves the dictionary holds it |
| SiteIndex.GroupStep | generator_v2.py:398-407 | One turn of the loop keeps the invariant: the dictionary's keys are the authors seen so far, listed once each in insertion order, and each maps to its works in input order |
| SiteIndex.GroupByAuthor | generator_v2.py:397-407 | `authors_dict` filled in place maps exactly the works' authors to their works' entries, in input order. The insertion order lists each author once |
| SiteIndex.Insert | generator_v2.py:410 | Inserting a new key into ascending keys keeps them ascending and adds exactly that key |
| SiteIndex.SortKeys | generator_v2.py:410 | `sorted` on the distinct keys gives the same keys in strictly ascending order |
| SiteIndex.KeysOf | generator_v2.py:410 | The sections' authors, in section order. `IsAuthorIndex` requires them to be strictly ascending and to be the works' authors |
| SiteIndex.GenerateAuthorIndex | generator_v2.py:396-410 | The sections' authors are strictly ascending and are exactly the works' authors. Each section holds that author's works in input order |
| SiteIndex.SectionsMatchAuthorTotal | generator_v2.py:396-410 | There is one section per distinct author, every work's author has a section, and no author has two |
| SiteIndex.GroupSizesAddUp | generator_v2.py:396-410 | The sections' sizes add up to the number of works: every work is listed exactly once, under its own author |
| Summaries.CollapseShape | generator.py:160 | After `.replace("\r", "").replace("\n", " ")` the text holds no CR or LF and is no longer than before |
| Summaries.Collapse | generator.py:160 | `.replace("\r", "")` and then `.replace("\n", " ")`, in that order. `CollapseShape`, `CollapseWithoutCarriageReturn` and `CollapseIdentity` prove what it gives |
| Summaries.CollapseWithoutCarriageReturn | generator.py:160 | Without CR, the collapse keeps every position and turns each LF into a space |
| Summaries.CollapseIdentity | generator.py:160 | A text without CR or LF is unchanged |
| Summaries.Summarize | generator.py:158-163 | The summary holds no CR or LF and has at most 503 characters |
| Summaries.LongTextIsCut | generator.py:161-162 | A collapsed text longer than 500 characters gives its first 500 characters followed by `"..."` |
| Summaries.ShortTextIsKept | generator.py:161-163 | A collapsed text of at most 500 characters is returned as it is |
| Summaries.SummaryLengthWithoutCarriageReturn | generator.py:160-163 | A text without CR keeps its length up to 500 characters and otherwise gives 503 |
| Summaries.ShortPlainTextUnchanged | generator.py:158-163 | A text without CR or LF of at most 500 characters is its own summary |
| Summaries.SummarizeIdempotent | generator.py:158-163 | Summarising a summary changes nothing |
| Extraction.CloseAt | generator.py:144-145 | The non-greedy match stops at the first closing bracket, provided no line feed comes before it. There is no match exactly when every closing bracket has a line feed before it |
| Extraction.RemoveSpans | generator.py:144-145 | The left-to-right substitution never lengthens the text. `RemoveSpansPlainPrefix`, `RemoveSpansMatch` and `RemoveSpansKeepsUnmatched` fix which text it keeps and which it deletes |
| Extraction.RemoveSpansPlainPrefix | generator.py:144-145 | Text holding no first character of the opening marker is kept as it is, and the substitution goes on after it |
| Extraction.RemoveSpansMatch | generator.py:144-145 | The opening marker, then text with no closing bracket and no line feed, then the closing bracket: that whole span is deleted and the substitution goes on after it |
| Extraction.RemoveSpansKeepsUnmatched | generator.py:144-145 | Where no match begins, the character is kept and the substitution goes on at the next one |
| Extraction.CloseAtAfter | generator.py:144-145 | Text with no closing bracket and no line feed before a closing bracket: the non-greedy match ends at that bracket |
| Extraction.RemoveBars | generator.py:146 | No `｜` is left |
| Extraction.StripRuby | generator.py:144 | `re.sub(r'《.*?》', '', text)` as the span removal from `《` to the first `》` on the line. `StripRubyFree` proves no such pair is left. `RemoveSpansPlainPrefix`, `RemoveSpansMatch` and `RemoveSpansKeepsUnmatched` fix what is kept and what is deleted |
| Extraction.StripNotes | generator.py:145 | `re.sub(r'［＃.*?］', '', text)` as the span removal from `［＃` to the first `］` on the line. `RemoveSpansPlainPrefix` keeps text without `［`, `RemoveSpansMatch` deletes each `［＃…］` up to the first `］` on its line, and `RemoveSpansKeepsUnmatched` keeps a `［` that starts no match. `StripNotesKeepsRubyFree` and `NestedNoteSurvives` prove what it keeps |
| Extraction.NestedNoteSurvives | generator.py:145 | `［［＃x］＃y］` becomes `［＃y］`: the match from the inner `［＃` stops at the first `］` and leaves a note behind |
| Extraction.TidyOne | generator.py:148 | A line gives nothing exactly when it is all whitespace, and otherwise its stripped form, which is trimmed |
| Extraction.Tidy | generator.py:148 | The comprehension never gives more lines than it is given. `TidyTrimmed`, `TidyAppend` and `TidyKeepsTidy` prove which lines it keeps |
| Extraction.TidyLines | generator.py:148 | `splitlines` followed by the comprehension. `CleanLinesShape` and `CleanTextLinesStable` prove what it gives |
| Extraction.TidyTrimmed | generator.py:148 | Every kept line is non-empty and starts and ends with a non-whitespace character |
| Extraction.TidyAppend | generator.py:148 | The comprehension works line by line: the kept lines of two halves, in order |
| Extraction.TidyKeepsTidy | generator.py:148 | Trimmed lines are kept unchanged and in order |
| Extraction.CleanLinesShape | generator.py:143-149 | Every line of the cleaned text is non-empty, trimmed and holds no line boundary |
| Extraction.CleanLines | generator.py:143-148 | The three substitutions in their order, then the line split and the comprehension. `CleanLinesShape` and `CleanLinesRubyFree` prove its lines' shape |
| Extraction.CleanText | generator.py:143-149 | The cleaned lines joined by `\n`. `CleanTextNoCarriageReturn`, `CleanTextHasNoBar` and `CleanTextLinesStable` prove what it holds |
| Extraction.CleanTextNoCarriageReturn | generator.py:143-149 | The cleaned text holds no CR |
| Extraction.SplitJoin | generator.py:148-149 | Lines without boundaries joined by `\n` split back into the same lines |
| Extraction.CleanTextLinesStable | generator.py:148-149 | Splitting and tidying the cleaned text again gives back its lines, so they are joined by single line feeds |
| Extraction.CleanTextHasNoBar | generator.py:146-149 | The cleaned text holds no `｜` |
| Extraction.CleanLinesRubyFree | generator.py:144-149 | No line of the cleaned text holds a `《` followed later by a `》` |
| Extraction.StripRubyFree | generator.py:144 | After the ruby substitution no `《` is followed on its line by a `》` |
| Extraction.StripNotesKeepsRubyFree | generator.py:145 | The note substitution, which only deletes, keeps that property |
| Extraction.RemoveBarsKeepsRubyFree | generator.py:146 | Deleting `｜` keeps that property |
| Extraction.BarDeletionRebuildsNote | generator.py:144-149 | `［｜＃` followed by a plain single-line body and `］` cleans to the note `［＃…］` |
| Extraction.FirstTextLink | generator.py:110-112 | The position found is the first link whose `href` holds both `files/` and `.html`, or the number of links when there is none |
| Extraction.IsTextLink | generator.py:110-112 | A link qualifies when it has an `href` holding both `files/` and `.html` |
| Extraction.TextUrlOf | generator.py:102-118 | What the function returns for a fetched card page. `TextUrlOfFirstMatch` and `TextUrlOfNone` prove when it is a URL and which one |
| Extraction.TextUrlOfFirstMatch | generator.py:110-113 | The URL is the join of the card URL with the first qualifying `href` in document order |
| Extraction.TextUrlOfNone | generator.py:104-118 | There is no URL exactly when the card page cannot be fetched or no link qualifies |
| Extraction.GetTextUrlFromCard | generator.py:102-118 | The loop with its early return gives the first-match URL, or None |
| Web.Href | generator.py:111 | `a.get("href", "")`: the `href`, or the empty string when there is none |
| Extraction.ExtractedTextIsClean | generator.py:120-152 | Whatever text is extracted is the cleaning of some page text |
| Extraction.PageText | generator.py:135-140 | The text of `div.main_text` when the page has one, otherwise that of `body`, and none when the page has neither or could not be fetched |
| Extraction.ExtractedText | generator.py:120-156 | What `extract_text_from_work` returns. `ExtractedTextIsClean` and `ExtractTextFromWork` prove its cases |
| Extraction.ExtractTextFromWork | generator.py:120-156 | The result is None when there is no text URL, when the URL is empty, when the text page cannot be fetched, or when it has neither a main-text region nor a body. Otherwise it is the cleaned main text, falling back to the body |
| Rosters.BeforeHash | generator.py:37 | `split('#')[0]` is a prefix of the URL with no `#`, followed by `#` when something was cut |
| Rosters.BeforeHashCutsFragment | generator.py:37 | A URL without `#` is kept, and a fragment after it is cut off |
| Rosters.AuthorOf | generator.py:31-38 | Every roster URL is free of `#` |
| Rosters.AuthorRoster | generator.py:30-38 | The roster has at most one entry per link |
| Rosters.AuthorRosterMembers | generator.py:30-38 | An entry is in the roster exactly when a link with a non-empty `href` gives it. No roster URL holds `#` |
| Rosters.AuthorRosterAppend | generator.py:30-38 | The roster is built link by link, in document order, with no de-duplication |
| Rosters.AuthorRosterLength | generator.py:33-38 | Every link with a non-empty `href` gives exactly one entry |
| Rosters.HasHref | generator.py:33 | `if href:`: the link has an `href` and it is not empty |
| Rosters.AuthorList | generator.py:20-47 | What `get_author_list` returns: nothing for the uncaught failure of an unreachable index page, otherwise the roster of its links. `GetAuthorList` is proved equal to it |
| Rosters.GetAuthorList | generator.py:20-47 | The loop builds the roster of the index page's links, or reports the uncaught failure of an unreachable index page |
| Rosters.TitleOf | generator.py:80 | `link.get_text(strip=True)`, taken as the link's text stripped of whitespace |
| Rosters.IsWorkLink | generator.py:83 | `"cards" in href and title and len(title) > 1` |
| Rosters.WorkOf | generator.py:84-85 | The pair of the stripped title and the joined URL |
| Rosters.Candidates | generator.py:78-85 | There is at most one candidate per link |
| Rosters.CandidatesMembers | generator.py:78-85 | A pair is a candidate exactly when some link's `href` holds `cards`, its stripped text has more than one character, and the pair is that link's (title, joined URL) |
| Rosters.Dedupe | generator.py:88-93 | De-duplication never lengthens the list |
| Rosters.FirstIndex | generator.py:88-93 | The position found holds `x` and no earlier position does |
| Rosters.DedupeElements | generator.py:88-93 | The de-duplicated list holds every pair once, and the same pairs as its input |
| Rosters.DedupeOrder | generator.py:88-93 | The pairs come in the order of their first occurrences |
| Rosters.WorkRosterSpec | generator.py:64-100 | The work list has no repeated pair. A pair is in it exactly when the page was fetched, is not a 404, and has a qualifying link that gives the pair |
| Rosters.WorkRoster | generator.py:64-100 | What `get_works_from_author` returns for the page fetched. `WorkRosterSpec`, `DedupeElements` and `DedupeOrder` prove what it lists |
| Rosters.DropRepeats | generator.py:88-96 | The `seen`-set loop keeps each pair on its first occurrence |
| Rosters.GetWorksFromAuthor | generator.py:64-100 | The two loops give the de-duplicated candidates. An unreachable page or a 404 gives the empty list |
| Pipeline.CardsLinkCount | generator.py:59-60 | The count of card links is at most the number of links |
| Pipeline.IsCardsLink | generator.py:59 | `"cards" in a.get("href", "")` for an anchor found with `href=True` |
| Pipeline.IsValidAuthorPage | generator.py:228-230 | `test_author_page` followed by `is_valid and result > 0`. `ValidAuthorPageHasCardsLink` and `TestAuthorPage` prove what it means |
| Pipeline.ValidAuthorPageHasCardsLink | generator.py:49-62 | A page is valid exactly when it was fetched, is not a 404, and has a link whose `href` holds `cards` |
| Pipeline.TestAuthorPage | generator.py:49-62 | The result is `True` exactly for a fetched page that is not a 404, and then the count is the number of card links. `is_valid and result > 0` holds exactly for a valid page |
| Pipeline.Range | generator.py:224 | `range(lo, hi)` has `hi - lo` elements, or none |
| Sequences.Take | generator.py:256 | `s[:n]` is the prefix of `min(n, len(s))` elements |
| Pipeline.RangeMembers | generator.py:224 | `k` is in `range(lo, hi)` exactly when `lo <= k < hi` |
| Pipeline.ScanFrom | generator.py:222-224 | The positions visited by the windows from the `w`-th on, each window capped at the roster size. `ScanFromMembers` proves which positions it holds |
| Pipeline.ScanOrder | generator.py:222-224 | The positions the nested loops visit, in order. `ScanOrderMembers` and `SmallRosterScannedInOrder` prove which positions and in what order |
| Pipeline.InWindow | generator.py:215-220 | A position lies in [0,20), [50,70), [100,120) or [200,220) |
| Pipeline.ScanFromMembers | generator.py:215-224 | The windows from `w` on visit exactly the positions that lie, below the roster size, in one of them |
| Pipeline.WindowsCover | generator.py:215-220 | Some window holds `k` below the roster size exactly when `k < n` and `k` is in [0,20), [50,70), [100,120) or [200,220) |
| Pipeline.ScanOrderMembers | generator.py:215-224 | The scan visits exactly the roster positions in the four windows |
| Pipeline.SmallRosterScannedInOrder | generator.py:222-224 | A roster of at most 20 authors is scanned whole, in order |
| Pipeline.ValidAmong | generator.py:224-232 | At most one author is kept per visited position |
| Pipeline.ValidAt | generator.py:225-232 | The author at a position, kept when the position is on the roster and the author's page is valid |
| Pipeline.ValidAmongSound | generator.py:224-232 | Every author kept is from the roster and has a valid page |
| Pipeline.SelectedSpec | generator.py:222-239 | At most 5 authors are selected, each from the roster with a valid page. Fewer than 5 means every valid author met in scan order was taken |
| Pipeline.Selected | generator.py:212-239 | The first five valid authors met in scan order. `SelectedSpec` proves what they are, and `SelectAuthors` is proved equal to it |
| Pipeline.ScanStep | generator.py:224-232 | One probe decides the next position of the scan |
| Pipeline.ScanWindow | generator.py:224-236 | The inner loop with its `break` leaves at most 5 authors, and the selection still to come is the same as before the window |
| Pipeline.SelectAuthors | generator.py:212-239 | The nested loops with both `break`s select the first five valid authors in scan order |
| Pipeline.Entries | generator.py:266-281 | There is at most one entry per work |
| Pipeline.EntryFor | generator.py:266-281 | A work gives an entry when a text was extracted, has at least 100 characters and its summary was saved. `EntryForShape` proves the entry's title and summary |
| Pipeline.EntryForShape | generator.py:269-276 | A kept work's entry has the work's title and a single-line summary of 100 to 503 characters |
| Pipeline.EntriesShape | generator.py:266-281 | Every entry has a good summary and the title of one of the works |
| Pipeline.AuthorPageShape | generator.py:256-283 | An author page belongs to its author and lists 1 to 3 works, each among the first three of the author's work list and each with a good summary |
| Pipeline.AuthorPageOf | generator.py:256-283 | The page of one author: the entries of the first three works, or none when no entry is kept. `AuthorPageShape` proves its shape, and `AuthorPageFor` is proved equal to it |
| Pipeline.Pages | generator.py:252-309 | There is at most one page per selected author |
| Pipeline.PagesShape | generator.py:252-309 | Every page is that of one of the given authors, and is that author's page |
| Pipeline.SiteShape | generator.py:204-309 | A site has at most 5 author pages. Each belongs to an author with a valid page and lists 1 to 3 works with good summaries |
| Pipeline.Run | generator.py:204-309 | What `main` does: abort, stop with no valid author, or build the pages. `SiteShape` proves what a site holds, and `Scrape` is proved equal to it |
| Pipeline.AuthorPageFor | generator.py:256-283 | The per-author body keeps the first three works and skips missing texts, texts under 100 characters and works whose summary could not be saved. It gives no page when nothing is kept |
| Pipeline.BuildPages | generator.py:252-309 | The loop builds the pages of the selected authors, in order |
| Pipeline.Scrape | generator.py:204-309 | `main` aborts when the author index cannot be fetched, stops when no author is valid, and otherwise builds the site's pages |
| Strings.StripEmpty | generator.py:148 | `line.strip()` is empty exactly when every character is whitespace |
| Strings.StripUnchanged | generator.py:148 | A text that neither starts nor ends with a stripped character is kept |
| Strings.Strip | generator.py:148 | The result is empty or neither starts nor ends with a stripped character. `StripEmpty` and `StripUnchanged` prove when it is empty or unchanged |
| Strings.StripOneTrailing | generator_v2.py:326 | A text that starts with a kept character and ends in a single stripped character loses only that last character |
| Strings.IsWhitespace | generator.py:148 | The code points for which `str.isspace()` holds, which `strip()` removes |
| Strings.IsLineBoundary | generator.py:148 | The code points at which `str.splitlines()` breaks a line |
| Strings.BoundaryIsWhitespace | generator.py:148 | Every line boundary is whitespace, so `strip()` removes it too |
| Strings.Split | generator.py:148 | There is at least one piece. The pieces hold no boundary and only characters of the text. Unlike `splitlines`, it gives an empty piece after a final boundary and between `\r` and `\n`; the comprehension drops empty pieces, so `TidyLines` gives the lines of line 148 |
| Strings.Join | generator.py:149 | The joined text holds only the separator and characters of the parts |
| Strings.ReplaceChar | generator.py:160 | `str.replace` of one character: the character is gone when the replacement does not hold it, and a text without it is unchanged |
| Strings.Contains | generator.py:59 | Python's `pat in s` |
| Strings.Less | generator_v2.py:410 | Python's `<` on strings, lexicographic by code point, with a proper prefix first |
| Strings.LessIrreflexive | generator_v2.py:410 | No string is less than itself |
| Strings.LessTotal | generator_v2.py:410 | Of two different strings, one is less than the other |
| Strings.LessTransitive | generator_v2.py:410 | Python's `<` on strings is transitive (with LessIrreflexive and LessTotal it is a strict total order, which `sorted` needs) |

## Left out

- HTTP, HTML parsing and encoding detection (`requests.get`, `apparent_encoding`, BeautifulSoup) are not modelled: a page is given as its status, its links and its texts. `soup.select("ol li a")` on the author index is taken to give that page's `links`.
- `urljoin` and `quote` are library URL functions, left as an uninterpreted parameter (`join`) or not modelled (`quote` only names the author page file).
- The web is a fixed function from URL to response, so one URL fetched twice gives the same response. This is what lets the methods be proved equal to the specification functions.
- `get_text(separator="\n", strip=True)` is not modelled: a text page gives its main-text and body texts directly. `link.get_text(strip=True)` on a work link is modelled as `Strip` of the link's text, as for `link.text.strip()`.
- Exceptions other than a failed request and a failed `save_summary` are not modelled. Whether `save_summary` raises is a parameter `saves` of the page functions. When it raises, the `except` skips that work's `append`, so the work gets no entry, and an author whose three works all fail gets no page.
- The files `save_summary` writes, every other file and directory write, the HTML of the author and index pages, Jinja2 templates, `datetime.now()`, `time.sleep`, `tqdm` and `print` are I/O, clock, throttling or presentation. `generate_work_page` is only its file name, `SiteIndex.PageName`.
- SQLite access (`get_all_works`, its `ORDER BY`, bk/setup_database.py and migrate_database.py) is database I/O. `generate_index` and `generate_author_index` take the works as a sequence in any order.
- The regular expressions are modelled by what they match: a one-character pattern, and `open .*? close` with `.` not matching a line feed. Backtracking is not modelled.
- Extraction.ExtractTextFromWork: an empty main-text region still counts as found. In bs4 an element found by `find` is truthy whatever it holds.
- Strings.Less: Python compares strings by code point; the model compares `char` values, which are the same code points.
