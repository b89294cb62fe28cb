/** The main routine of the scraper (`main` in generator.py): read the author
    roster, probe author pages in four windows of the roster until five valid
    authors are found, then for each of them keep the first three works,
    extract and summarise their texts, and give an author page to every author
    with at least one work kept. Writing the pages out is not modelled: the
    outcome is the list of pages with their entries. */
module Pipeline {
  import opened Sequences
  import opened Strings
  import opened Web
  import opened Rosters
  import opened Extraction
  import opened Summaries

  const MaxAuthors: nat := 5
  const WorksPerAuthor: nat := 3
  const MinTextLength: nat := 100

  /** `test_ranges`, without their labels: half-open windows of roster positions. */
  const Windows: seq<(nat, nat)> := [(0, 20), (50, 70), (100, 120), (200, 220)]

  // ---------------------------------------------------------------------------
  // Choosing the authors

  /** `"cards" in a.get("href", "")` for an anchor found with `href=True`. */
  predicate IsCardsLink(l: Link)
  {
    l.href.Some? && Contains(l.href.value, "cards")
  }

  /** The number `test_author_page` reports for a page it could read. */
  function CardsLinkCount(links: seq<Link>): (n: nat)
    ensures n <= |links|
  {
    |FilterMap(links, IsCardsLink, l => l)|
  }

  /** `test_author_page` followed by the test of line 230: the page could be
      fetched, is not a 404, and links to at least one card page. */
  predicate IsValidAuthorPage(page: Response)
  {
    page.Response? && page.status != NotFound && CardsLinkCount(page.links) > 0
  }

  /** A page is valid exactly when it is reachable, not a 404, and has a link
      to a card page. */
  lemma {:induction false} ValidAuthorPageHasCardsLink(page: Response)
    ensures IsValidAuthorPage(page) <==>
      && page.Response? && page.status != NotFound
      && exists i :: 0 <= i < |page.links| && IsCardsLink(page.links[i])
  {
    if page.Response? {
      var cards := FilterMap(page.links, IsCardsLink, l => l);
      if cards != [] {
        FilterMapMembers(page.links, IsCardsLink, l => l, cards[0]);
      }
      if i :| 0 <= i < |page.links| && IsCardsLink(page.links[i]) {
        FilterMapMembers(page.links, IsCardsLink, l => l, page.links[i]);
      }
    }
  }

  /** `test_author_page`: whether the page could be read, and how many of its
      links point at card pages. */
  method TestAuthorPage(authorUrl: string, fetch: Fetcher) returns (isValid: bool, count: nat)
    ensures isValid <==> fetch(authorUrl).Response? && fetch(authorUrl).status != NotFound
    ensures isValid ==> count == CardsLinkCount(fetch(authorUrl).links)
    ensures isValid && count > 0 <==> IsValidAuthorPage(fetch(authorUrl))
  {
    var page := fetch(authorUrl);
    if page.Unreachable? || page.status == NotFound {
      return false, 0;
    }
    var links := page.links;
    count := 0;
    for i := 0 to |links|
      invariant count == CardsLinkCount(links[..i])
    {
      assert links[..i + 1][..i] == links[..i];
      if IsCardsLink(links[i]) {
        count := count + 1;
      }
    }
    assert links[..|links|] == links;
    isValid := true;
  }

  /** `range(lo, hi)`. */
  function Range(lo: nat, hi: int): (r: seq<nat>)
    ensures |r| == if lo < hi then hi - lo else 0
    decreases hi - lo
  {
    if hi <= lo then [] else [lo] + Range(lo + 1, hi)
  }

  /** The roster positions the windows from `w` on visit, on a roster of `n`
      authors, in visiting order. */
  function ScanFrom(n: nat, w: nat): seq<nat>
    decreases |Windows| - w
  {
    if w >= |Windows| then []
    else Range(Windows[w].0, Min(Windows[w].1, n)) + ScanFrom(n, w + 1)
  }

  function ScanOrder(n: nat): seq<nat>
  {
    ScanFrom(n, 0)
  }

  predicate InWindow(k: nat)
  {
    k < 20 || 50 <= k < 70 || 100 <= k < 120 || 200 <= k < 220
  }

  lemma {:induction false} RangeMembers(lo: nat, hi: int, k: nat)
    ensures k in Range(lo, hi) <==> lo <= k < hi
    decreases hi - lo
  {
    if lo < hi {
      RangeMembers(lo + 1, hi, k);
    }
  }

  /** The windows from `w` on visit exactly the positions of the roster that
      lie in one of them. */
  lemma {:induction false} ScanFromMembers(n: nat, w: nat, k: nat)
    ensures k in ScanFrom(n, w) <==>
      exists v :: w <= v < |Windows| && Windows[v].0 <= k < Min(Windows[v].1, n)
    decreases |Windows| - w
  {
    if w < |Windows| {
      ScanFromMembers(n, w + 1, k);
      RangeMembers(Windows[w].0, Min(Windows[w].1, n), k);
    }
  }

  /** The scan visits each position of the roster that lies in a window, and
      no other. */
  lemma {:induction false} ScanOrderMembers(n: nat, k: nat)
    ensures k in ScanOrder(n) <==> k < n && InWindow(k)
  {
    ScanFromMembers(n, 0, k);
    WindowsCover(n, k);
  }

  lemma {:induction false} WindowsCover(n: nat, k: nat)
    ensures (exists v :: 0 <= v < |Windows| && Windows[v].0 <= k < Min(Windows[v].1, n)) <==>
      k < n && InWindow(k)
  {
    if k < n && InWindow(k) {
      var v := if k < 20 then 0 else if k < 70 then 1 else if k < 120 then 2 else 3;
      assert Windows[v].0 <= k < Min(Windows[v].1, n);
    }
    if v :| 0 <= v < |Windows| && Windows[v].0 <= k < Min(Windows[v].1, n) {
      assert v == 0 || v == 1 || v == 2 || v == 3;
    }
  }

  /** A roster of at most 20 authors is scanned whole, in order. */
  lemma {:induction false} SmallRosterScannedInOrder(n: nat)
    requires n <= 20
    ensures ScanOrder(n) == Range(0, n)
  {
    assert ScanOrder(n) == Range(0, n) + Range(50, n) + Range(100, n) + Range(200, n);
  }

  /** The author at position `k` when that author's page is valid. */
  function ValidAt(all: seq<Author>, k: nat, fetch: Fetcher): seq<Author>
  {
    if k < |all| && IsValidAuthorPage(fetch(all[k].url)) then [all[k]] else []
  }

  /** The authors at the positions `idx` whose page is valid, in that order. */
  function ValidAmong(all: seq<Author>, idx: seq<nat>, fetch: Fetcher): (r: seq<Author>)
    ensures |r| <= |idx|
  {
    if idx == [] then [] else ValidAt(all, idx[0], fetch) + ValidAmong(all, idx[1..], fetch)
  }

  lemma {:induction false} ValidAmongSound(all: seq<Author>, idx: seq<nat>, fetch: Fetcher)
    ensures forall j :: 0 <= j < |ValidAmong(all, idx, fetch)| ==>
      var a := ValidAmong(all, idx, fetch)[j]; a in all && IsValidAuthorPage(fetch(a.url))
  {
    if idx != [] {
      ValidAmongSound(all, idx[1..], fetch);
      if idx[0] < |all| {
        assert all[idx[0]] in all;
      }
    }
  }

  /** The valid authors the selection loops of `main` stop at: the first five
      met in scan order. */
  function Selected(all: seq<Author>, fetch: Fetcher): seq<Author>
  {
    Take(ValidAmong(all, ScanOrder(|all|), fetch), MaxAuthors)
  }

  /** At most five authors are selected, each of them from the roster and with a
      valid page; fewer than five only when the scan found no more. */
  lemma {:induction false} SelectedSpec(all: seq<Author>, fetch: Fetcher)
    ensures |Selected(all, fetch)| <= MaxAuthors
    ensures forall j :: 0 <= j < |Selected(all, fetch)| ==>
      Selected(all, fetch)[j] in all && IsValidAuthorPage(fetch(Selected(all, fetch)[j].url))
    ensures |Selected(all, fetch)| < MaxAuthors ==>
      Selected(all, fetch) == ValidAmong(all, ScanOrder(|all|), fetch)
  {
    ValidAmongSound(all, ScanOrder(|all|), fetch);
  }

  /** One probe of the scan: the author at position `i` is checked first. */
  lemma {:induction false} ScanStep(all: seq<Author>, fetch: Fetcher, valid: seq<Author>, i: nat, hi: int, later: seq<nat>)
    requires i < hi
    ensures valid + ValidAmong(all, Range(i, hi) + later, fetch)
      == (valid + ValidAt(all, i, fetch)) + ValidAmong(all, Range(i + 1, hi) + later, fetch)
  {
    var rest := Range(i + 1, hi) + later;
    assert Range(i, hi) + later == [i] + rest;
    assert ValidAmong(all, [i] + rest, fetch) == ValidAt(all, i, fetch) + ValidAmong(all, rest, fetch);
  }

  lemma {:induction false} TakeFull(a: seq<Author>, b: seq<Author>, n: nat)
    requires |a| == n
    ensures Take(a + b, n) == a
  {
    assert (a + b)[..n] == a;
  }

  /** The two nested loops of lines 222-239 with their two `break`s: probe the
      authors window by window, stop at the fifth valid one. */
  method SelectAuthors(all: seq<Author>, fetch: Fetcher) returns (valid: seq<Author>)
    ensures valid == Selected(all, fetch)
  {
    var n := |all|;
    ghost var goal := Selected(all, fetch);
    valid := [];
    var w := 0;
    while w < |Windows|
      invariant 0 <= w <= |Windows|
      invariant |valid| < MaxAuthors
      invariant goal == Take(valid + ValidAmong(all, ScanFrom(n, w), fetch), MaxAuthors)
    {
      ghost var later := ScanFrom(n, w + 1);
      valid := ScanWindow(all, fetch, valid, Windows[w].0, Min(Windows[w].1, n), later);
      if |valid| >= MaxAuthors {
        TakeFull(valid, ValidAmong(all, later, fetch), MaxAuthors);
        return;
      }
      w := w + 1;
    }
    assert valid + ValidAmong(all, ScanFrom(n, w), fetch) == valid;
  }

  /** The inner loop of lines 224-235: probe the positions `lo` to `hi` after
      the authors `start` already found, and stop at the fifth valid one. What
      the scan goes on to select is the same as before the window. */
  method ScanWindow(all: seq<Author>, fetch: Fetcher, start: seq<Author>, lo: nat, hi: int, ghost later: seq<nat>)
    returns (valid: seq<Author>)
    requires |start| < MaxAuthors && hi <= |all|
    ensures |valid| <= MaxAuthors
    ensures Take(valid + ValidAmong(all, later, fetch), MaxAuthors)
      == Take(start + ValidAmong(all, Range(lo, hi) + later, fetch), MaxAuthors)
  {
    ghost var goal := Take(start + ValidAmong(all, Range(lo, hi) + later, fetch), MaxAuthors);
    valid := start;
    var i := lo;
    while i < hi
      invariant lo <= i
      invariant |valid| < MaxAuthors
      invariant goal == Take(valid + ValidAmong(all, Range(i, hi) + later, fetch), MaxAuthors)
      decreases hi - i
    {
      ScanStep(all, fetch, valid, i, hi, later);
      ghost var next := valid + ValidAt(all, i, fetch);
      ghost var rest := ValidAmong(all, Range(i + 1, hi) + later, fetch);
      assert goal == Take(next + rest, MaxAuthors);
      var isValid, count := TestAuthorPage(all[i].url, fetch);
      if isValid && count > 0 {
        valid := valid + [all[i]];
        if |valid| >= MaxAuthors {
          TakeFull(valid, rest, MaxAuthors);
          TakeFull(valid, ValidAmong(all, later, fetch), MaxAuthors);
          return;
        }
      }
      assert valid == next;
      i := i + 1;
    }
    assert Range(i, hi) + later == later;
  }

  // ---------------------------------------------------------------------------
  // The pages of the selected authors

  /** One link of an author page: the work's title and its summary page. */
  datatype Entry = Entry(title: string, summary: string)

  /** An author page, listing the works kept for the author. */
  datatype AuthorPage = AuthorPage(author: Author, entries: seq<Entry>)

  /** The run of `main`: it stops with an exception when the author index
      cannot be fetched, stops early when no author is valid, and otherwise
      builds the author pages and the index page listing them. */
  datatype Outcome = Aborted | NoValidAuthors | Site(pages: seq<AuthorPage>)

  /** Whether `save_summary(author, title, summary)` returns without raising.
      The file system is a parameter, as the web is. */
  type Saver = (string, string, string) -> bool

  /** The entry kept for a work of `author`: none when no text was extracted,
      when the text is shorter than 100 characters, or when saving its summary
      raised, since the `except` then skips the `append`. */
  function EntryFor(author: string, w: Work, fetch: Fetcher, join: UrlJoin, saves: Saver): Option<Entry>
  {
    match ExtractedText(w.url, fetch, join)
    case None => None
    case Some(text) =>
      if |text| < MinTextLength then None
      else if saves(author, w.title, Summarize(text)) then Some(Entry(w.title, Summarize(text)))
      else None
  }

  /** The inner loop of lines 266-281: the entries of the works kept, in order. */
  function Entries(author: string, works: seq<Work>, fetch: Fetcher, join: UrlJoin, saves: Saver): (r: seq<Entry>)
    ensures |r| <= |works|
  {
    if works == [] then []
    else
      var init, last := works[..|works| - 1], works[|works| - 1];
      Entries(author, init, fetch, join, saves) + (if EntryFor(author, last, fetch, join, saves).Some? then [EntryFor(author, last, fetch, join, saves).value] else [])
  }

  /** What an author page lists of an author: nothing when none of the first
      three works gives an entry. */
  function AuthorPageOf(a: Author, fetch: Fetcher, join: UrlJoin, saves: Saver): Option<AuthorPage>
  {
    var works := Take(WorkRoster(a.url, fetch(a.url), join), WorksPerAuthor);
    var entries := Entries(a.name, works, fetch, join, saves);
    if entries == [] then None else Some(AuthorPage(a, entries))
  }

  /** The author pages built for `authors`, in order. */
  function Pages(authors: seq<Author>, fetch: Fetcher, join: UrlJoin, saves: Saver): (r: seq<AuthorPage>)
    ensures |r| <= |authors|
  {
    if authors == [] then []
    else
      var init, last := authors[..|authors| - 1], authors[|authors| - 1];
      Pages(init, fetch, join, saves) + (if AuthorPageOf(last, fetch, join, saves).Some? then [AuthorPageOf(last, fetch, join, saves).value] else [])
  }

  /** What `main` produces. */
  function Run(fetch: Fetcher, join: UrlJoin, saves: Saver): Outcome
  {
    match AuthorList(fetch, join)
    case None => Aborted
    case Some(all) =>
      var valid := Selected(all, fetch);
      if valid == [] then NoValidAuthors else Site(Pages(valid, fetch, join, saves))
  }

  /** A summary entry: its summary is a single line of 100 to 503 characters. */
  predicate GoodSummary(summary: string)
  {
    MinTextLength <= |summary| <= SummaryLength + |Ellipsis| && '\r' !in summary && '\n' !in summary
  }

  /** The summary of a kept text keeps at least its 100 characters: the cleaned
      text has no carriage return, so the collapse does not shorten it. */
  lemma {:induction false} EntryForShape(author: string, w: Work, fetch: Fetcher, join: UrlJoin, saves: Saver)
    requires EntryFor(author, w, fetch, join, saves).Some?
    ensures EntryFor(author, w, fetch, join, saves).value.title == w.title
    ensures GoodSummary(EntryFor(author, w, fetch, join, saves).value.summary)
  {
    ExtractedTextIsClean(w.url, fetch, join);
    var text := ExtractedText(w.url, fetch, join).value;
    var raw :| text == CleanText(raw);
    CleanTextNoCarriageReturn(raw);
    SummaryLengthWithoutCarriageReturn(text);
  }

  lemma {:induction false} EntriesShape(author: string, works: seq<Work>, fetch: Fetcher, join: UrlJoin, saves: Saver)
    ensures forall j :: 0 <= j < |Entries(author, works, fetch, join, saves)| ==>
      var e := Entries(author, works, fetch, join, saves)[j];
      GoodSummary(e.summary) && exists k :: 0 <= k < |works| && e.title == works[k].title
  {
    if works != [] {
      var init, last := works[..|works| - 1], works[|works| - 1];
      EntriesShape(author, init, fetch, join, saves);
      var e0 := Entries(author, init, fetch, join, saves);
      forall j | 0 <= j < |Entries(author, works, fetch, join, saves)|
        ensures var e := Entries(author, works, fetch, join, saves)[j];
          GoodSummary(e.summary) && exists k :: 0 <= k < |works| && e.title == works[k].title
      {
        if j < |e0| {
          var k :| 0 <= k < |init| && e0[j].title == init[k].title;
          assert works[k] == init[k];
        } else {
          EntryForShape(author, last, fetch, join, saves);
          assert works[|works| - 1] == last;
        }
      }
    }
  }

  /** An author page lists one to three works, each among the first three of
      the author's work list and each with a single-line summary of 100 to 503 characters. */
  lemma {:induction false} AuthorPageShape(a: Author, fetch: Fetcher, join: UrlJoin, saves: Saver)
    requires AuthorPageOf(a, fetch, join, saves).Some?
    ensures var p := AuthorPageOf(a, fetch, join, saves).value;
      && p.author == a
      && 1 <= |p.entries| <= WorksPerAuthor
      && forall j :: 0 <= j < |p.entries| ==>
        (GoodSummary(p.entries[j].summary) && exists w :: w in Take(WorkRoster(a.url, fetch(a.url), join), WorksPerAuthor) && p.entries[j].title == w.title)
  {
    var listed := WorkRoster(a.url, fetch(a.url), join);
    var works := Take(listed, WorksPerAuthor);
    EntriesShape(a.name, works, fetch, join, saves);
    var p := AuthorPageOf(a, fetch, join, saves).value;
    forall j | 0 <= j < |p.entries|
      ensures exists w :: w in works && p.entries[j].title == w.title
    {
      var k :| 0 <= k < |works| && p.entries[j].title == works[k].title;
      assert works[k] in works;
    }
  }

  lemma {:induction false} PagesShape(authors: seq<Author>, fetch: Fetcher, join: UrlJoin, saves: Saver)
    ensures forall j :: 0 <= j < |Pages(authors, fetch, join, saves)| ==>
      var p := Pages(authors, fetch, join, saves)[j];
      p.author in authors && AuthorPageOf(p.author, fetch, join, saves) == Some(p)
  {
    if authors != [] {
      var init, last := authors[..|authors| - 1], authors[|authors| - 1];
      PagesShape(init, fetch, join, saves);
      assert forall a :: a in init ==> a in authors;
    }
  }

  /** A site has at most five author pages, each of a valid author from the
      roster and listing one to three summarised works of that author. */
  lemma {:induction false} SiteShape(fetch: Fetcher, join: UrlJoin, saves: Saver)
    requires Run(fetch, join, saves).Site?
    ensures var pages := Run(fetch, join, saves).pages;
      && |pages| <= MaxAuthors
      && forall j :: 0 <= j < |pages| ==>
        && IsValidAuthorPage(fetch(pages[j].author.url))
        && 1 <= |pages[j].entries| <= WorksPerAuthor
        && forall e :: e in pages[j].entries ==> GoodSummary(e.summary)
  {
    var all := AuthorList(fetch, join).value;
    var valid := Selected(all, fetch);
    var pages := Pages(valid, fetch, join, saves);
    SelectedSpec(all, fetch);
    PagesShape(valid, fetch, join, saves);
    forall j | 0 <= j < |pages|
      ensures && IsValidAuthorPage(fetch(pages[j].author.url))
        && 1 <= |pages[j].entries| <= WorksPerAuthor
        && forall e :: e in pages[j].entries ==> GoodSummary(e.summary)
    {
      AuthorPageShape(pages[j].author, fetch, join, saves);
    }
  }

  /** The per-author body of the loop of lines 252-309. */
  method AuthorPageFor(a: Author, fetch: Fetcher, join: UrlJoin, saves: Saver) returns (page: Option<AuthorPage>)
    ensures page == AuthorPageOf(a, fetch, join, saves)
  {
    var listed := GetWorksFromAuthor(a.url, fetch, join);
    var works := Take(listed, WorksPerAuthor);
    if works == [] {
      return None;
    }
    var entries: seq<Entry> := [];
    for k := 0 to |works|
      invariant entries == Entries(a.name, works[..k], fetch, join, saves)
    {
      assert works[..k + 1][..k] == works[..k];
      var text := ExtractTextFromWork(works[k].url, fetch, join);
      if text.Some? && |text.value| >= MinTextLength {
        var summary := Summarize(text.value);
        if saves(a.name, works[k].title, summary) {
          entries := entries + [Entry(works[k].title, summary)];
        }
      }
    }
    assert works[..|works|] == works;
    if entries == [] {
      return None;
    }
    page := Some(AuthorPage(a, entries));
  }

  /** The loop of lines 252-309 over the selected authors. */
  method BuildPages(authors: seq<Author>, fetch: Fetcher, join: UrlJoin, saves: Saver) returns (pages: seq<AuthorPage>)
    ensures pages == Pages(authors, fetch, join, saves)
  {
    pages := [];
    for k := 0 to |authors|
      invariant pages == Pages(authors[..k], fetch, join, saves)
    {
      assert authors[..k + 1][..k] == authors[..k];
      var page := AuthorPageFor(authors[k], fetch, join, saves);
      if page.Some? {
        pages := pages + [page.value];
      }
    }
    assert authors[..|authors|] == authors;
  }

  /** `main`. */
  method Scrape(fetch: Fetcher, join: UrlJoin, saves: Saver) returns (outcome: Outcome)
    ensures outcome == Run(fetch, join, saves)
  {
    var all := GetAuthorList(fetch, join);
    if all.None? {
      return Aborted;
    }
    var valid := SelectAuthors(all.value, fetch);
    if valid == [] {
      return NoValidAuthors;
    }
    var pages := BuildPages(valid, fetch, join, saves);
    outcome := Site(pages);
  }
}
