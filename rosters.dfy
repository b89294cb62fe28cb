/** The two list-building steps of the scraper (generator.py): the roster of
    authors read from the author index page (`get_author_list`), and the works
    listed on one author's page (`get_works_from_author`). */
module Rosters {
  import opened Sequences
  import opened Strings
  import opened Web

  const BaseUrl: string := "https://www.aozora.gr.jp/"
  const PersonIndexUrl: string := BaseUrl + "index_pages/person_all.html"

  /** An `(name, full_url)` pair of the author roster. */
  datatype Author = Author(name: string, url: string)

  /** A `(title, full_url)` pair of an author's works. */
  datatype Work = Work(title: string, url: string)

  // ---------------------------------------------------------------------------
  // The author roster

  /** `url.split('#')[0]`: everything before the first `#`. */
  function BeforeHash(url: string): (r: string)
    ensures |r| <= |url| && r == url[..|r|]
    ensures '#' !in r
    ensures |r| < |url| ==> url[|r|] == '#'
  {
    url[..FirstWhere(url, c => c == '#')]
  }

  /** Only a fragment is cut: a URL without `#` is kept whole, and two URLs that
      differ only after the `#` become the same URL. */
  lemma {:induction false} BeforeHashCutsFragment(url: string, f: string)
    requires '#' !in url
    ensures BeforeHash(url) == url
    ensures BeforeHash(url + ['#'] + f) == url
  {
    var full := url + ['#'] + f;
    var k := FirstWhere(full, c => c == '#');
    assert full[|url|] == '#';
  }

  /** `if href:` — the link has an `href` attribute and it is not empty. */
  predicate HasHref(l: Link)
  {
    l.href.Some? && l.href.value != ""
  }

  /** The roster entry built from one link. */
  function AuthorOf(l: Link, join: UrlJoin): (a: Author)
    ensures '#' !in a.url
  {
    Author(Strip(l.text, IsWhitespace), BeforeHash(join(PersonIndexUrl, Href(l))))
  }

  /** The roster the loop of `get_author_list` builds from the links found
      under `ol li`: one entry per link with a non-empty `href`, in document
      order, duplicates included. */
  function AuthorRoster(links: seq<Link>, join: UrlJoin): (r: seq<Author>)
    ensures |r| <= |links|
  {
    FilterMap(links, HasHref, l => AuthorOf(l, join))
  }

  /** An entry is in the roster exactly when a link with an `href` gives it,
      and no roster URL carries a fragment. */
  lemma {:induction false} AuthorRosterMembers(links: seq<Link>, join: UrlJoin, a: Author)
    ensures a in AuthorRoster(links, join) <==>
      exists i :: 0 <= i < |links| && HasHref(links[i]) && a == AuthorOf(links[i], join)
    ensures a in AuthorRoster(links, join) ==> '#' !in a.url
  {
    FilterMapMembers(links, HasHref, l => AuthorOf(l, join), a);
  }

  /** The roster of concatenated link lists is the concatenation of the
      rosters: nothing is merged, so a repeated author stays repeated. */
  lemma {:induction false} AuthorRosterAppend(a: seq<Link>, b: seq<Link>, join: UrlJoin)
    ensures AuthorRoster(a + b, join) == AuthorRoster(a, join) + AuthorRoster(b, join)
  {
    FilterMapAppend(a, b, HasHref, l => AuthorOf(l, join));
  }

  /** Every link with a non-empty `href` gives exactly one entry. */
  lemma {:induction false} AuthorRosterLength(links: seq<Link>, join: UrlJoin)
    requires forall i :: 0 <= i < |links| ==> HasHref(links[i])
    ensures |AuthorRoster(links, join)| == |links|
  {
    FilterMapAll(links, HasHref, l => AuthorOf(l, join));
  }

  /** What `get_author_list` returns; None stands for the exception of an
      author index that cannot be fetched, which the function does not catch. */
  function AuthorList(fetch: Fetcher, join: UrlJoin): Option<seq<Author>>
  {
    var page := fetch(PersonIndexUrl);
    if page.Unreachable? then None else Some(AuthorRoster(page.links, join))
  }

  /** `get_author_list`. The status of the index page is not inspected. */
  method GetAuthorList(fetch: Fetcher, join: UrlJoin) returns (authors: Option<seq<Author>>)
    ensures authors == AuthorList(fetch, join)
  {
    var page := fetch(PersonIndexUrl);
    if page.Unreachable? {
      return None;
    }
    var links := page.links;
    var roster: seq<Author> := [];
    for i := 0 to |links|
      invariant roster == AuthorRoster(links[..i], join)
    {
      assert links[..i + 1][..i] == links[..i];
      if HasHref(links[i]) {
        roster := roster + [AuthorOf(links[i], join)];
      }
    }
    assert links[..|links|] == links;
    authors := Some(roster);
  }

  // ---------------------------------------------------------------------------
  // The works of one author

  /** `link.get_text(strip=True)`. */
  function TitleOf(l: Link): string
  {
    Strip(l.text, IsWhitespace)
  }

  /** `"cards" in href and title and len(title) > 1`. */
  predicate IsWorkLink(l: Link)
  {
    l.href.Some? && Contains(l.href.value, "cards") && |TitleOf(l)| > 1
  }

  function WorkOf(authorUrl: string, l: Link, join: UrlJoin): Work
  {
    Work(TitleOf(l), join(authorUrl, Href(l)))
  }

  /** The first loop of `get_works_from_author`: one pair per qualifying link,
      in document order. */
  function Candidates(authorUrl: string, links: seq<Link>, join: UrlJoin): (r: seq<Work>)
    ensures |r| <= |links|
  {
    FilterMap(links, IsWorkLink, l => WorkOf(authorUrl, l, join))
  }

  lemma {:induction false} CandidatesMembers(authorUrl: string, links: seq<Link>, join: UrlJoin, w: Work)
    ensures w in Candidates(authorUrl, links, join) <==>
      exists i :: 0 <= i < |links| && IsWorkLink(links[i]) && w == WorkOf(authorUrl, links[i], join)
  {
    FilterMapMembers(links, IsWorkLink, l => WorkOf(authorUrl, l, join), w);
  }

  /** The second loop: each pair on its first occurrence only. */
  function Dedupe(s: seq<Work>): (r: seq<Work>)
    ensures |r| <= |s|
  {
    if s == [] then []
    else
      var d, last := Dedupe(s[..|s| - 1]), s[|s| - 1];
      if last in d then d else d + [last]
  }

  /** Position of the first occurrence of `x` in `s`. */
  function FirstIndex(s: seq<Work>, x: Work): (k: nat)
    requires x in s
    ensures k < |s| && s[k] == x
    ensures forall j :: 0 <= j < k ==> s[j] != x
  {
    if s[0] == x then 0 else 1 + FirstIndex(s[1..], x)
  }

  /** The first occurrence of `x` in `s + t` is the one in `s` when there is one. */
  lemma {:induction false} FirstIndexPrefix(s: seq<Work>, t: seq<Work>, x: Work)
    requires x in s
    ensures FirstIndex(s + t, x) == FirstIndex(s, x)
  {
    var k, m := FirstIndex(s, x), FirstIndex(s + t, x);
    assert (s + t)[k] == x;
  }

  /** The de-duplicated list holds every pair once, and the same pairs as its
      input. */
  lemma {:induction false} DedupeElements(s: seq<Work>)
    ensures Distinct(Dedupe(s))
    ensures Elements(Dedupe(s)) == Elements(s)
  {
    if s != [] {
      var init, last := s[..|s| - 1], s[|s| - 1];
      DedupeElements(init);
      var d0 := Dedupe(init);
      assert s == init + [last];
      assert Elements(s) == Elements(init) + {last};
      if last !in d0 {
        assert Elements(d0 + [last]) == Elements(d0) + {last};
        assert last !in Elements(d0);
      }
    }
  }

  /** Every element of `d` occurs in `s`, and they come in the order of their
      first occurrences in `s`. */
  ghost predicate FirstOccurrenceOrder(d: seq<Work>, s: seq<Work>)
  {
    && (forall k :: 0 <= k < |d| ==> d[k] in s)
    && forall i, j :: 0 <= i < j < |d| ==> FirstIndex(s, d[i]) < FirstIndex(s, d[j])
  }

  /** Appending to `s` moves no first occurrence of a pair already in `s`. */
  lemma {:induction false} OrderExtends(d: seq<Work>, s: seq<Work>, last: Work)
    requires FirstOccurrenceOrder(d, s)
    ensures FirstOccurrenceOrder(d, s + [last])
  {
    forall k | 0 <= k < |d| ensures FirstIndex(s + [last], d[k]) == FirstIndex(s, d[k]) {
      FirstIndexPrefix(s, [last], d[k]);
    }
  }

  /** A pair met for the first time goes after all the others. */
  lemma {:induction false} OrderAppendsNew(d: seq<Work>, s: seq<Work>, last: Work)
    requires FirstOccurrenceOrder(d, s)
    requires last !in s
    ensures FirstOccurrenceOrder(d + [last], s + [last])
  {
    var t := s + [last];
    OrderExtends(d, s, last);
    assert FirstIndex(t, last) == |s|;
    forall k | 0 <= k < |d| ensures FirstIndex(t, d[k]) < |s| {
      FirstIndexPrefix(s, [last], d[k]);
    }
    var e := d + [last];
    forall i, j | 0 <= i < j < |e| ensures FirstIndex(t, e[i]) < FirstIndex(t, e[j]) {
      assert e[i] == d[i];
      if j < |d| {
        assert e[j] == d[j];
      }
    }
  }

  /** The pairs come in the order of their first occurrences. */
  lemma {:induction false} DedupeOrder(s: seq<Work>)
    ensures FirstOccurrenceOrder(Dedupe(s), s)
  {
    if s != [] {
      var init, last := s[..|s| - 1], s[|s| - 1];
      DedupeOrder(init);
      DedupeElements(init);
      var d0 := Dedupe(init);
      assert s == init + [last];
      if last in d0 {
        OrderExtends(d0, init, last);
      } else {
        assert last !in init by {
          assert last !in Elements(d0);
        }
        OrderAppendsNew(d0, init, last);
      }
    }
  }

  /** What `get_works_from_author` returns when fetching the author page gave
      `page`: nothing for an unreachable page or a 404, the de-duplicated
      candidates otherwise. */
  function WorkRoster(authorUrl: string, page: Response, join: UrlJoin): seq<Work>
  {
    match page
    case Unreachable => []
    case Response(status, links, _, _) =>
      if status == NotFound then [] else Dedupe(Candidates(authorUrl, links, join))
  }

  /** The works listed are pairwise different, and a pair is listed exactly when
      the page was fetched, is not a 404, and has a qualifying link giving it. */
  lemma {:induction false} WorkRosterSpec(authorUrl: string, page: Response, join: UrlJoin, w: Work)
    ensures Distinct(WorkRoster(authorUrl, page, join))
    ensures w in WorkRoster(authorUrl, page, join) <==>
      && page.Response? && page.status != NotFound
      && exists i :: 0 <= i < |page.links| && IsWorkLink(page.links[i]) && w == WorkOf(authorUrl, page.links[i], join)
  {
    if page.Response? && page.status != NotFound {
      var c := Candidates(authorUrl, page.links, join);
      DedupeElements(c);
      CandidatesMembers(authorUrl, page.links, join, w);
      assert w in Dedupe(c) <==> w in Elements(Dedupe(c));
    }
  }

  /** `get_works_from_author`: collect the candidate pairs, then drop repeats
      with a set of the pairs seen so far. */
  method GetWorksFromAuthor(authorUrl: string, fetch: Fetcher, join: UrlJoin) returns (works: seq<Work>)
    ensures works == WorkRoster(authorUrl, fetch(authorUrl), join)
  {
    var page := fetch(authorUrl);
    if page.Unreachable? || page.status == NotFound {
      return [];
    }
    var links := page.links;
    var candidates: seq<Work> := [];
    for i := 0 to |links|
      invariant candidates == Candidates(authorUrl, links[..i], join)
    {
      assert links[..i + 1][..i] == links[..i];
      if IsWorkLink(links[i]) {
        candidates := candidates + [WorkOf(authorUrl, links[i], join)];
      }
    }
    assert links[..|links|] == links;
    works := DropRepeats(candidates);
  }

  /** The second loop of `get_works_from_author`: keep each pair the first
      time it is met, with a set of the pairs seen so far. */
  method DropRepeats(candidates: seq<Work>) returns (unique: seq<Work>)
    ensures unique == Dedupe(candidates)
  {
    var seen: set<Work> := {};
    unique := [];
    for i := 0 to |candidates|
      invariant unique == Dedupe(candidates[..i])
      invariant seen == Elements(unique)
    {
      assert candidates[..i + 1][..i] == candidates[..i];
      if candidates[i] !in seen {
        seen := seen + {candidates[i]};
        unique := unique + [candidates[i]];
      }
    }
    assert candidates[..|candidates|] == candidates;
  }
}
