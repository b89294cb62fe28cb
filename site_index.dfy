/** The data the static-site generator binds to its index page and to its
    by-author page (`generate_index` and `generate_author_index` in
    generator_v2.py): one entry per work with an 80-character excerpt and the
    work's file name, the three totals, and the works grouped under their
    authors with the authors in ascending order. Template rendering and the
    writing of the pages are not part of this module. */
module SiteIndex {
  import opened Sequences
  import opened Strings
  import Filenames

  /** A row of the `summaries` table as the generator reads it. */
  datatype Work = Work(title: string, author: string, summary: string, year: Option<int>, genre: Option<string>)

  /** One card of the index page. */
  datatype IndexEntry = IndexEntry(
    title: string, author: string, year: Option<int>, genre: Option<string>,
    excerpt: string, filename: string)

  datatype IndexTotals = IndexTotals(totalWorks: nat, totalAuthors: nat, totalGenres: nat)

  /** One work listed on the by-author page. */
  datatype AuthorEntry = AuthorEntry(title: string, year: Option<int>, genre: Option<string>, filename: string)

  /** One author's section of the by-author page. */
  datatype AuthorGroup = AuthorGroup(author: string, entries: seq<AuthorEntry>)

  const ExcerptLength: nat := 80
  const Ellipsis: string := "..."

  /** The page a work is written to: its sanitised title with `.html`. */
  function PageName(title: string): string
  {
    Filenames.SanitizeFilename(title) + ".html"
  }

  /** There is no backslash immediately followed by `n`. */
  predicate NoBackslashN(s: string)
  {
    forall i :: 0 <= i < |s| - 1 ==> !(s[i] == '\\' && s[i + 1] == 'n')
  }

  /** `s.replace('\\n', ' ')` as the index code writes it: the literal is not raw,
      so it denotes the two characters backslash and `n`, not a line feed. */
  function ReplaceBackslashN(s: string): (r: string)
    ensures NoBackslashN(r)
    ensures NoBackslashN(s) ==> r == s
    ensures |r| <= |s|
    ensures |s| > 0 ==> |r| > 0 && (r[0] == s[0] || r[0] == ' ')
  {
    if |s| < 2 then s
    else if s[0] == '\\' && s[1] == 'n' then " " + ReplaceBackslashN(s[2..])
    else [s[0]] + ReplaceBackslashN(s[1..])
  }

  /** `str.replace` works from the left without overlaps: the first
      backslash-n becomes one space, the text before it is kept, and the
      replacement goes on after it. */
  lemma {:induction false} ReplaceLeftmost(a: string, b: string)
    requires NoBackslashN(a)
    ensures ReplaceBackslashN(a + "\\n" + b) == a + " " + ReplaceBackslashN(b)
  {
    var p := "\\n" + b;
    calc {
      ReplaceBackslashN(a + "\\n" + b);
      { assert a + "\\n" + b == a + p; }
      ReplaceBackslashN(a + p);
      { ReplaceAppend(a, p); }
      ReplaceBackslashN(a) + ReplaceBackslashN(p);
      { ReplacePairFirst(b); }
      a + (" " + ReplaceBackslashN(b));
    }
  }

  lemma {:induction false} ReplacePairFirst(b: string)
    ensures ReplaceBackslashN("\\n" + b) == " " + ReplaceBackslashN(b)
  {
    var p := "\\n" + b;
    assert p[0] == '\\' && p[1] == 'n' && p[2..] == b;
  }

  /** Cutting a text where no backslash-n pair is split, the replacement
      works on the two pieces separately. */
  lemma {:induction false} ReplaceAppend(a: string, b: string)
    requires !(a != [] && b != [] && a[|a| - 1] == '\\' && b[0] == 'n')
    ensures ReplaceBackslashN(a + b) == ReplaceBackslashN(a) + ReplaceBackslashN(b)
    decreases |a|
  {
    if a == [] {
      assert a + b == b;
    } else if |a| == 1 {
      assert a + b == [a[0]] + b;
      ReplaceKeepsHead(a[0], b);
    } else if a[0] == '\\' && a[1] == 'n' {
      ReplaceAppendPair(a, b);
    } else {
      ReplaceAppendKeep(a, b);
    }
  }

  lemma {:induction false} ReplaceAppendPair(a: string, b: string)
    requires |a| >= 2 && a[0] == '\\' && a[1] == 'n'
    requires !(b != [] && a[|a| - 1] == '\\' && b[0] == 'n')
    ensures ReplaceBackslashN(a + b) == ReplaceBackslashN(a) + ReplaceBackslashN(b)
    decreases |a|, 0
  {
    var s := a + b;
    calc {
      ReplaceBackslashN(s);
      { assert s[0] == '\\' && s[1] == 'n'; }
      " " + ReplaceBackslashN(s[2..]);
      { assert s[2..] == a[2..] + b; }
      " " + ReplaceBackslashN(a[2..] + b);
      { ReplaceAppend(a[2..], b); }
      " " + (ReplaceBackslashN(a[2..]) + ReplaceBackslashN(b));
      (" " + ReplaceBackslashN(a[2..])) + ReplaceBackslashN(b);
    }
  }

  lemma {:induction false} ReplaceAppendKeep(a: string, b: string)
    requires |a| >= 2 && !(a[0] == '\\' && a[1] == 'n')
    requires !(b != [] && a[|a| - 1] == '\\' && b[0] == 'n')
    ensures ReplaceBackslashN(a + b) == ReplaceBackslashN(a) + ReplaceBackslashN(b)
    decreases |a|, 0
  {
    var s, t := a + b, a[1..];
    assert s[0] == a[0] && s[1] == a[1] && s[1..] == t + b;
    ReplaceHead(s);
    ReplaceHead(a);
    ReplaceAppend(t, b);
    ConsAppend(a[0], ReplaceBackslashN(t), ReplaceBackslashN(b));
  }

  lemma {:induction false} ConsAppend(c: char, x: string, y: string)
    ensures [c] + (x + y) == ([c] + x) + y
  {
  }

  /** A text whose first character does not start the pair keeps it. */
  lemma {:induction false} ReplaceHead(s: string)
    requires |s| >= 2 && !(s[0] == '\\' && s[1] == 'n')
    ensures ReplaceBackslashN(s) == [s[0]] + ReplaceBackslashN(s[1..])
  {
  }

  /** A character that does not start the pair is kept. */
  lemma {:induction false} ReplaceKeepsHead(c: char, rest: string)
    requires !(c == '\\' && rest != [] && rest[0] == 'n')
    ensures ReplaceBackslashN([c] + rest) == [c] + ReplaceBackslashN(rest)
  {
    if rest == [] {
      assert [c] + rest == [c];
    } else {
      assert ([c] + rest)[0] == c && ([c] + rest)[1] == rest[0] && ([c] + rest)[1..] == rest;
    }
  }

  /** The excerpt of line 370: the first 80 characters of the summary with the
      substitution applied, then an ellipsis, whatever the summary's length. */
  function Excerpt(summary: string): string
  {
    ReplaceBackslashN(Take(summary, ExcerptLength)) + Ellipsis
  }

  lemma {:induction false} ExcerptShape(summary: string)
    ensures var e := Excerpt(summary);
      && |Ellipsis| <= |e| <= ExcerptLength + |Ellipsis|
      && e[|e| - |Ellipsis|..] == Ellipsis
      && NoBackslashN(e[..|e| - |Ellipsis|])
  {
    var body := ReplaceBackslashN(Take(summary, ExcerptLength));
    assert Excerpt(summary)[..|body|] == body;
  }

  /** A summary whose first 80 characters hold no backslash-n gives exactly that
      prefix followed by the ellipsis. */
  lemma {:induction false} ExcerptOfPlainSummary(summary: string)
    requires NoBackslashN(Take(summary, ExcerptLength))
    ensures Excerpt(summary) == Take(summary, ExcerptLength) + Ellipsis
  {
  }

  function IndexEntryOf(w: Work): IndexEntry
  {
    IndexEntry(w.title, w.author, w.year, w.genre, Excerpt(w.summary), PageName(w.title))
  }

  /** The distinct authors, as `set(w['author'] for w in works)`. */
  function AuthorSet(works: seq<Work>): set<string>
  {
    set w | w in works :: w.author
  }

  /** A genre counts when it is present and not empty (Python's truthiness). */
  predicate HasGenre(w: Work)
  {
    w.genre.Some? && w.genre.value != ""
  }

  /** The distinct non-empty genres, as `set(w.get('genre') for w in works if w.get('genre'))`. */
  function GenreSet(works: seq<Work>): set<string>
  {
    set w | w in works && HasGenre(w) :: w.genre.value
  }

  function AuthorsOf(works: seq<Work>): (r: seq<string>)
    ensures |r| == |works| && forall i :: 0 <= i < |r| ==> r[i] == works[i].author
  {
    Map(works, (w: Work) => w.author)
  }

  function GenresOf(works: seq<Work>): (r: seq<string>)
    ensures |r| <= |works|
    ensures forall g :: g in r <==> exists w :: w in works && HasGenre(w) && w.genre.value == g
  {
    if works == [] then []
    else (if HasGenre(works[0]) then [works[0].genre.value] else []) + GenresOf(works[1..])
  }

  /** The index entries of `works`, one per work, in order. */
  function IndexEntriesOf(works: seq<Work>): (r: seq<IndexEntry>)
    ensures |r| == |works|
  {
    if works == [] then [] else IndexEntriesOf(works[..|works| - 1]) + [IndexEntryOf(works[|works| - 1])]
  }

  /** Entry `i` is the entry of work `i`. */
  lemma {:induction false} IndexEntriesAt(works: seq<Work>, i: nat)
    requires i < |works|
    ensures IndexEntriesOf(works)[i] == IndexEntryOf(works[i])
  {
    if i < |works| - 1 {
      var init := works[..|works| - 1];
      IndexEntriesAt(init, i);
      assert init[i] == works[i];
    }
  }

  /** `generate_index`: the loop that builds one entry per work, and the totals. */
  method GenerateIndex(works: seq<Work>) returns (entries: seq<IndexEntry>, totals: IndexTotals)
    ensures entries == IndexEntriesOf(works)
    ensures totals == IndexTotals(|works|, |AuthorSet(works)|, |GenreSet(works)|)
  {
    entries := [];
    for i := 0 to |works|
      invariant entries == IndexEntriesOf(works[..i])
    {
      assert works[..i + 1][..i] == works[..i];
      entries := entries + [IndexEntryOf(works[i])];
    }
    assert works[..|works|] == works;
    totals := IndexTotals(|works|, |AuthorSet(works)|, |GenreSet(works)|);
  }

  /** The totals never exceed the number of works; there is at least one author
      when there is a work; and the author total equals the number of works
      exactly when no author repeats. */
  lemma {:induction false} TotalsBounds(works: seq<Work>)
    ensures |AuthorSet(works)| <= |works| && |GenreSet(works)| <= |works|
    ensures works != [] ==> |AuthorSet(works)| >= 1
    ensures |AuthorSet(works)| == |works| <==> Distinct(AuthorsOf(works))
    ensures |GenreSet(works)| == 0 <==> forall w :: w in works ==> !HasGenre(w)
  {
    AuthorsAreElements(works);
    DistinctCard(AuthorsOf(works));
    GenresAreElements(works);
    DistinctCard(GenresOf(works));
    if works != [] {
      assert works[0].author in AuthorSet(works);
    }
    forall w | w in works && HasGenre(w) ensures w.genre.value in GenreSet(works) {
    }
  }

  lemma {:induction false} AuthorsAreElements(works: seq<Work>)
    ensures Elements(AuthorsOf(works)) == AuthorSet(works)
  {
    var authors := AuthorsOf(works);
    forall a | a in AuthorSet(works) ensures a in Elements(authors) {
      var w :| w in works && w.author == a;
      var i :| 0 <= i < |works| && works[i] == w;
      assert authors[i] == a;
    }
  }

  lemma {:induction false} GenresAreElements(works: seq<Work>)
    ensures Elements(GenresOf(works)) == GenreSet(works)
  {
  }

  // ---------------------------------------------------------------------------
  // The by-author page

  function AuthorEntryOf(w: Work): AuthorEntry
  {
    AuthorEntry(w.title, w.year, w.genre, PageName(w.title))
  }

  /** The entries of `author`'s works, in the order the works come. */
  function WorksBy(works: seq<Work>, author: string): seq<AuthorEntry>
  {
    if works == [] then []
    else
      var last := works[|works| - 1];
      WorksBy(works[..|works| - 1], author) + (if last.author == author then [AuthorEntryOf(last)] else [])
  }

  lemma {:induction false} AuthorSetSnoc(works: seq<Work>, w: Work)
    ensures AuthorSet(works + [w]) == AuthorSet(works) + {w.author}
  {
    assert w in works + [w];
    forall a | a in AuthorSet(works + [w]) ensures a in AuthorSet(works) + {w.author} {
      var v :| v in works + [w] && v.author == a;
    }
  }

  lemma {:induction false} WorksBySnoc(works: seq<Work>, w: Work, author: string)
    ensures WorksBy(works + [w], author) == WorksBy(works, author) + (if w.author == author then [AuthorEntryOf(w)] else [])
  {
    assert (works + [w])[..|works|] == works;
  }

  lemma {:induction false} WorksByAbsent(works: seq<Work>, author: string)
    requires author !in AuthorSet(works)
    ensures WorksBy(works, author) == []
  {
    if works != [] {
      var init := works[..|works| - 1];
      assert works == init + [works[|works| - 1]];
      AuthorSetSnoc(init, works[|works| - 1]);
      WorksByAbsent(init, author);
    }
  }

  lemma {:induction false} AppendNew(order: seq<string>, a: string)
    requires Distinct(order) && a !in Elements(order)
    ensures Distinct(order + [a]) && Elements(order + [a]) == Elements(order) + {a}
  {
  }

  predicate StrictlyAscending(keys: seq<string>)
  {
    forall i, j :: 0 <= i < j < |keys| ==> Less(keys[i], keys[j])
  }

  /** Places `x` into an ascending sequence of keys that does not hold it. */
  function Insert(x: string, keys: seq<string>): (r: seq<string>)
    requires StrictlyAscending(keys) && x !in keys
    ensures StrictlyAscending(r)
    ensures Elements(r) == Elements(keys) + {x}
    ensures |r| == |keys| + 1
  {
    if keys == [] then [x]
    else if Less(x, keys[0]) then
      InsertFront(x, keys);
      [x] + keys
    else
      LessTotal(x, keys[0]);
      var rest := Insert(x, keys[1..]);
      InsertBehind(x, keys, rest);
      [keys[0]] + rest
  }

  lemma {:induction false} InsertFront(x: string, keys: seq<string>)
    requires StrictlyAscending(keys) && keys != [] && Less(x, keys[0])
    ensures StrictlyAscending([x] + keys)
  {
    forall j | 0 < j < |keys| ensures Less(x, keys[j]) {
      LessTransitive(x, keys[0], keys[j]);
    }
  }

  lemma {:induction false} InsertBehind(x: string, keys: seq<string>, rest: seq<string>)
    requires StrictlyAscending(keys) && keys != [] && Less(keys[0], x)
    requires StrictlyAscending(rest) && Elements(rest) == Elements(keys[1..]) + {x}
    ensures StrictlyAscending([keys[0]] + rest)
    ensures Elements([keys[0]] + rest) == Elements(keys) + {x}
  {
    forall j | 0 <= j < |rest| ensures Less(keys[0], rest[j]) {
      assert rest[j] in Elements(rest);
      if rest[j] != x {
        var k :| 0 <= k < |keys[1..]| && keys[1..][k] == rest[j];
        assert keys[k + 1] == rest[j];
      }
    }
    assert keys == [keys[0]] + keys[1..];
    assert Elements(keys) == {keys[0]} + Elements(keys[1..]);
    assert Elements([keys[0]] + rest) == {keys[0]} + Elements(rest);
  }

  /** `sorted` on the dictionary's distinct keys: insertion sort. */
  function SortKeys(keys: seq<string>): (r: seq<string>)
    requires Distinct(keys)
    ensures StrictlyAscending(r)
    ensures Elements(r) == Elements(keys)
    ensures |r| == |keys|
  {
    if keys == [] then []
    else
      var init, last := keys[..|keys| - 1], keys[|keys| - 1];
      var sorted := SortKeys(init);
      LastIsNew(keys);
      assert keys == init + [last];
      Insert(last, sorted)
  }

  lemma {:induction false} LastIsNew(keys: seq<string>)
    requires Distinct(keys) && keys != []
    ensures Distinct(keys[..|keys| - 1])
    ensures keys[|keys| - 1] !in Elements(keys[..|keys| - 1])
  {
    var init := keys[..|keys| - 1];
    forall k | 0 <= k < |init| ensures init[k] != keys[|keys| - 1] {
    }
  }

  /** The sections' authors, in order. */
  function KeysOf(groups: seq<AuthorGroup>): seq<string>
  {
    Map(groups, (g: AuthorGroup) => g.author)
  }

  /** What the by-author page shows: one section per distinct author, authors in
      ascending order, every section holding that author's works in input order. */
  ghost predicate IsAuthorIndex(works: seq<Work>, groups: seq<AuthorGroup>)
  {
    && StrictlyAscending(KeysOf(groups))
    && Elements(KeysOf(groups)) == AuthorSet(works)
    && forall i :: 0 <= i < |groups| ==> groups[i].entries == WorksBy(works, groups[i].author)
  }

  /** `dict` maps exactly the authors of `works` to their entries, and `order`
      lists its keys once each. */
  ghost predicate Grouped(works: seq<Work>, dict: map<string, seq<AuthorEntry>>, order: seq<string>)
  {
    && dict.Keys == AuthorSet(works) && Elements(order) == dict.Keys
    && Distinct(order)
    && forall a :: a in dict ==> dict[a] == WorksBy(works, a)
  }

  /** One turn of the loop of `generate_author_index` keeps Grouped. */
  lemma {:induction false} GroupStep(works: seq<Work>, w: Work, dict: map<string, seq<AuthorEntry>>, order: seq<string>)
    requires Grouped(works, dict, order)
    ensures var had := w.author in dict;
      Grouped(works + [w],
        dict[w.author := (if had then dict[w.author] else []) + [AuthorEntryOf(w)]],
        if had then order else order + [w.author])
  {
    var had := w.author in dict;
    var d := dict[w.author := (if had then dict[w.author] else []) + [AuthorEntryOf(w)]];
    var o := if had then order else order + [w.author];
    AuthorSetSnoc(works, w);
    assert d.Keys == dict.Keys + {w.author};
    if !had {
      AppendNew(order, w.author);
    }
    assert Elements(o) == d.Keys && Distinct(o);
    EntriesStep(works, w, dict, d);
  }

  lemma {:induction false} EntriesStep(works: seq<Work>, w: Work, dict: map<string, seq<AuthorEntry>>, d: map<string, seq<AuthorEntry>>)
    requires dict.Keys == AuthorSet(works)
    requires forall a :: a in dict ==> dict[a] == WorksBy(works, a)
    requires d == dict[w.author := (if w.author in dict then dict[w.author] else []) + [AuthorEntryOf(w)]]
    ensures forall a :: a in d ==> d[a] == WorksBy(works + [w], a)
  {
    if w.author !in dict {
      WorksByAbsent(works, w.author);
    }
    forall a | a in d ensures d[a] == WorksBy(works + [w], a) {
      WorksBySnoc(works, w, a);
    }
  }

  /** The loop of `generate_author_index`: `authors_dict` filled in place, each
      author's list growing in the order the works come. `order` records the
      order in which the authors were first inserted. */
  method GroupByAuthor(works: seq<Work>) returns (dict: map<string, seq<AuthorEntry>>, order: seq<string>)
    ensures dict.Keys == AuthorSet(works) && Elements(order) == dict.Keys
    ensures Distinct(order)
    ensures forall a :: a in dict ==> dict[a] == WorksBy(works, a)
  {
    dict := map[];
    order := [];
    for i := 0 to |works|
      invariant Grouped(works[..i], dict, order)
    {
      var w := works[i];
      assert works[..i + 1] == works[..i] + [w];
      GroupStep(works[..i], w, dict, order);
      if w.author !in dict {
        dict := dict[w.author := []];
        order := order + [w.author];
      }
      dict := dict[w.author := dict[w.author] + [AuthorEntryOf(w)]];
    }
    assert works[..|works|] == works;
  }

  /** `generate_author_index`: the dictionary's items sorted by author. */
  method GenerateAuthorIndex(works: seq<Work>) returns (groups: seq<AuthorGroup>)
    ensures IsAuthorIndex(works, groups)
  {
    var dict, order := GroupByAuthor(works);
    var keys := SortKeys(order);
    groups := seq(|keys|, k requires 0 <= k < |keys| => AuthorGroup(keys[k], dict[keys[k]]));
    assert KeysOf(groups) == keys;
  }

  /** Each author has exactly one section, so the page has as many sections as
      the index page counts authors. */
  lemma {:induction false} SectionsMatchAuthorTotal(works: seq<Work>, groups: seq<AuthorGroup>)
    requires IsAuthorIndex(works, groups)
    ensures |groups| == |AuthorSet(works)|
    ensures forall w :: w in works ==> exists i :: 0 <= i < |groups| && groups[i].author == w.author
    ensures forall i, j :: 0 <= i < |groups| && 0 <= j < |groups| && groups[i].author == groups[j].author ==> i == j
  {
    var keys := KeysOf(groups);
    forall i, j | 0 <= i < j < |keys| ensures keys[i] != keys[j] {
      if keys[i] == keys[j] { LessIrreflexive(keys[i]); }
    }
    DistinctCard(keys);
    forall w | w in works ensures exists i :: 0 <= i < |groups| && groups[i].author == w.author {
      assert w.author in Elements(keys);
    }
  }

  function SumSizes(groups: seq<AuthorGroup>): nat
  {
    if groups == [] then 0 else |groups[0].entries| + SumSizes(groups[1..])
  }

  /** Sum over `keys` of the number of `author`'s works. */
  function CountOver(keys: seq<string>, works: seq<Work>): nat
  {
    if keys == [] then 0 else |WorksBy(works, keys[0])| + CountOver(keys[1..], works)
  }

  function Occurrences(keys: seq<string>, a: string): nat
  {
    if keys == [] then 0 else (if keys[0] == a then 1 else 0) + Occurrences(keys[1..], a)
  }

  lemma {:induction false} OccursOnce(keys: seq<string>, a: string)
    requires Distinct(keys) && a in keys
    ensures Occurrences(keys, a) == 1
  {
    if keys[0] == a {
      OccursNever(keys[1..], a);
    } else {
      OccursOnce(keys[1..], a);
    }
  }

  lemma {:induction false} OccursNever(keys: seq<string>, a: string)
    requires a !in keys
    ensures Occurrences(keys, a) == 0
  {
    if keys != [] {
      OccursNever(keys[1..], a);
    }
  }

  lemma {:induction false} CountOverSnoc(keys: seq<string>, works: seq<Work>, w: Work)
    ensures CountOver(keys, works + [w]) == CountOver(keys, works) + Occurrences(keys, w.author)
  {
    assert (works + [w])[..|works|] == works;
    if keys != [] {
      CountOverSnoc(keys[1..], works, w);
    }
  }

  lemma {:induction false} CountOverAll(keys: seq<string>, works: seq<Work>)
    requires Distinct(keys) && AuthorSet(works) <= Elements(keys)
    ensures CountOver(keys, works) == |works|
  {
    if works == [] {
      CountOverEmpty(keys);
    } else {
      var init, last := works[..|works| - 1], works[|works| - 1];
      assert works == init + [last];
      assert AuthorSet(init) <= AuthorSet(works);
      CountOverAll(keys, init);
      CountOverSnoc(keys, init, last);
      assert last.author in AuthorSet(works);
      OccursOnce(keys, last.author);
    }
  }

  lemma {:induction false} CountOverEmpty(keys: seq<string>)
    ensures CountOver(keys, []) == 0
  {
    if keys != [] {
      CountOverEmpty(keys[1..]);
    }
  }

  lemma {:induction false} SumSizesIsCountOver(works: seq<Work>, groups: seq<AuthorGroup>)
    requires forall i :: 0 <= i < |groups| ==> groups[i].entries == WorksBy(works, groups[i].author)
    ensures SumSizes(groups) == CountOver(KeysOf(groups), works)
  {
    if groups != [] {
      assert KeysOf(groups)[1..] == KeysOf(groups[1..]);
      SumSizesIsCountOver(works, groups[1..]);
    }
  }

  /** The sections' sizes add up to the number of works: every work is listed
      once, under its own author. */
  lemma {:induction false} GroupSizesAddUp(works: seq<Work>, groups: seq<AuthorGroup>)
    requires IsAuthorIndex(works, groups)
    ensures SumSizes(groups) == |works|
  {
    var keys := KeysOf(groups);
    forall i, j | 0 <= i < j < |keys| ensures keys[i] != keys[j] {
      if keys[i] == keys[j] { LessIrreflexive(keys[i]); }
    }
    SumSizesIsCountOver(works, groups);
    CountOverAll(keys, works);
  }

  /** Two works by one author make the author total smaller than the work
      total: the store's sample rows list 太宰治 twice among five works, so its
      index page counts four authors. */
  lemma {:induction false} SharedAuthorLowersTotal(works: seq<Work>, i: nat, j: nat)
    requires i < j < |works| && works[i].author == works[j].author
    ensures |AuthorSet(works)| < |works|
  {
    TotalsBounds(works);
    assert AuthorsOf(works)[i] == AuthorsOf(works)[j];
  }
}
