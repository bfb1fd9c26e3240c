/**
 * The crawler's report: one line per page found, pages with more internal
 * links to them first, ties broken by URL.
 */
module Report {
  import opened Strings
  import opened Strconv
  import opened MapWalk

  /** A page of the site and how many internal links to it were found. */
  datatype Page = Page(count: int, url: string)

  /**
   * SortPages: the comparator handed to the sort. Negative when a belongs
   * before b, positive when after, zero only for the same page.
   */
  function SortPages(a: Page, b: Page): (r: int)
    ensures -1 <= r <= 1
    ensures r == 0 <==> a == b
  {
    if a.count > b.count then -1
    else if a.count < b.count then 1
    else Compare(a.url, b.url)
  }

  /** a belongs before b: more links, or as many and a URL that sorts first. */
  predicate Before(a: Page, b: Page) {
    a.count > b.count || (a.count == b.count && LexLess(a.url, b.url))
  }

  /** SortPages puts the more linked page first and breaks ties by URL. */
  lemma {:induction false} SortPagesBefore(a: Page, b: Page)
    ensures SortPages(a, b) < 0 <==> Before(a, b)
  {
    CompareLess(a.url, b.url);
  }

  /** Swapping the pages negates the answer. */
  lemma {:induction false} SortPagesAntisymmetric(a: Page, b: Page)
    ensures SortPages(b, a) == -SortPages(a, b)
  {
    CompareAntisymmetric(a.url, b.url);
  }

  /** The order SortPages defines is transitive. */
  lemma {:induction false} SortPagesTransitive(a: Page, b: Page, c: Page)
    requires SortPages(a, b) <= 0 && SortPages(b, c) <= 0
    ensures SortPages(a, c) <= 0
  {
    if a.count == b.count && b.count == c.count && a != b && b != c {
      CompareTransitive(a.url, b.url, c.url);
    }
  }

  /** Every page sorts no later than the next one. */
  predicate Sorted(s: seq<Page>) {
    forall i, j :: 0 <= i < j < |s| ==> SortPages(s[i], s[j]) <= 0
  }

  /** p sorts no later than every page of s. */
  predicate FirstOf(p: Page, s: seq<Page>) {
    forall j :: 0 <= j < |s| ==> SortPages(p, s[j]) <= 0
  }

  /** Putting a page in front of a sorted list that it sorts before keeps it sorted. */
  lemma {:induction false} SortedCons(p: Page, s: seq<Page>)
    requires Sorted(s) && FirstOf(p, s)
    ensures Sorted([p] + s)
  {
    var r := [p] + s;
    assert forall j :: 1 <= j < |r| ==> r[j] == s[j - 1];
  }

  /** Whatever a page sorts before the head of a sorted list, it sorts before all of it. */
  lemma {:induction false} FirstOfHead(p: Page, s: seq<Page>)
    requires Sorted(s) && |s| > 0 && SortPages(p, s[0]) <= 0
    ensures FirstOf(p, s)
  {
    forall j | 0 <= j < |s|
      ensures SortPages(p, s[j]) <= 0
    {
      if j > 0 {
        SortPagesTransitive(p, s[0], s[j]);
      }
    }
  }

  /** Insert p into the sorted list s. */
  function Insert(p: Page, s: seq<Page>): (r: seq<Page>)
    requires Sorted(s)
    ensures Sorted(r)
    ensures multiset(r) == multiset(s) + multiset{p}
  {
    if |s| == 0 then
      [p]
    else if SortPages(p, s[0]) <= 0 then
      FirstOfHead(p, s);
      SortedCons(p, s);
      [p] + s
    else
      var tail := s[1..];
      assert s == [s[0]] + tail;
      SortedTail(s);
      SortPagesAntisymmetric(p, s[0]);
      var rest := Insert(p, tail);
      InsertFirst(s[0], p, tail, rest);
      SortedCons(s[0], rest);
      [s[0]] + rest
  }

  /** A page that sorts before p and before all of t sorts before p inserted into t. */
  lemma {:induction false} InsertFirst(h: Page, p: Page, t: seq<Page>, r: seq<Page>)
    requires FirstOf(h, t) && SortPages(h, p) <= 0
    requires multiset(r) == multiset(t) + multiset{p}
    ensures FirstOf(h, r)
  {
    forall j | 0 <= j < |r|
      ensures SortPages(h, r[j]) <= 0
    {
      assert r[j] in multiset(r);
      if r[j] != p {
        assert r[j] in multiset(t);
        var i :| 0 <= i < |t| && t[i] == r[j];
      }
    }
  }

  /**
   * slices.SortFunc with SortPages: the pages rearranged into SortPages
   * order. Only what the sort promises is modelled, a sorted permutation; the
   * algorithm the library uses is not.
   */
  function SortByPages(s: seq<Page>): (r: seq<Page>)
    ensures Sorted(r)
    ensures multiset(r) == multiset(s)
  {
    if |s| == 0 then []
    else
      assert s == [s[0]] + s[1..];
      Insert(s[0], SortByPages(s[1..]))
  }

  /**
   * SortPages is zero only for equal pages, so a sorted permutation is unique:
   * two sorted lists holding the same pages are the same list. Whatever the
   * sort algorithm, its result is determined.
   */
  lemma {:induction false} SortedUnique(a: seq<Page>, b: seq<Page>)
    requires Sorted(a) && Sorted(b) && multiset(a) == multiset(b)
    ensures a == b
  {
    assert |a| == |multiset(a)| == |multiset(b)| == |b|;
    if |a| > 0 {
      SameHead(a, b);
      SortedTail(a);
      SortedTail(b);
      SortedUnique(a[1..], b[1..]);
      assert a == [a[0]] + a[1..] && b == [b[0]] + b[1..];
    }
  }

  /** The rest of a sorted list is sorted, and its head sorts before all of it. */
  lemma {:induction false} SortedTail(s: seq<Page>)
    requires Sorted(s) && |s| > 0
    ensures Sorted(s[1..]) && FirstOf(s[0], s[1..])
  {
    assert forall k :: 0 <= k < |s| - 1 ==> s[1..][k] == s[k + 1];
  }

  /**
   * Two sorted lists with the same pages start with the same page, and what
   * follows it holds the same pages.
   */
  lemma {:induction false} SameHead(a: seq<Page>, b: seq<Page>)
    requires Sorted(a) && Sorted(b) && multiset(a) == multiset(b) && |a| == |b| > 0
    ensures a[0] == b[0] && multiset(a[1..]) == multiset(b[1..])
  {
    assert a[0] in multiset(b) && b[0] in multiset(a);
    var j :| 0 <= j < |b| && b[j] == a[0];
    var i :| 0 <= i < |a| && a[i] == b[0];
    assert SortPages(b[0], a[0]) <= 0;
    assert SortPages(a[0], b[0]) <= 0;
    SortPagesAntisymmetric(a[0], b[0]);
    MultisetTail(a);
    MultisetTail(b);
  }

  /** The rest of a list holds its pages less one copy of the head. */
  lemma {:induction false} MultisetTail(s: seq<Page>)
    requires |s| > 0
    ensures multiset(s[1..]) == multiset(s) - multiset{s[0]}
  {
    assert s == [s[0]] + s[1..];
  }

  /** From index k on, each page sorts no later than its neighbour to the right. */
  predicate ChainedFrom(s: seq<Page>, k: nat)
    decreases |s| - k
  {
    k + 1 >= |s| || (SortPages(s[k], s[k + 1]) <= 0 && ChainedFrom(s, k + 1))
  }

  /** A list whose neighbours are in order from index k on is sorted from there. */
  lemma {:induction false} SortedByNeighbours(s: seq<Page>, k: nat)
    requires ChainedFrom(s, k)
    ensures forall i, j :: k <= i < j < |s| ==> SortPages(s[i], s[j]) <= 0
    decreases |s| - k
  {
    if k + 1 < |s| {
      SortedByNeighbours(s, k + 1);
      forall j | k + 1 < j < |s|
        ensures SortPages(s[k], s[j]) <= 0
      {
        SortPagesTransitive(s[k], s[k + 1], s[j]);
      }
    }
  }

  /** A list already in SortPages order comes back unchanged. */
  lemma {:induction false} SortKeepsSorted(s: seq<Page>)
    requires Sorted(s)
    ensures SortByPages(s) == s
  {
    SortedUnique(SortByPages(s), s);
  }

  /** Empty and one-page lists are unchanged by the sort. */
  lemma {:induction false} SortShort(s: seq<Page>)
    requires |s| <= 1
    ensures SortByPages(s) == s
  {
    SortKeepsSorted(s);
  }

  /**
   * The sort of a list is any list with the same pages whose neighbours are
   * in SortPages order.
   */
  lemma {:induction false} SortsTo(input: seq<Page>, expected: seq<Page>)
    requires multiset(input) == multiset(expected)
    requires ChainedFrom(expected, 0)
    ensures SortByPages(input) == expected
  {
    SortedByNeighbours(expected, 0);
    SortedUnique(SortByPages(input), expected);
  }

  /** The first table case: counts in descending order. */
  lemma {:induction false} SortCountDescending(input: seq<Page>, expected: seq<Page>)
    requires input == [Page(5, "url1"), Page(1, "url2"), Page(3, "url3"), Page(10, "url4"), Page(7, "url5")]
    requires expected == [Page(10, "url4"), Page(7, "url5"), Page(5, "url1"), Page(3, "url3"), Page(1, "url2")]
    ensures SortByPages(input) == expected
  {
    assert ChainedFrom(expected, 3) && ChainedFrom(expected, 2) && ChainedFrom(expected, 1);
    SortsTo(input, expected);
  }

  /** The second table case: equal counts in URL order. */
  lemma {:induction false} SortAlphabetize(input: seq<Page>, expected: seq<Page>)
    requires input == [Page(1, "d"), Page(1, "a"), Page(1, "e"), Page(1, "b"), Page(1, "c")]
    requires expected == [Page(1, "a"), Page(1, "b"), Page(1, "c"), Page(1, "d"), Page(1, "e")]
    ensures SortByPages(input) == expected
  {
    assert ChainedFrom(expected, 3) && ChainedFrom(expected, 2) && ChainedFrom(expected, 1);
    SortsTo(input, expected);
  }

  /** The third table case: counts first, then URLs among equal counts. */
  lemma {:induction false} SortCountThenAlphabetize(input: seq<Page>, expected: seq<Page>)
    requires input == [Page(2, "d"), Page(1, "a"), Page(3, "e"), Page(1, "b"), Page(2, "c")]
    requires expected == [Page(3, "e"), Page(2, "c"), Page(2, "d"), Page(1, "a"), Page(1, "b")]
    ensures SortByPages(input) == expected
  {
    assert ChainedFrom(expected, 3) && ChainedFrom(expected, 2) && ChainedFrom(expected, 1);
    SortsTo(input, expected);
  }

  /** The banner PrintReport prints first, with the newline Println adds. */
  function ReportHeader(baseURL: string): (r: string)
    ensures |r| == 76 + |baseURL| && r[44..44 + |baseURL|] == baseURL
    ensures r[..1] == "\n" && r[30..44] == "\n  REPORT for "
    ensures r[1..30] == r[45 + |baseURL|..74 + |baseURL|] == seq(29, _ => '=')
    ensures r[44 + |baseURL|] == '\n' && r[|r| - 2..] == "\n\n"
  {
    var rule := "=============================";
    assert rule == seq(29, _ => '=');
    "\n" + rule + "\n  REPORT for " + baseURL + "\n" + rule + "\n" + "\n"
  }

  /** The line printed for one page. */
  function ReportLine(p: Page): (r: string)
    ensures var d := Itoa(p.count);
      && |r| == 26 + |d| + |p.url| && r[..6] == "Found " && r[6..6 + |d|] == d
      && r[6 + |d|..25 + |d|] == " internal links to " && r[25 + |d|..|r| - 1] == p.url
      && r[|r| - 1] == '\n'
  {
    var d := Itoa(p.count);
    var head, tail := "Found " + d, " internal links to " + p.url;
    assert head[..6] == "Found " && head[6..] == d;
    assert tail[..19] == " internal links to " && tail[19..] == p.url;
    var r := head + tail + "\n";
    assert r[..|head|] == head && r[|head|..|r| - 1] == tail;
    r
  }

  /** The lines printed for the pages, in their order. */
  function ReportLines(ps: seq<Page>): string {
    if |ps| == 0 then "" else ReportLines(ps[..|ps| - 1]) + ReportLine(ps[|ps| - 1])
  }

  /** Printing one more page adds its line at the end. */
  lemma {:induction false} ReportLinesStep(ps: seq<Page>, i: nat)
    requires i < |ps|
    ensures ReportLines(ps[..i + 1]) == ReportLines(ps[..i]) + ReportLine(ps[i])
  {
    var q := ps[..i + 1];
    assert q[..|q| - 1] == ps[..i];
  }

  /** The page for each name of `order`, with the count the map holds for it. */
  function PagesOf(pages: map<string, int>, order: seq<string>): (r: seq<Page>)
    requires forall i :: 0 <= i < |order| ==> order[i] in pages
    ensures |r| == |order|
    ensures forall i :: 0 <= i < |r| ==> r[i] == Page(pages[order[i]], order[i])
  {
    seq(|order|, i requires 0 <= i < |order| => Page(pages[order[i]], order[i]))
  }

  /**
   * The pages of the report in the order they are printed: one per entry of
   * the map, sorted.
   */
  ghost function ReportPages(pages: map<string, int>): seq<Page> {
    SortByPages(PagesOf(pages, Enumerate(pages.Keys)))
  }

  /** The whole report: the banner, then one line per page in report order. */
  ghost function Report(pages: map<string, int>, baseURL: string): string {
    ReportHeader(baseURL) + ReportLines(ReportPages(pages))
  }

  /** In a list whose elements are distinct, each element occurs once. */
  lemma {:induction false} DistinctOnce(s: seq<Page>)
    requires forall i, j :: 0 <= i < j < |s| ==> s[i] != s[j]
    ensures forall x :: multiset(s)[x] == if x in s then 1 else 0
  {
    if |s| > 0 {
      var t := s[1..];
      assert s == [s[0]] + t;
      assert forall i :: 0 <= i < |t| ==> t[i] == s[i + 1];
      DistinctOnce(t);
      assert s[0] !in t;
    }
  }

  /**
   * Listing the pages of the map in any complete order gives the same pages:
   * one per entry, each once.
   */
  lemma {:induction false} PagesOfAnyOrder(pages: map<string, int>, order: seq<string>)
    requires |order| == |pages.Keys|
    requires forall i :: 0 <= i < |order| ==> order[i] in pages
    requires forall i, j :: 0 <= i < j < |order| ==> order[i] != order[j]
    ensures forall x :: multiset(PagesOf(pages, order))[x] == if x.url in pages && x.count == pages[x.url] then 1 else 0
  {
    var r := PagesOf(pages, order);
    assert forall i, j :: 0 <= i < j < |r| ==> r[i] != r[j];
    DistinctOnce(r);
    Covers(order, pages.Keys);
    forall x
      ensures x in r <==> x.url in pages && x.count == pages[x.url]
    {
      if x.url in pages && x.count == pages[x.url] {
        var i :| 0 <= i < |order| && order[i] == x.url;
        assert r[i] == x;
      }
    }
  }

  /** Two complete walks of the map list the same pages. */
  lemma {:induction false} SamePagesAnyOrder(pages: map<string, int>, order: seq<string>, other: seq<string>)
    requires |order| == |pages.Keys| && |other| == |pages.Keys|
    requires forall i :: 0 <= i < |order| ==> order[i] in pages
    requires forall i, j :: 0 <= i < j < |order| ==> order[i] != order[j]
    requires forall i :: 0 <= i < |other| ==> other[i] in pages
    requires forall i, j :: 0 <= i < j < |other| ==> other[i] != other[j]
    ensures multiset(PagesOf(pages, order)) == multiset(PagesOf(pages, other))
  {
    PagesOfAnyOrder(pages, order);
    PagesOfAnyOrder(pages, other);
  }

  /**
   * The printed order does not depend on the order the map was walked in:
   * sorting the pages of any complete walk gives the report's pages.
   */
  lemma {:induction false} ReportOrderFree(pages: map<string, int>, order: seq<string>)
    requires |order| == |pages.Keys|
    requires forall i :: 0 <= i < |order| ==> order[i] in pages
    requires forall i, j :: 0 <= i < j < |order| ==> order[i] != order[j]
    ensures SortByPages(PagesOf(pages, order)) == ReportPages(pages)
  {
    var e := Enumerate(pages.Keys);
    var mine, theirs := PagesOf(pages, order), PagesOf(pages, e);
    SamePagesAnyOrder(pages, order, e);
    SortedUnique(SortByPages(mine), SortByPages(theirs));
  }

  /**
   * The report lists exactly one page per entry of the map, with the entry's
   * count, in SortPages order.
   */
  lemma {:induction false} ReportPagesSpec(pages: map<string, int>)
    ensures Sorted(ReportPages(pages))
    ensures |ReportPages(pages)| == |pages.Keys|
    ensures forall i :: 0 <= i < |ReportPages(pages)| ==>
      var p := ReportPages(pages)[i]; p.url in pages && p.count == pages[p.url]
    ensures forall k :: k in pages ==> Page(pages[k], k) in ReportPages(pages)
  {
    var r := ReportPages(pages);
    var e := Enumerate(pages.Keys);
    PagesOfAnyOrder(pages, e);
    assert |r| == |multiset(r)| == |multiset(PagesOf(pages, e))|;
    forall i | 0 <= i < |r|
      ensures r[i].url in pages && r[i].count == pages[r[i].url]
    {
      assert r[i] in multiset(r);
    }
    forall k | k in pages
      ensures Page(pages[k], k) in r
    {
      assert Page(pages[k], k) in multiset(r);
    }
  }

  /**
   * PrintReport: prints the banner, builds one page per map entry in the
   * map's iteration order, sorts them with SortPages and prints one line per
   * page. What is printed is returned.
   */
  method PrintReport(pages: map<string, int>, baseURL: string) returns (out: string)
    ensures out == Report(pages, baseURL)
  {
    out := ReportHeader(baseURL);
    var res;
    ghost var order;
    res, order := CollectPages(pages);
    ReportOrderFree(pages, order);
    res := SortByPages(res);
    out := AppendLines(out, res);
  }

  /**
   * PrintReport's first loop: one page per entry of the map, appended in the
   * order the map is walked in, which is returned as `order`.
   */
  method CollectPages(pages: map<string, int>) returns (res: seq<Page>, ghost order: seq<string>)
    ensures |order| == |pages.Keys|
    ensures forall i :: 0 <= i < |order| ==> order[i] in pages
    ensures forall i, j :: 0 <= i < j < |order| ==> order[i] != order[j]
    ensures res == PagesOf(pages, order)
    ensures |res| == |pages.Keys|
    ensures forall i :: 0 <= i < |res| ==> res[i].url in pages && res[i].count == pages[res[i].url]
    ensures forall i, j :: 0 <= i < j < |res| ==> res[i].url != res[j].url
    ensures forall k :: k in pages ==> Page(pages[k], k) in res
  {
    res := [];
    order := [];
    var remaining := pages.Keys;
    while remaining != {}
      invariant Walk(pages.Keys, order, remaining)
      invariant |res| == |order|
      invariant forall i :: 0 <= i < |res| ==> res[i] == Page(pages[order[i]], order[i])
      decreases |remaining|
    {
      var k :| k in remaining;
      res := res + [Page(pages[k], k)];
      WalkStep(pages.Keys, order, remaining, k);
      order := order + [k];
      remaining := remaining - {k};
    }
    Covers(order, pages.Keys);
    forall k | k in pages
      ensures Page(pages[k], k) in res
    {
      var i :| 0 <= i < |order| && order[i] == k;
      assert res[i] == Page(pages[k], k);
    }
  }

  /** PrintReport's last loop: the line of each page in turn, after `out`. */
  method AppendLines(out0: string, ps: seq<Page>) returns (out: string)
    ensures out == out0 + ReportLines(ps)
  {
    out := out0;
    var i := 0;
    while i < |ps|
      invariant 0 <= i <= |ps|
      invariant out == out0 + ReportLines(ps[..i])
    {
      ReportLinesStep(ps, i);
      ConcatAssoc(out0, ReportLines(ps[..i]), ReportLine(ps[i]));
      out := out + ReportLine(ps[i]);
      i := i + 1;
    }
    assert ps[..i] == ps;
  }
}
