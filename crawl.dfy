/**
 * The crawler's record of visited pages: a map from normalized URL to the
 * number of times a link to it was followed.
 */
module Crawl {

  /**
   * The map after one more visit of url. The visit adds url to the keys and
   * nothing else, sets its count to 1 when it is new and adds exactly one when
   * it is not, and leaves every other count alone.
   */
  function Visit(pages: map<string, int>, url: string): (r: map<string, int>)
    ensures r.Keys == pages.Keys + {url}
    ensures url !in pages ==> r[url] == 1
    ensures url in pages ==> r[url] == pages[url] + 1
    ensures forall k :: k in pages && k != url ==> r[k] == pages[k]
  {
    pages[url := if url in pages then pages[url] + 1 else 1]
  }

  /** A visit adds one entry for a new page and none for a known one. */
  lemma {:induction false} VisitSize(pages: map<string, int>, url: string)
    ensures |Visit(pages, url).Keys| == |pages.Keys| + (if url in pages then 0 else 1)
  {
  }

  /** The crawler's configuration; only the page tally is modelled. */
  class Config {
    var pages: map<string, int>

    constructor(pages: map<string, int>)
      ensures this.pages == pages
    {
      this.pages := pages;
    }

    /**
     * addPageVisit: counts a visit of normalizedURL and reports whether it is
     * the first one.
     */
    method AddPageVisit(normalizedURL: string) returns (isFirst: bool)
      modifies this
      ensures isFirst <==> normalizedURL !in old(pages)
      ensures pages == Visit(old(pages), normalizedURL)
    {
      if normalizedURL in pages {
        pages := pages[normalizedURL := pages[normalizedURL] + 1];
        return false;
      }
      pages := pages[normalizedURL := 1];
      return true;
    }
  }

  /**
   * Visits commute: whichever of two crawls takes the lock first, the tally
   * after both is the same.
   */
  lemma {:induction false} VisitCommutes(pages: map<string, int>, a: string, b: string)
    ensures Visit(Visit(pages, a), b) == Visit(Visit(pages, b), a)
  {
    if a != b {
      var ab, ba := Visit(Visit(pages, a), b), Visit(Visit(pages, b), a);
      assert ab.Keys == ba.Keys;
      assert forall k :: k in ab ==> ab[k] == ba[k];
    }
  }

  /** The tally a crawl that starts from an empty map leaves after visiting urls in turn. */
  function Tally(urls: seq<string>): map<string, int> {
    if |urls| == 0 then map[] else Visit(Tally(urls[..|urls| - 1]), urls[|urls| - 1])
  }

  /** How often x occurs in s. */
  function Occurrences(s: seq<string>, x: string): nat {
    if |s| == 0 then 0 else Occurrences(s[..|s| - 1], x) + (if s[|s| - 1] == x then 1 else 0)
  }

  /**
   * After a run of visits from an empty map, the pages recorded are exactly
   * the URLs visited, each with the number of times it was visited.
   */
  lemma {:induction false} TallyCounts(urls: seq<string>)
    ensures forall k :: k in Tally(urls) <==> k in urls
    ensures forall k :: k in Tally(urls) ==> Tally(urls)[k] == Occurrences(urls, k)
  {
    if |urls| > 0 {
      var prefix, last := urls[..|urls| - 1], urls[|urls| - 1];
      TallyCounts(prefix);
      assert urls == prefix + [last];
      forall k
        ensures k in urls <==> k in prefix || k == last
      {
      }
      OccursIff(prefix, last);
    }
  }

  /** x occurs in s a positive number of times exactly when it is in s. */
  lemma {:induction false} OccursIff(s: seq<string>, x: string)
    ensures Occurrences(s, x) > 0 <==> x in s
  {
    if |s| > 0 {
      var prefix := s[..|s| - 1];
      OccursIff(prefix, x);
      assert s == prefix + [s[|s| - 1]];
    }
  }

  /**
   * In a run of visits from an empty map, AddPageVisit answers true for a URL
   * exactly at its first occurrence.
   */
  lemma {:induction false} FirstVisitOnce(urls: seq<string>, i: nat)
    requires i < |urls|
    ensures urls[i] !in Tally(urls[..i]) <==> urls[i] !in urls[..i]
  {
    TallyCounts(urls[..i]);
  }
}
