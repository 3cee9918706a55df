/**
 * The page-URL generator of the scraper (`Scrape._get_links`): the bare
 * listing URL, then the same URL with `?page=i` for i in `range(2, 665)`.
 * Fetching, parsing and writing the pages are outside this model.
 */
module Scrape {
  import opened Wrappers
  import opened Text

  const BaseUrl: string := "http://www.politifact.com/truth-o-meter/statements/"
  const PageQuery: string := "?page="

  /** First and one-past-last page number of `range(2, 665)`. */
  const FirstPage: nat := 2
  const PageLimit: nat := 665

  /** `'...statements/?page={}'.format(i)`. */
  function PageUrl(i: nat): string {
    BaseUrl + PageQuery + Decimal(i)
  }

  /** The URLs for the page numbers of `range(lo, hi)`, in order. */
  function PageUrls(lo: nat, hi: nat): (r: seq<string>)
    ensures |r| == if lo <= hi then hi - lo else 0
    ensures forall k :: 0 <= k < |r| ==> r[k] == PageUrl(lo + k)
    decreases hi - lo
  {
    if hi <= lo then [] else [PageUrl(lo)] + PageUrls(lo + 1, hi)
  }

  /** Everything the generator yields, in the order it yields it. */
  function Links(): (r: seq<string>)
    ensures |r| == 664
    ensures r[0] == BaseUrl
    ensures forall k :: 1 <= k < |r| ==> r[k] == PageUrl(k + 1)
  {
    var pages := PageUrls(FirstPage, PageLimit);
    assert |pages| == 663;
    assert forall k :: 1 <= k < 1 + |pages| ==> ([BaseUrl] + pages)[k] == pages[k - 1];
    [BaseUrl] + pages
  }

  /** The page number a listing URL asks for: none for the bare URL. */
  function PageNumber(url: string): Option<nat>
  {
    var n := |BaseUrl + PageQuery|;
    if |url| > n && url[..n] == BaseUrl + PageQuery && AllDigits(url[n..]) then Some(ParseDecimal(url[n..]))
    else None
  }

  /** A page URL reads back as the page it asks for. */
  lemma PageUrlPageNumber(i: nat)
    ensures PageNumber(PageUrl(i)) == Some(i)
  {
    var prefix := BaseUrl + PageQuery;
    var url := PageUrl(i);
    assert url[..|prefix|] == prefix && url[|prefix|..] == Decimal(i);
    ParseDecimalOfDecimal(i);
  }

  /** Each generated URL reads back as its page: none for the first, k + 1 for the k-th after it. */
  lemma LinksPageNumbers()
    ensures PageNumber(Links()[0]) == None
    ensures forall k :: 1 <= k < |Links()| ==> PageNumber(Links()[k]) == Some(k + 1)
  {
    forall k | 1 <= k < |Links()|
      ensures PageNumber(Links()[k]) == Some(k + 1)
    {
      PageUrlPageNumber(k + 1);
    }
  }

  /** The generator never yields the same URL twice. */
  lemma LinksDistinct()
    ensures forall i, j :: 0 <= i < j < |Links()| ==> Links()[i] != Links()[j]
  {
    LinksPageNumbers();
    forall i, j | 0 <= i < j < |Links()|
      ensures Links()[i] != Links()[j]
    {
      assert PageNumber(Links()[i]) != PageNumber(Links()[j]);
    }
  }
}
