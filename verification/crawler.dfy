/**
 * The decisions of `ClimateFinanceSpider.parse` in crawler/crawler.py. The
 * selector results of a response are taken as given: the `<title>` text (if
 * any), the texts directly under `div`s whose class contains "content", the
 * `<p>` texts and the anchor hrefs, each in page order.
 */
module Crawler {
  import opened Wrappers
  import opened Text
  import opened Seqs
  import opened Yields

  /** ClimateFinanceItem: `titles` holds the page title, which may be `None`. */
  datatype ClimateFinanceItem = ClimateFinanceItem(url: string, titles: seq<Option<string>>, content: seq<string>)

  /** The parts of a response that `parse` reads. */
  datatype Page = Page(
    url: string,
    title: Option<string>,
    contentDivTexts: seq<string>,
    paragraphTexts: seq<string>,
    hrefs: seq<string>)

  /** The link test `next_page and 'article' in next_page`. */
  predicate IsArticleLink(href: string) {
    href != "" && Contains(href, "article")
  }

  /**
   * parse: one item (content from the "content" divs, or from the paragraphs
   * when there are none), then one follow request per article link.
   */
  function Parse(response: Page): (out: seq<Yielded<ClimateFinanceItem>>)
    ensures |out| >= 1 && out[0].Emit?
    ensures Items(out) == [out[0].item]
    ensures out[0].item.url == response.url
    ensures out[0].item.titles == [response.title]
    ensures response.contentDivTexts != [] ==> out[0].item.content == response.contentDivTexts
    ensures response.contentDivTexts == [] ==> out[0].item.content == response.paragraphTexts
    ensures Follows(out) == Filter(response.hrefs, IsArticleLink)
  {
    var content := if response.contentDivTexts != [] then response.contentDivTexts else response.paragraphTexts;
    var item := ClimateFinanceItem(response.url, [response.title], content);
    [Emit(item)] + FollowAll(Filter(response.hrefs, IsArticleLink))
  }

  /**
   * The followed hrefs are exactly the non-empty hrefs containing "article":
   * in page order, each kept as often as the page lists it, no other.
   */
  lemma ParseFollowsArticleLinks(response: Page)
    ensures IsSubsequence(Follows(Parse(response)), response.hrefs)
    ensures forall h :: h in Follows(Parse(response)) <==> h in response.hrefs && IsArticleLink(h)
    ensures forall h :: multiset(Follows(Parse(response)))[h]
                         == if IsArticleLink(h) then multiset(response.hrefs)[h] else 0
  {
    FilterIsSubsequence(response.hrefs, IsArticleLink);
    forall h
      ensures h in Follows(Parse(response)) <==> h in response.hrefs && IsArticleLink(h)
      ensures multiset(Follows(Parse(response)))[h] == if IsArticleLink(h) then multiset(response.hrefs)[h] else 0
    {
      FilterMembership(response.hrefs, IsArticleLink, h);
      FilterMultiplicity(response.hrefs, IsArticleLink, h);
    }
  }
}
