/**
 * The decisions of `ClimateFinanceSpider.parse` in crawler/spider.py. The
 * selector results of a response are taken as given: the h1/h2 texts, the
 * `<p>` texts and the anchor hrefs, each in page order.
 */
module Spider {
  import opened Text
  import opened Seqs
  import opened Yields

  /** The item this spider fills: all three fields are lists of strings or a string. */
  datatype ClimateFinanceItem = ClimateFinanceItem(url: string, titles: seq<string>, content: seq<string>)

  /** The parts of a response that `parse` reads. */
  datatype Page = Page(url: string, headingTexts: seq<string>, paragraphTexts: seq<string>, hrefs: seq<string>)

  /** The link test `next_page and next_page.startswith('/')`. */
  predicate IsSiteRelativeLink(href: string) {
    href != "" && StartsWith(href, "/")
  }

  /**
   * parse: an item only when the page has headings or paragraphs, then one
   * follow request per href starting with '/'.
   */
  function Parse(response: Page): (out: seq<Yielded<ClimateFinanceItem>>)
    ensures |Items(out)| <= 1
    ensures Items(out) != [] <==> response.headingTexts != [] || response.paragraphTexts != []
    ensures Items(out) != [] ==> out[0] == Emit(Items(out)[0])
    ensures Items(out) != [] ==> Items(out)[0].url == response.url
    ensures Items(out) != [] ==> Items(out)[0].titles == response.headingTexts
    ensures Items(out) != [] ==> Items(out)[0].content == response.paragraphTexts
    ensures Follows(out) == Filter(response.hrefs, IsSiteRelativeLink)
  {
    var follows := FollowAll(Filter(response.hrefs, IsSiteRelativeLink));
    if response.headingTexts != [] || response.paragraphTexts != [] then
      [Emit(ClimateFinanceItem(response.url, response.headingTexts, response.paragraphTexts))] + follows
    else
      follows
  }

  /**
   * The followed hrefs are exactly the non-empty hrefs starting with '/': in
   * page order, each kept as often as the page lists it, no other.
   */
  lemma ParseFollowsSiteRelativeLinks(response: Page)
    ensures IsSubsequence(Follows(Parse(response)), response.hrefs)
    ensures forall h :: h in Follows(Parse(response)) <==> h in response.hrefs && IsSiteRelativeLink(h)
    ensures forall h :: multiset(Follows(Parse(response)))[h]
                         == if IsSiteRelativeLink(h) then multiset(response.hrefs)[h] else 0
  {
    FilterIsSubsequence(response.hrefs, IsSiteRelativeLink);
    forall h
      ensures h in Follows(Parse(response)) <==> h in response.hrefs && IsSiteRelativeLink(h)
      ensures multiset(Follows(Parse(response)))[h] == if IsSiteRelativeLink(h) then multiset(response.hrefs)[h] else 0
    {
      FilterMembership(response.hrefs, IsSiteRelativeLink, h);
      FilterMultiplicity(response.hrefs, IsSiteRelativeLink, h);
    }
  }

  /** Which links are followed depends only on the hrefs, not on whether an item was produced. */
  lemma FollowsIndependentOfItem(r1: Page, r2: Page)
    requires r1.hrefs == r2.hrefs
    ensures Follows(Parse(r1)) == Follows(Parse(r2))
  {
  }
}
