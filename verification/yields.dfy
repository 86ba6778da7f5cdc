/**
 * What a spider's `parse` callback yields, in generator order: scraped items
 * and requests to follow a link (the href as found on the page; resolving it
 * against the page URL is done by the framework).
 */
module Yields {
  datatype Yielded<I> = Emit(item: I) | Follow(href: string)

  /** The items among the yielded values, in order. */
  function Items<I>(out: seq<Yielded<I>>): seq<I> {
    if out == [] then []
    else (if out[0].Emit? then [out[0].item] else []) + Items(out[1..])
  }

  /** The hrefs of the follow requests among the yielded values, in order. */
  function Follows<I>(out: seq<Yielded<I>>): seq<string> {
    if out == [] then []
    else (if out[0].Follow? then [out[0].href] else []) + Follows(out[1..])
  }

  /** One follow request per href, in order: no items, and exactly these hrefs. */
  function FollowAll<I>(hrefs: seq<string>): (out: seq<Yielded<I>>)
    ensures |out| == |hrefs|
    ensures Items(out) == [] && Follows(out) == hrefs
  {
    if hrefs == [] then [] else [Follow(hrefs[0])] + FollowAll(hrefs[1..])
  }
}
