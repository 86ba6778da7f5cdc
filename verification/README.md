# Climate-finance crawler and barrier analysis: a Dafny model

The repository scrapes pages from a few institutional sites (OECD, World Bank,
Google Scholar) with two Scrapy spiders, writes one JSON-Lines record
`{url, titles, content}` per page, and then classifies each record's text
against a fixed table of barrier categories (political, economic, technical,
social) by case-insensitive keyword search.

The project models three parts of the repository: the barrier analysis and the `parse` method of each of the two spiders.

- **Barrier analysis** (`analysis/analyze.py`). `find_barriers` scans the
  `barrier_keywords` table with two nested loops. For each keyword that occurs
  in the lowered text it appends a `{category, barrier}` pair. The per-record
  loop of `analyze` joins a record's `content` with single spaces and strips
  the result. It skips records whose text is then empty and emits
  `{url, barriers}` for the others. `FindBarriers` and `AnalyzeRecords` are
  methods with loops. Each is proved equal to a specification function
  (`Barriers`, `Analysis`), and lemmas prove the properties of those functions.
- **Page parsing, first spider** (`crawler/crawler.py`). `parse` takes the
  `//div[contains(@class,"content")]/text()` texts as the content, or the
  `<p>` texts when there are none. It always yields exactly one item
  `{url, titles: [title], content}`, and then a follow request for each href
  that is non-empty and contains `article`.
- **Page parsing, second spider** (`crawler/spider.py`). `parse` yields an item
  `{url, titles: h1/h2 texts, content: p texts}` only when one of the two
  lists is non-empty. It then yields a follow request for each non-empty href
  starting with `/`, whether or not an item was produced.

Both `parse` functions are pure functions from the selector results of a
response to the sequence of values the generator yields
(`Yields.Yielded`: `Emit(item)` or `Follow(href)`). That sequence keeps the
generator's order.

Modules:

| file | module | contents |
|---|---|---|
| wrappers.dfy | `Wrappers` | `Option`, for `.get()` results and missing keys |
| text.dfy | `Text` | Python's `str.isspace`, `strip`, `" ".join`, `lower` (ASCII), `in` and `startswith` on strings, with their lemmas |
| seqs.dfy | `Seqs` | order-preserving `Filter`, which is the shape of every list the code builds, and lemmas on subsequences, multiplicities and membership |
| yields.dfy | `Yields` | what a `parse` generator yields |
| analyze.dfy | `Analyze` | analysis/analyze.py |
| crawler.dfy | `Crawler` | crawler/crawler.py |
| spider.dfy | `Spider` | crawler/spider.py |

Behaviour of the code that the model keeps as written:

- The first spider has no heading fallback and no title fallback.
- Neither spider discards whitespace-only text nodes.
- The first spider emits an item even when its content is empty.
- Neither spider has a frontier, visited set or scope filter of its own. Those
  belong to the framework.

## Model

| member | source | states |
|---|---|---|
| `Analyze.FindBarriers` | analysis/analyze.py:27-35 | The nested loops over the table return exactly `Barriers(text)`: the table's (category, keyword) pairs whose lowered keyword occurs in the lowered text, in table order |
| `Analyze.BarrierKeywordsShape` | analysis/analyze.py:13-18 | The keyword table has 20 (category, keyword) pairs. No category repeats, and no category lists a keyword twice |
| `Analyze.FlattenMembership` | analysis/analyze.py:30-31 | A pair is among the pairs the loops visit exactly when some table entry has that category and lists that keyword |
| `Analyze.FlattenDistinct` | analysis/analyze.py:13-18 | A table with distinct categories and distinct keywords per category yields each pair once |
| `Analyze.BarriersSound` | analysis/analyze.py:30-34 | Every reported barrier has a category of the table and one of that category's keywords, and the lowered keyword occurs in the lowered text |
| `Analyze.BarriersComplete` | analysis/analyze.py:30-34 | Every (category, keyword) pair of the table whose lowered keyword occurs in the lowered text is reported |
| `Analyze.BarriersOrderedAndDistinct` | analysis/analyze.py:13-34 | The result is a subsequence of the table's pairs in table order (category first, keyword second). It has at most 20 entries and no pair twice |
| `Analyze.BarriersCaseInsensitive` | analysis/analyze.py:33 | Lowering the text first does not change the result |
| `Analyze.AnalyzeRecords` | analysis/analyze.py:41-68 | The loop with `continue` returns exactly `Analysis(data)` |
| `Analyze.SkippedIffBlank` | analysis/analyze.py:46-52 | A record is skipped exactly when every content string is whitespace-only, which includes an empty content list. A missing `content` key counts as an empty list, so that record is skipped |
| `Analyze.AnalysisIsFilterMap` | analysis/analyze.py:44-68 | The output is the records with non-empty text, in input order, each mapped to `{url, barriers of its own text}` |
| `Analyze.AnalysisSpec` | analysis/analyze.py:44-68 | There are at most as many findings as records. The output is the reports of some subsequence of the input records, so it keeps input order. A finding is in the output exactly when it reports some analysed record with that record's url and barriers |
| `Analyze.KeywordsTrimmed` | analysis/analyze.py:13-18 | Every keyword is non-empty and has no whitespace at either end |
| `Analyze.ContentOccurrenceSurvives` | analysis/analyze.py:46-47 | A needle with no whitespace at its ends that occurs in one lowered content string still occurs after joining with spaces, stripping and lowering |
| `Analyze.ReportedWhenInContent` | analysis/analyze.py:44-65 | A table keyword that occurs case-insensitively in any one content string makes the record analysed, and the keyword's pair is among that record's barriers |
| `Text.TrimStartSpec` | analysis/analyze.py:47 | The result is a suffix of the input, only whitespace was removed, and the result does not start with whitespace |
| `Text.TrimEndSpec` | analysis/analyze.py:47 | The result is a prefix of the input, only whitespace was removed, and the result does not end with whitespace |
| `Text.StripMargins` | analysis/analyze.py:47 | `strip()` returns `s[a..b]`, where everything before `a` and from `b` on is whitespace and the kept slice has non-whitespace ends |
| `Text.StripSpec` | analysis/analyze.py:47-50 | The stripped text is empty exactly when the input is all whitespace. Otherwise its first and last characters are not whitespace. It is a slice of the input with only whitespace outside it |
| `Text.JoinAllSpace` | analysis/analyze.py:47 | With a whitespace separator, the joined text is all whitespace exactly when every part is |
| `Text.JoinContainsPart` | analysis/analyze.py:47 | Every content string occurs in the space-joined text |
| `Text.LowerSpec` | analysis/analyze.py:33 | Lowering keeps the length and leaves no upper-case ASCII letter. Each letter `A`..`Z` becomes its own lower-case letter (code point plus 32), and every other character is unchanged |
| `Text.LowerIdempotent` | analysis/analyze.py:33 | Lowering twice is lowering once |
| `Text.LowerCharSpace` | analysis/analyze.py:33 | Lowering a character neither creates nor removes whitespace |
| `Text.ContainsLower` | analysis/analyze.py:33 | If `needle` occurs in `hay`, then `needle.lower()` occurs in `hay.lower()` |
| `Text.ContainsTransitive` | analysis/analyze.py:33 | The substring relation `in` is transitive |
| `Text.LowerStrip` | analysis/analyze.py:47 | Lowering commutes with `strip()` |
| `Text.StripKeepsOccurrence` | analysis/analyze.py:47 | Stripping keeps every occurrence of a needle that has no whitespace at either end |
| `Seqs.Filter` | crawler/crawler.py:72-74 | The kept elements are no more than the input, and each one satisfies the test |
| `Seqs.FilterEmbedding` | crawler/crawler.py:72-74 | Filtering keeps elements at strictly increasing positions of the input, so page order is kept |
| `Seqs.FilterIsSubsequence` | crawler/crawler.py:72-74 | The filtered list is a subsequence of the input |
| `Seqs.FilterMembership` | crawler/crawler.py:72-74 | An element is kept exactly when it occurs in the input and passes the test |
| `Seqs.FilterMultiplicity` | crawler/crawler.py:72-74 | Each accepted element is kept as often as it occurs, so duplicates are kept. Rejected elements are never kept |
| `Seqs.FilterCongruence` | analysis/analyze.py:33 | Two tests that agree on every element keep the same elements |
| `Seqs.SubsequenceOfDistinct` | analysis/analyze.py:30-34 | A subsequence of a list without repetitions has no repetitions |
| `Seqs.MapFilterMembership` | analysis/analyze.py:44-68 | Filtering and then mapping yields exactly the images of the accepted elements |
| `Yields.FollowAll` | crawler/crawler.py:72-74 | One follow request per href, in order, and no items |
| `Crawler.Parse` | crawler/crawler.py:48-74 | The item is yielded first and is the only item, even when its content is empty. Its url is the response url. Its titles list holds just the `<title>` text, which may be absent. Its content is the "content"-div texts when there are any and the `<p>` texts otherwise. The followed hrefs are the article links among the page hrefs |
| `Crawler.ParseFollowsArticleLinks` | crawler/crawler.py:72-74 | The followed hrefs are exactly the non-empty hrefs containing `article`, in page order, each as often as the page lists it |
| `Spider.Parse` | crawler/spider.py:14-27 | There is at most one item, and there is one exactly when the h1/h2 list or the `<p>` list is non-empty. The item is yielded before any follow request, with the response url, titles equal to the h1/h2 texts and content equal to the `<p>` texts. The followed hrefs are the site-relative links among the page hrefs |
| `Spider.ParseFollowsSiteRelativeLinks` | crawler/spider.py:25-27 | The followed hrefs are exactly the non-empty hrefs starting with `/`, in page order, each as often as the page lists it |
| `Spider.FollowsIndependentOfItem` | crawler/spider.py:18-27 | Which hrefs are followed depends only on the hrefs, not on whether an item was produced |

## Left out

- File and console I/O in analyze.py are not modelled: `load_data`, JSON parsing, creating the output directory, writing the output file, every `print`, and the 300-character content preview. The model starts from the loaded records and ends with the `output` list.
- A record without a `url` key is not modelled. Python raises `KeyError` there. In the model `url` is a required field, because every record the spiders write has one.
- `Text.Lower` folds only ASCII letters. Python's `str.lower` also lowers non-ASCII letters, so a keyword matched only through non-ASCII case folding is not captured.
- HTML selection (`response.xpath`, `response.css`) is framework code, so the selector results are inputs to `Parse`. Resolving a relative href into a request (`response.follow`) is also framework code, so the model records the href a request is made for.
- `Crawler.Parse` and `Spider.Parse` treat `response.follow` as never failing. URL joining raises `ValueError` on a malformed href that still passes the link tests (for example `//[article`). The generator then stops and the later follow requests are lost. The model yields a follow request for every href that passes the test.
- The three debug `print` calls in crawler/crawler.py:57-59 (url, title and content) are console output and are not modelled.
- Everything Scrapy does around `parse` is not part of this model: scheduling, duplicate-request filtering, the `allowed_domains` offsite check, depth limits, download delay, the user agent, robots.txt and redirects. The spiders configure these through `custom_settings` and crawler/settings.py but do not implement them.
- crawler/pipelines.py is not part of this model. It opens a file, writes each item as one JSON line, closes the file, and returns the item unchanged.
- crawler/settings.py is not part of this model. It holds configuration only.
- The item class that crawler/spider.py imports from `..items` is not part of the shown source. `Spider.ClimateFinanceItem` models it with the same three fields that crawler/crawler.py declares.
