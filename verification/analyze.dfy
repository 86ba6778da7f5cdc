/**
 * The barrier analysis of analysis/analyze.py: every scraped page record whose
 * joined, stripped content is non-empty is reported with the (category,
 * keyword) pairs of a fixed table whose keyword occurs in that text,
 * case-insensitively.
 */
module Analyze {
  import opened Wrappers
  import opened Text
  import opened Seqs

  /** One entry of the keyword table: a barrier category and its keywords. */
  datatype KeywordGroup = KeywordGroup(category: string, keywords: seq<string>)

  /** One barrier found in a text: `{"category": ..., "barrier": ...}`. */
  datatype Barrier = Barrier(category: string, barrier: string)

  /** A line of the scraped data; `content` is absent when the key is missing. */
  datatype ScrapedRecord = ScrapedRecord(url: string, content: Option<seq<string>>)

  /** A line of the processed data: `{"url": ..., "barriers": [...]}`. */
  datatype Finding = Finding(url: string, barriers: seq<Barrier>)

  /** The `barrier_keywords` table, in the dictionary's insertion order. */
  const BarrierKeywords: seq<KeywordGroup> := [
    KeywordGroup("political", ["policy", "governance", "political will", "corruption", "regulations"]),
    KeywordGroup("economic", ["funding", "cost", "investment", "resources", "financial"]),
    KeywordGroup("technical", ["capacity", "infrastructure", "technology", "data", "tools"]),
    KeywordGroup("social", ["community", "education", "awareness", "inequality", "participation"])
  ]

  // ---------------------------------------------------------------------------
  // find_barriers

  /** The (category, keyword) pairs of one group, in keyword order. */
  function Pairs(g: KeywordGroup): seq<Barrier> {
    seq(|g.keywords|, k requires 0 <= k < |g.keywords| => Barrier(g.category, g.keywords[k]))
  }

  /** All (category, keyword) pairs of a table: category order first, keyword order second. */
  function Flatten(table: seq<KeywordGroup>): seq<Barrier> {
    if table == [] then [] else Flatten(table[..|table| - 1]) + Pairs(table[|table| - 1])
  }

  /** The test `kw.lower() in text.lower()` for the pair's keyword. */
  function Occurs(text: string): Barrier -> bool {
    (b: Barrier) => Contains(Lower(text), Lower(b.barrier))
  }

  /** What `find_barriers(text)` returns: the table's pairs whose keyword occurs in `text`. */
  function Barriers(text: string): seq<Barrier> {
    Filter(Flatten(BarrierKeywords), Occurs(text))
  }

  /** One more group of the table adds that group's pairs at the end. */
  lemma FlattenSnoc(table: seq<KeywordGroup>, i: nat)
    requires i < |table|
    ensures Flatten(table[..i + 1]) == Flatten(table[..i]) + Pairs(table[i])
  {
    assert table[..i + 1][..i] == table[..i];
  }

  /** One more keyword of a group adds at most that keyword's pair at the end. */
  lemma FilterPairsSnoc(done: seq<Barrier>, g: KeywordGroup, j: nat, p: Barrier -> bool)
    requires j < |g.keywords|
    ensures Filter(done + Pairs(KeywordGroup(g.category, g.keywords[..j + 1])), p)
         == Filter(done + Pairs(KeywordGroup(g.category, g.keywords[..j])), p)
            + (if p(Barrier(g.category, g.keywords[j])) then [Barrier(g.category, g.keywords[j])] else [])
  {
    var before := done + Pairs(KeywordGroup(g.category, g.keywords[..j]));
    var after := done + Pairs(KeywordGroup(g.category, g.keywords[..j + 1]));
    assert after == before + [Barrier(g.category, g.keywords[j])];
    assert after[..|after| - 1] == before;
  }

  /** find_barriers: the nested loops over the table append each matching pair. */
  method FindBarriers(text: string) returns (found: seq<Barrier>)
    ensures found == Barriers(text)
  {
    var table := BarrierKeywords;
    found := [];
    for i := 0 to |table|
      invariant found == Filter(Flatten(table[..i]), Occurs(text))
    {
      var group := table[i];
      ghost var done := Flatten(table[..i]);
      assert done + Pairs(KeywordGroup(group.category, group.keywords[..0])) == done;
      for j := 0 to |group.keywords|
        invariant found == Filter(done + Pairs(KeywordGroup(group.category, group.keywords[..j])), Occurs(text))
      {
        var kw := group.keywords[j];
        FilterPairsSnoc(done, group, j, Occurs(text));
        if Contains(Lower(text), Lower(kw)) {
          found := found + [Barrier(group.category, kw)];
        }
      }
      assert group.keywords[..|group.keywords|] == group.keywords;
      FlattenSnoc(table, i);
    }
    assert table[..|table|] == table;
  }

  // ---------------------------------------------------------------------------
  // Properties of find_barriers

  /** A pair is in the flattened table exactly when some group has its category and keyword. */
  lemma {:induction false} FlattenMembership(table: seq<KeywordGroup>, b: Barrier)
    ensures b in Flatten(table)
        <==> exists i :: 0 <= i < |table| && table[i].category == b.category && b.barrier in table[i].keywords
  {
    if table != [] {
      var n := |table| - 1;
      FlattenMembership(table[..n], b);
      if b in Pairs(table[n]) {
        var k :| 0 <= k < |table[n].keywords| && Pairs(table[n])[k] == b;
        assert table[n].keywords[k] == b.barrier;
      }
      if exists i :: 0 <= i < |table| && table[i].category == b.category && b.barrier in table[i].keywords {
        var i :| 0 <= i < |table| && table[i].category == b.category && b.barrier in table[i].keywords;
        if i == n {
          var k :| 0 <= k < |table[n].keywords| && table[n].keywords[k] == b.barrier;
          assert Pairs(table[n])[k] == b;
        } else {
          assert table[..n][i] == table[i];
        }
      }
    }
  }

  /** No two groups share a category, and no group repeats a keyword. */
  ghost predicate WellFormed(table: seq<KeywordGroup>) {
    && (forall i, j :: 0 <= i < j < |table| ==> table[i].category != table[j].category)
    && (forall i :: 0 <= i < |table| ==> Distinct(table[i].keywords))
  }

  /** A well-formed table lists every (category, keyword) pair once. */
  lemma {:induction false} FlattenDistinct(table: seq<KeywordGroup>)
    requires WellFormed(table)
    ensures Distinct(Flatten(table))
  {
    if table != [] {
      var n := |table| - 1;
      var front := Flatten(table[..n]);
      var back := Pairs(table[n]);
      assert WellFormed(table[..n]);
      FlattenDistinct(table[..n]);
      forall x, y | 0 <= x < |front| && 0 <= y < |back|
        ensures front[x] != back[y]
      {
        FlattenMembership(table[..n], front[x]);
      }
      assert Flatten(table) == front + back;
    }
  }

  /** The table has 20 pairs and is well formed. */
  lemma BarrierKeywordsShape()
    ensures WellFormed(BarrierKeywords)
    ensures |Flatten(BarrierKeywords)| == 20
  {
    var t := BarrierKeywords;
    assert |Flatten(t[..1])| == 5 by { assert t[..1][..0] == []; }
    assert |Flatten(t[..2])| == 10 by { assert t[..2][..1] == t[..1]; }
    assert |Flatten(t[..3])| == 15 by { assert t[..3][..2] == t[..2]; }
    assert |Flatten(t)| == 20 by { assert t[..3] == t[..|t| - 1]; }
  }

  /**
   * Soundness: every reported barrier names a category of the table, one of
   * that category's keywords, and that keyword occurs in the lowered text.
   */
  lemma BarriersSound(text: string, b: Barrier)
    requires b in Barriers(text)
    ensures exists i ::
              0 <= i < |BarrierKeywords| && BarrierKeywords[i].category == b.category
              && b.barrier in BarrierKeywords[i].keywords
    ensures Contains(Lower(text), Lower(b.barrier))
  {
    FilterMembership(Flatten(BarrierKeywords), Occurs(text), b);
    FlattenMembership(BarrierKeywords, b);
  }

  /** Completeness: every keyword of the table that occurs in the lowered text is reported. */
  lemma BarriersComplete(text: string, i: int, kw: string)
    requires 0 <= i < |BarrierKeywords| && kw in BarrierKeywords[i].keywords
    requires Contains(Lower(text), Lower(kw))
    ensures Barrier(BarrierKeywords[i].category, kw) in Barriers(text)
  {
    var b := Barrier(BarrierKeywords[i].category, kw);
    FlattenMembership(BarrierKeywords, b);
    FilterMembership(Flatten(BarrierKeywords), Occurs(text), b);
  }

  /**
   * Order, bound and uniqueness: the result follows table order (category,
   * then keyword), has at most 20 entries and names no pair twice.
   */
  lemma BarriersOrderedAndDistinct(text: string)
    ensures IsSubsequence(Barriers(text), Flatten(BarrierKeywords))
    ensures |Barriers(text)| <= 20
    ensures Distinct(Barriers(text))
  {
    BarrierKeywordsShape();
    FlattenDistinct(BarrierKeywords);
    FilterIsSubsequence(Flatten(BarrierKeywords), Occurs(text));
    SubsequenceOfDistinct(Barriers(text), Flatten(BarrierKeywords));
  }

  /** Case-insensitivity: lowering the text first does not change the result. */
  lemma BarriersCaseInsensitive(text: string)
    ensures Barriers(text) == Barriers(Lower(text))
  {
    LowerIdempotent(text);
    FilterCongruence(Flatten(BarrierKeywords), Occurs(text), Occurs(Lower(text)));
  }

  // ---------------------------------------------------------------------------
  // The per-record loop of analyze

  /** `" ".join(item.get("content", [])).strip()` */
  function RecordText(item: ScrapedRecord): string {
    Strip(Join(" ", item.content.GetOr([])))
  }

  /** The record is analysed (its text is non-empty) rather than skipped. */
  predicate HasText(item: ScrapedRecord) {
    RecordText(item) != ""
  }

  /** The output line for an analysed record. */
  function Report(item: ScrapedRecord): Finding {
    Finding(item.url, Barriers(RecordText(item)))
  }

  /** The `output` list that `analyze` builds from the loaded records. */
  function Analysis(data: seq<ScrapedRecord>): seq<Finding> {
    if data == [] then []
    else
      var item := data[|data| - 1];
      Analysis(data[..|data| - 1]) + (if HasText(item) then [Report(item)] else [])
  }

  /** One more record adds at most that record's finding at the end. */
  lemma AnalysisSnoc(data: seq<ScrapedRecord>, i: int)
    requires 0 <= i < |data|
    ensures Analysis(data[..i + 1]) == Analysis(data[..i]) + (if HasText(data[i]) then [Report(data[i])] else [])
  {
    assert data[..i + 1][..i] == data[..i];
  }

  /** analyze without the file I/O and printing: skip empty texts, report the rest in order. */
  method AnalyzeRecords(data: seq<ScrapedRecord>) returns (output: seq<Finding>)
    ensures output == Analysis(data)
  {
    output := [];
    for i := 0 to |data|
      invariant output == Analysis(data[..i])
    {
      var item := data[i];
      AnalysisSnoc(data, i);
      var content := item.content.GetOr([]);
      var text := Strip(Join(" ", content));
      if text == "" {
        continue;
      }
      var barriers := FindBarriers(text);
      output := output + [Finding(item.url, barriers)];
    }
    assert data[..|data|] == data;
  }

  // ---------------------------------------------------------------------------
  // Properties of the per-record loop

  /**
   * The skip rule: a record is skipped exactly when its content is missing,
   * empty, or made of whitespace-only strings.
   */
  lemma SkippedIffBlank(item: ScrapedRecord)
    ensures !HasText(item) <==> forall k :: 0 <= k < |item.content.GetOr([])| ==> AllSpace(item.content.GetOr([])[k])
    ensures item.content == None ==> !HasText(item)
  {
    var parts := item.content.GetOr([]);
    assert AllSpace(" ");
    JoinAllSpace(" ", parts);
    StripSpec(Join(" ", parts));
  }

  /**
   * The output is the records that have text, in input order, each reported
   * with its own url and the barriers of its own text.
   */
  lemma {:induction false} AnalysisIsFilterMap(data: seq<ScrapedRecord>)
    ensures Analysis(data) == Map(Filter(data, HasText), Report)
  {
    if data != [] {
      AnalysisIsFilterMap(data[..|data| - 1]);
    }
  }

  /**
   * Exactly one finding per record with text, none for the others, in input
   * order; so there are never more findings than records.
   */
  lemma AnalysisSpec(data: seq<ScrapedRecord>)
    ensures |Analysis(data)| <= |data|
    ensures exists recs :: IsSubsequence(recs, data) && Analysis(data) == Map(recs, Report)
    ensures forall f :: f in Analysis(data) <==> exists item :: item in data && HasText(item) && f == Report(item)
  {
    AnalysisIsFilterMap(data);
    FilterIsSubsequence(data, HasText);
    MapFilterMembership(data, HasText, Report);
    var recs := Filter(data, HasText);
    assert IsSubsequence(recs, data) && Analysis(data) == Map(recs, Report);
  }

  /** Every keyword of the table is non-empty and neither starts nor ends with whitespace. */
  lemma KeywordsTrimmed(i: int, kw: string)
    requires 0 <= i < |BarrierKeywords| && kw in BarrierKeywords[i].keywords
    ensures kw != [] && !IsSpace(kw[0]) && !IsSpace(kw[|kw| - 1])
  {
  }

  /**
   * A needle without whitespace at its ends that occurs in one lowered content
   * string also occurs in the lowered, joined and stripped text.
   */
  lemma ContentOccurrenceSurvives(parts: seq<string>, k: int, needle: string)
    requires 0 <= k < |parts|
    requires needle != [] && !IsSpace(needle[0]) && !IsSpace(needle[|needle| - 1])
    requires Contains(Lower(parts[k]), needle)
    ensures Contains(Lower(Strip(Join(" ", parts))), needle)
  {
    var joined := Join(" ", parts);
    JoinContainsPart(" ", parts, k);
    ContainsLower(joined, parts[k]);
    ContainsTransitive(Lower(joined), Lower(parts[k]), needle);
    StripKeepsOccurrence(Lower(joined), needle);
    LowerStrip(joined);
  }

  /**
   * End to end: a table keyword that occurs, case-insensitively, in any one
   * content string of a record makes the record analysed and is reported
   * among its barriers.
   */
  lemma ReportedWhenInContent(item: ScrapedRecord, k: int, i: int, kw: string)
    requires 0 <= k < |item.content.GetOr([])|
    requires 0 <= i < |BarrierKeywords| && kw in BarrierKeywords[i].keywords
    requires Contains(Lower(item.content.GetOr([])[k]), Lower(kw))
    ensures HasText(item)
    ensures Barrier(BarrierKeywords[i].category, kw) in Report(item).barriers
  {
    KeywordsTrimmed(i, kw);
    LowerCharSpace(kw[0]);
    LowerCharSpace(kw[|kw| - 1]);
    ContentOccurrenceSurvives(item.content.GetOr([]), k, Lower(kw));
    BarriersComplete(RecordText(item), i, kw);
  }
}
