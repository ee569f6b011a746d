/**
 * The overlap figures the search endpoint reports: how many PubMed ids only
 * one source found, and how many results were duplicates, by shared PubMed
 * id or by near-identical title.
 */
module Coverage {
  import opened Deduplication

  datatype OverlapCounts = OverlapCounts(uniqueToPubmed: int, uniqueToSemantic: int, duplicateCount: int)

  /**
   * The counts for the PubMed ids of each source, the rows Semantic Scholar
   * found without a PubMed id, and the combined table before deduplication.
   */
  function CountOverlap(pubmedIds: seq<string>, semanticIds: seq<string>, nonPubmed: seq<Row>,
                        full: seq<Row>, ratio: (string, string) -> int): (c: OverlapCounts)
    requires HasTitles(full)
  {
    var p := set x | x in pubmedIds;
    var s := set x | x in semanticIds;
    OverlapCounts(
      |p - s|,
      |nonPubmed| + |s - p|,
      |p * s| + (|full| - |Deduplicated(full, ratio)|))
  }

  /**
   * Every PubMed id is unique to PubMed or shared, and every Semantic
   * Scholar result is without a PubMed id, unique or shared.
   */
  lemma OverlapPartitions(pubmedIds: seq<string>, semanticIds: seq<string>, nonPubmed: seq<Row>,
                          full: seq<Row>, ratio: (string, string) -> int)
    requires HasTitles(full)
    ensures var c := CountOverlap(pubmedIds, semanticIds, nonPubmed, full, ratio);
      var p, s := set x | x in pubmedIds, set x | x in semanticIds;
      && c.uniqueToPubmed + |p * s| == |p|
      && c.uniqueToSemantic + |p * s| == |nonPubmed| + |s|
      && c.uniqueToPubmed + c.uniqueToSemantic + |p * s| == |p + s| + |nonPubmed|
  {
    var p, s := set x | x in pubmedIds, set x | x in semanticIds;
    DifferencePlusCommon(p, s);
    DifferencePlusCommon(s, p);
    assert s * p == p * s;
    assert p + s == (p - s) + s;
    assert (p - s) * s == {};
  }

  lemma DifferencePlusCommon(a: set<string>, b: set<string>)
    ensures |a - b| + |a * b| == |a|
  {
    assert a == (a - b) + (a * b);
    assert (a - b) * (a * b) == {};
  }

  /**
   * The duplicate count is at least the number of shared PubMed ids and
   * counts at most every row but the first as a title duplicate.
   */
  lemma DuplicateCountBounds(pubmedIds: seq<string>, semanticIds: seq<string>, nonPubmed: seq<Row>,
                             full: seq<Row>, ratio: (string, string) -> int)
    requires HasTitles(full)
    ensures var c := CountOverlap(pubmedIds, semanticIds, nonPubmed, full, ratio);
      var shared := (set x | x in pubmedIds) * (set x | x in semanticIds);
      && |shared| <= c.duplicateCount
      && (full != [] ==> c.duplicateCount <= |shared| + |full| - 1)
  {
    DeduplicatedIsSubsequence(full, ratio);
  }
}
