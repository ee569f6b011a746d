/**
 * `deduplicate_papers`: a greedy pass over the rows in order in which every
 * row still kept knocks out each later row whose normalized title scores at
 * least the match threshold against its own.
 */
module Deduplication {
  import opened Titles

  /** A DataFrame row: column name to cell text. */
  type Row = map<string, string>

  const TitleColumn: string := "title"
  /** The temporary column holding each row's normalized title. */
  const NormalizedColumn: string := "normalized_title"

  // ---------------------------------------------------------------------
  // The keep mask on normalized titles

  /** No row before `i` that `mask` keeps scores `norms[j]` at the threshold or above. */
  predicate Survives(norms: seq<string>, ratio: (string, string) -> int, mask: seq<bool>, j: int, i: int)
    requires 0 <= j < |norms| && 0 <= i <= |mask| && i <= |norms|
  {
    forall p | 0 <= p < i :: mask[p] ==> ratio(norms[p], norms[j]) < MatchThreshold
  }

  /**
   * The mask the loop of `deduplicate_papers` computes, one row at a time:
   * a row is kept when no earlier kept row matches it.
   */
  function GreedyMask(norms: seq<string>, ratio: (string, string) -> int): (keep: seq<bool>)
    ensures |keep| == |norms|
    decreases |norms|
  {
    if norms == [] then []
    else
      var prev := GreedyMask(norms[..|norms| - 1], ratio);
      prev + [Survives(norms, ratio, prev, |norms| - 1, |norms| - 1)]
  }

  /** Any two rows a mask keeps are below the threshold, the earlier one scored first. */
  predicate KeptDissimilar(norms: seq<string>, ratio: (string, string) -> int, mask: seq<bool>)
    requires |mask| == |norms|
  {
    forall p, q | 0 <= p < q < |mask| && mask[p] && mask[q] :: ratio(norms[p], norms[q]) < MatchThreshold
  }

  /** Every row a mask drops is matched by an earlier row it keeps. */
  predicate DroppedWitnessed(norms: seq<string>, ratio: (string, string) -> int, mask: seq<bool>)
    requires |mask| == |norms|
  {
    forall q | 0 <= q < |mask| && !mask[q] ::
      exists p :: 0 <= p < q && mask[p] && ratio(norms[p], norms[q]) >= MatchThreshold
  }

  lemma {:induction false} GreedyMaskPrefix(norms: seq<string>, ratio: (string, string) -> int, k: int)
    requires 0 <= k <= |norms|
    ensures GreedyMask(norms[..k], ratio) == GreedyMask(norms, ratio)[..k]
    decreases |norms|
  {
    if k < |norms| {
      var n := |norms|;
      var prev := GreedyMask(norms[..n - 1], ratio);
      GreedyMaskPrefix(norms[..n - 1], ratio, k);
      assert norms[..n - 1][..k] == norms[..k];
      assert GreedyMask(norms, ratio)[..k] == prev[..k];
    } else {
      assert norms[..k] == norms;
    }
  }

  /** Each entry of the mask is decided by the entries before it. */
  lemma GreedyMaskAt(norms: seq<string>, ratio: (string, string) -> int, j: int)
    requires 0 <= j < |norms|
    ensures GreedyMask(norms, ratio)[j] == Survives(norms, ratio, GreedyMask(norms, ratio), j, j)
  {
    var g := GreedyMask(norms, ratio);
    var front := norms[..j + 1];
    GreedyMaskPrefix(norms, ratio, j + 1);
    GreedyMaskPrefix(norms, ratio, j);
    assert front[..j] == norms[..j];
    var prev := GreedyMask(norms[..j], ratio);
    assert g[j] == Survives(front, ratio, prev, j, j);
    assert forall p | 0 <= p < j :: prev[p] == g[p] && front[p] == norms[p];
  }

  /** The greedy mask keeps no two matching rows, drops only matched rows, and keeps the first row. */
  lemma GreedyMaskSound(norms: seq<string>, ratio: (string, string) -> int)
    ensures var g := GreedyMask(norms, ratio);
      && KeptDissimilar(norms, ratio, g)
      && DroppedWitnessed(norms, ratio, g)
      && (norms != [] ==> g[0])
  {
    GreedyMaskDecided(norms, ratio);
  }

  /** Every entry of the greedy mask at once, as `GreedyMaskAt` gives it. */
  lemma GreedyMaskDecided(norms: seq<string>, ratio: (string, string) -> int)
    ensures forall j | 0 <= j < |norms| ::
      GreedyMask(norms, ratio)[j] == Survives(norms, ratio, GreedyMask(norms, ratio), j, j)
  {
    var g := GreedyMask(norms, ratio);
    forall j | 0 <= j < |norms| ensures g[j] == Survives(norms, ratio, g, j, j) {
      GreedyMaskAt(norms, ratio, j);
    }
  }

  /** The greedy mask drops only rows matched by an earlier kept row. */
  lemma GreedyMaskWitnessed(norms: seq<string>, ratio: (string, string) -> int)
    ensures DroppedWitnessed(norms, ratio, GreedyMask(norms, ratio))
  {
    GreedyMaskDecided(norms, ratio);
  }

  /** A mask with both guarantees agrees with any mask whose every entry is decided greedily. */
  lemma {:induction false} MaskAgreesUpTo(norms: seq<string>, ratio: (string, string) -> int, mask: seq<bool>,
                                          g: seq<bool>, j: int)
    requires |mask| == |norms| == |g| && 0 <= j <= |norms|
    requires KeptDissimilar(norms, ratio, mask) && DroppedWitnessed(norms, ratio, mask)
    requires forall q | 0 <= q < |norms| :: g[q] == Survives(norms, ratio, g, q, q)
    ensures mask[..j] == g[..j]
  {
    if j > 0 {
      MaskAgreesUpTo(norms, ratio, mask, g, j - 1);
      MaskAgreesStep(norms, ratio, mask, g, j - 1);
    }
  }

  /** A mask with both guarantees that agrees with `g` before `q` agrees at `q` too. */
  lemma MaskAgreesStep(norms: seq<string>, ratio: (string, string) -> int, mask: seq<bool>, g: seq<bool>, q: int)
    requires |mask| == |norms| == |g| && 0 <= q < |norms|
    requires KeptDissimilar(norms, ratio, mask) && DroppedWitnessed(norms, ratio, mask)
    requires mask[..q] == g[..q]
    requires g[q] == Survives(norms, ratio, g, q, q)
    ensures mask[..q + 1] == g[..q + 1]
  {
    assert forall p | 0 <= p < q :: mask[p] == g[p] by {
      forall p | 0 <= p < q ensures mask[p] == g[p] {
        assert mask[..q][p] == g[..q][p];
      }
    }
    if mask[q] {
      assert Survives(norms, ratio, g, q, q);
    } else {
      var p :| 0 <= p < q && mask[p] && ratio(norms[p], norms[q]) >= MatchThreshold;
      assert g[p];
    }
    assert mask[..q + 1] == mask[..q] + [mask[q]];
    assert g[..q + 1] == g[..q] + [g[q]];
  }

  /**
   * The greedy mask is the only mask with both guarantees: keeping two
   * matching rows or dropping an unmatched one each contradict it.
   */
  lemma GreedyMaskUnique(norms: seq<string>, ratio: (string, string) -> int, mask: seq<bool>)
    requires |mask| == |norms|
    requires KeptDissimilar(norms, ratio, mask) && DroppedWitnessed(norms, ratio, mask)
    ensures mask == GreedyMask(norms, ratio)
  {
    GreedyMaskDecided(norms, ratio);
    var g := GreedyMask(norms, ratio);
    MaskAgreesUpTo(norms, ratio, mask, g, |norms|);
    assert mask == mask[..|norms|] && g == g[..|norms|];
  }

  lemma SurvivesStep(norms: seq<string>, ratio: (string, string) -> int, mask: seq<bool>, i: int, j: int)
    requires 0 <= i < |mask| && i < |norms| && 0 <= j < |norms|
    ensures Survives(norms, ratio, mask, j, i + 1) ==
      (Survives(norms, ratio, mask, j, i) && (mask[i] ==> ratio(norms[i], norms[j]) < MatchThreshold))
  {
  }

  /**
   * One round of the loop of `deduplicate_papers` for a kept row `i`: every
   * later row scoring at the threshold or above against row `i` is marked
   * as dropped.
   */
  method KnockOut(norms: seq<string>, ratio: (string, string) -> int, keep: seq<bool>, i: int)
    returns (keep': seq<bool>)
    requires |keep| == |norms| && 0 <= i < |norms|
    ensures |keep'| == |keep| && keep'[..i + 1] == keep[..i + 1]
    ensures forall m | i < m < |keep| :: keep'[m] == (keep[m] && ratio(norms[i], norms[m]) < MatchThreshold)
  {
    keep' := keep;
    var j := i + 1;
    while j < |norms|
      invariant i + 1 <= j <= |norms| && |keep'| == |keep|
      invariant keep'[..i + 1] == keep[..i + 1]
      invariant forall m | i < m < j :: keep'[m] == (keep[m] && ratio(norms[i], norms[m]) < MatchThreshold)
      invariant forall m | j <= m < |keep| :: keep'[m] == keep[m]
    {
      if ratio(norms[i], norms[j]) >= MatchThreshold {
        keep' := keep'[j := false];
      }
      j := j + 1;
    }
  }

  /**
   * One round of the loop keeps its invariant: afterwards the mask agrees
   * with `g`, read as the greedy mask, up to `i + 1`.
   */
  lemma KeepMaskStep(norms: seq<string>, ratio: (string, string) -> int, g: seq<bool>,
                     keep: seq<bool>, keep': seq<bool>, i: int)
    requires |keep| == |norms| == |keep'| == |g| && 0 <= i < |norms|
    requires g[i] == Survives(norms, ratio, g, i, i)
    requires keep[..i] == g[..i]
    requires forall j | i <= j < |norms| :: keep[j] == Survives(norms, ratio, g, j, i)
    requires keep'[..i + 1] == keep[..i + 1]
    requires forall m | i < m < |keep| ::
      keep'[m] == (keep[m] && (keep[i] ==> ratio(norms[i], norms[m]) < MatchThreshold))
    ensures keep'[..i + 1] == g[..i + 1]
    ensures forall j | i + 1 <= j < |norms| :: keep'[j] == Survives(norms, ratio, g, j, i + 1)
  {
    assert keep[i] == g[i];
    assert keep'[i] == keep[i] by {
      assert keep'[..i + 1][i] == keep[..i + 1][i];
    }
    assert keep'[..i] == keep[..i] by {
      assert keep'[..i] == keep'[..i + 1][..i];
      assert keep[..i] == keep[..i + 1][..i];
    }
    assert keep'[..i + 1] == keep'[..i] + [keep'[i]];
    assert g[..i + 1] == g[..i] + [g[i]];
    forall j | i + 1 <= j < |norms| ensures keep'[j] == Survives(norms, ratio, g, j, i + 1) {
      SurvivesStep(norms, ratio, g, i, j);
    }
  }

  /**
   * The loop of `deduplicate_papers`: each row still kept when its turn
   * comes knocks out the later rows that match it.
   */
  method KeepMask(norms: seq<string>, ratio: (string, string) -> int) returns (keep: seq<bool>)
    ensures keep == GreedyMask(norms, ratio)
  {
    ghost var g := GreedyMask(norms, ratio);
    keep := seq(|norms|, _ => true);
    var i := 0;
    while i < |norms|
      invariant 0 <= i <= |norms| && |keep| == |norms|
      invariant keep[..i] == g[..i]
      invariant forall j | i <= j < |norms| :: keep[j] == Survives(norms, ratio, g, j, i)
    {
      ghost var before := keep;
      if keep[i] {
        keep := KnockOut(norms, ratio, keep, i);
      }
      GreedyMaskAt(norms, ratio, i);
      KeepMaskStep(norms, ratio, g, before, keep, i);
      i := i + 1;
    }
    assert keep == keep[..i];
  }

  // ---------------------------------------------------------------------
  // Rows

  predicate HasTitles(rows: seq<Row>)
  {
    forall k | 0 <= k < |rows| :: TitleColumn in rows[k]
  }

  /** `df["title"].apply(normalize_title)`. */
  function Norms(rows: seq<Row>): (norms: seq<string>)
    requires HasTitles(rows)
    ensures |norms| == |rows|
    ensures forall k | 0 <= k < |rows| :: norms[k] == NormalizeTitle(rows[k][TitleColumn])
  {
    seq(|rows|, k requires 0 <= k < |rows| => NormalizeTitle(rows[k][TitleColumn]))
  }

  /** The positions a mask keeps, in increasing order. */
  function KeptIndices(keep: seq<bool>): (idx: seq<nat>)
    ensures forall t | 0 <= t < |idx| :: idx[t] < |keep| && keep[idx[t]]
    ensures forall t, u | 0 <= t < u < |idx| :: idx[t] < idx[u]
    ensures forall j | 0 <= j < |keep| && keep[j] :: j in idx
    ensures |idx| <= |keep|
    decreases |keep|
  {
    if keep == [] then []
    else
      var front := KeptIndices(keep[..|keep| - 1]);
      front + (if keep[|keep| - 1] then [|keep| - 1] else [])
  }

  /** The positions of the rows `deduplicate_papers` keeps. */
  function Kept(rows: seq<Row>, ratio: (string, string) -> int): seq<nat>
    requires HasTitles(rows)
  {
    KeptIndices(GreedyMask(Norms(rows), ratio))
  }

  /** `deduplicate_papers(df)`: the kept rows in order, without the temporary column. */
  function Deduplicated(rows: seq<Row>, ratio: (string, string) -> int): seq<Row>
    requires HasTitles(rows)
  {
    if rows == [] then rows
    else
      var idx := Kept(rows, ratio);
      seq(|idx|, t requires 0 <= t < |idx| => rows[idx[t]] - {NormalizedColumn})
  }

  /**
   * `deduplicate_papers(df)`: add the normalized titles as a column, run the
   * keep-mask loop, select the kept rows and drop the column again.
   */
  method DeduplicatePapers(rows: seq<Row>, ratio: (string, string) -> int) returns (result: seq<Row>)
    requires HasTitles(rows)
    ensures result == Deduplicated(rows, ratio)
  {
    if rows == [] {
      return rows;
    }
    var df := seq(|rows|, k requires 0 <= k < |rows| =>
      rows[k][NormalizedColumn := NormalizeTitle(rows[k][TitleColumn])]);
    var norms := seq(|df|, k requires 0 <= k < |df| => df[k][NormalizedColumn]);
    assert norms == Norms(rows);
    var keep := KeepMask(norms, ratio);
    var idx := KeptIndices(keep);
    result := seq(|idx|, t requires 0 <= t < |idx| => df[idx[t]] - {NormalizedColumn});
    forall t | 0 <= t < |idx| ensures result[t] == rows[idx[t]] - {NormalizedColumn} {
      DropAddedColumn(rows[idx[t]], NormalizeTitle(rows[idx[t]][TitleColumn]));
    }
  }

  /** Dropping a column just set gives back the row without that column. */
  lemma DropAddedColumn(r: Row, v: string)
    ensures r[NormalizedColumn := v] - {NormalizedColumn} == r - {NormalizedColumn}
  {
  }

  // ---------------------------------------------------------------------
  // What deduplication guarantees

  /**
   * The output is an order-preserving selection of the input rows, each
   * without the `normalized_title` column, and it starts with the first row.
   */
  lemma DeduplicatedIsSubsequence(rows: seq<Row>, ratio: (string, string) -> int)
    requires HasTitles(rows)
    ensures var result, idx := Deduplicated(rows, ratio), Kept(rows, ratio);
      && |result| == |idx| <= |rows|
      && (forall t, u | 0 <= t < u < |idx| :: idx[t] < idx[u])
      && (forall t | 0 <= t < |idx| :: idx[t] < |rows| && result[t] == rows[idx[t]] - {NormalizedColumn})
      && (forall t | 0 <= t < |result| :: NormalizedColumn !in result[t])
      && (rows != [] ==> result != [] && result[0] == rows[0] - {NormalizedColumn})
  {
    if rows != [] {
      var norms := Norms(rows);
      GreedyMaskAt(norms, ratio, 0);
      FirstKeptIndex(GreedyMask(norms, ratio));
    }
  }

  /** A mask keeping its first position lists that position first. */
  lemma FirstKeptIndex(keep: seq<bool>)
    requires keep != [] && keep[0]
    ensures KeptIndices(keep) != [] && KeptIndices(keep)[0] == 0
  {
    var idx := KeptIndices(keep);
    assert 0 in idx;
    var t :| 0 <= t < |idx| && idx[t] == 0;
    assert idx[0] <= idx[t];
  }

  /** No two rows kept have titles that `compare_paper_titles` matches, the earlier one first. */
  lemma KeptTitlesDistinct(rows: seq<Row>, ratio: (string, string) -> int)
    requires HasTitles(rows)
    ensures var idx := Kept(rows, ratio);
      forall t, u | 0 <= t < u < |idx| ::
        !CompareTitles(ratio, rows[idx[t]][TitleColumn], rows[idx[u]][TitleColumn])
  {
    var norms := Norms(rows);
    GreedyMaskSound(norms, ratio);
  }

  /** Every position the greedy mask drops is matched by an earlier kept position. */
  lemma DroppedMatchKept(norms: seq<string>, ratio: (string, string) -> int, j: int)
    requires 0 <= j < |norms| && j !in KeptIndices(GreedyMask(norms, ratio))
    ensures var idx := KeptIndices(GreedyMask(norms, ratio));
      exists t :: 0 <= t < |idx| && idx[t] < j && ratio(norms[idx[t]], norms[j]) >= MatchThreshold
  {
    var g := GreedyMask(norms, ratio);
    GreedyMaskWitnessed(norms, ratio);
    WitnessListed(norms, ratio, g, KeptIndices(g), j);
  }

  lemma WitnessListed(norms: seq<string>, ratio: (string, string) -> int, g: seq<bool>, idx: seq<nat>, j: int)
    requires |g| == |norms| && 0 <= j < |norms| && j !in idx
    requires DroppedWitnessed(norms, ratio, g)
    requires forall p | 0 <= p < |g| && g[p] :: p in idx
    ensures exists t :: 0 <= t < |idx| && idx[t] < j && ratio(norms[idx[t]], norms[j]) >= MatchThreshold
  {
    assert !g[j];
    var p :| 0 <= p < j && g[p] && ratio(norms[p], norms[j]) >= MatchThreshold;
    var t :| 0 <= t < |idx| && idx[t] == p;
  }

  /** Every row left out matches, by `compare_paper_titles`, an earlier row that is kept. */
  lemma DroppedRowsMatchKept(rows: seq<Row>, ratio: (string, string) -> int, j: int)
    requires HasTitles(rows) && 0 <= j < |rows| && j !in Kept(rows, ratio)
    ensures var idx := Kept(rows, ratio);
      exists t :: 0 <= t < |idx| && idx[t] < j &&
        CompareTitles(ratio, rows[idx[t]][TitleColumn], rows[j][TitleColumn])
  {
    var norms := Norms(rows);
    var idx := Kept(rows, ratio);
    DroppedMatchKept(norms, ratio, j);
    var t :| 0 <= t < |idx| && idx[t] < j && ratio(norms[idx[t]], norms[j]) >= MatchThreshold;
    assert CompareTitles(ratio, rows[idx[t]][TitleColumn], rows[j][TitleColumn]);
  }

  /** When no earlier title matches a later one, every row is kept. */
  lemma NoMatchesKeepsAll(rows: seq<Row>, ratio: (string, string) -> int)
    requires HasTitles(rows)
    requires forall p, q | 0 <= p < q < |rows| ::
      !CompareTitles(ratio, rows[p][TitleColumn], rows[q][TitleColumn])
    ensures |Deduplicated(rows, ratio)| == |rows|
  {
    var norms := Norms(rows);
    var all := seq(|rows|, _ => true);
    GreedyMaskUnique(norms, ratio, all);
    var idx := Kept(rows, ratio);
    AllKeptIndices(all);
  }

  lemma {:induction false} AllKeptIndices(keep: seq<bool>)
    requires forall j | 0 <= j < |keep| :: keep[j]
    ensures |KeptIndices(keep)| == |keep|
    decreases |keep|
  {
    if keep != [] {
      AllKeptIndices(keep[..|keep| - 1]);
    }
  }
}
