/**
 * `translate_pubmed_to_semantic`: rewrites a PubMed query into Semantic
 * Scholar's bulk-search syntax by a fixed chain of string rewrites.
 */
module QueryTranslation {
  import opened Substrings
  import opened CharClasses

  /** The PubMed title/abstract field tag, deleted wherever it occurs. */
  const FieldTag: string := "[Title/Abstract]"
  /** The PubMed publication-date tag; the query is cut at its first occurrence. */
  const DateTag: string := "[pdat]"
  const PubmedAnd: string := " AND "
  const SemanticAnd: string := " + "
  const PubmedOr: string := " OR "
  const SemanticOr: string := " | "

  /** Step 1: `query.replace("[Title/Abstract]", "")`. */
  function RemoveFieldTags(q: string): string
  {
    ReplaceAll(q, FieldTag, "")
  }

  /** Step 2: `query.split("[pdat]")[0]` when `"[pdat]" in query`. */
  function DropDateFilter(q: string): string
  {
    if Contains(q, DateTag) then Split(q, DateTag)[0] else q
  }

  /** Step 3: ` AND ` becomes ` + `, then ` OR ` becomes ` | `. */
  function ConvertConnectives(q: string): string
  {
    ReplaceAll(ReplaceAll(q, PubmedAnd, SemanticAnd), PubmedOr, SemanticOr)
  }

  /** Step 5: a query without any `(` is wrapped in one pair of parentheses. */
  function Group(q: string): string
  {
    if '(' in q then q else "(" + q + ")"
  }

  /** The query after steps 1 to 4 (step 4 is `strip()`). */
  function Stripped(pubmedQuery: string): string
  {
    Strip(ConvertConnectives(DropDateFilter(RemoveFieldTags(pubmedQuery))))
  }

  /** `translate_pubmed_to_semantic(pubmed_query)`. */
  function TranslatePubmedToSemantic(pubmedQuery: string): (r: string)
    ensures '(' in r
  {
    Group(Stripped(pubmedQuery))
  }

  // ---------------------------------------------------------------------
  // Properties of the steps

  /**
   * Step 2 keeps exactly the text before the first `[pdat]`: a prefix of its
   * input at which `[pdat]` does not start anywhere, followed in the input by
   * `[pdat]` unless nothing was cut.
   */
  lemma DropDateFilterIsFirstCut(q: string)
    ensures var p := DropDateFilter(q);
      && |p| <= |q| && p == q[..|p|]
      && (forall k :: 0 <= k < |p| ==> !OccursAt(q, DateTag, k))
      && (|p| < |q| ==> OccursAt(q, DateTag, |p|))
      && !Contains(p, DateTag)
  {
    SplitFirstPiece(q, DateTag);
    FirstPieceFree(q, DateTag);
    if !Contains(q, DateTag) {
      var p := Split(q, DateTag)[0];
      assert !OccursAt(q, DateTag, |p|);
      assert |p| == |q|;
      assert q == q[..|q|];
    }
  }

  /** Neither connective rewrite introduces a `[pdat]` that was not there. */
  lemma ConvertConnectivesKeepsDateTagAbsent(q: string)
    requires !Contains(q, DateTag)
    ensures !Contains(ConvertConnectives(q), DateTag)
  {
    var a := ReplaceAll(q, PubmedAnd, SemanticAnd);
    if Contains(a, DateTag) {
      ReplaceAllNoNewOccurrence(q, PubmedAnd, SemanticAnd, DateTag);
    }
    if Contains(ConvertConnectives(q), DateTag) {
      ReplaceAllNoNewOccurrence(a, PubmedOr, SemanticOr, DateTag);
    }
  }

  /**
   * Step 3 is Python's `b.join(s.split(a))` for each connective in turn, and
   * every character it outputs was in the query or in a new connective.
   */
  lemma ConvertConnectivesBySplitting(q: string)
    ensures ConvertConnectives(q) ==
      Join(Split(Join(Split(q, PubmedAnd), SemanticAnd), PubmedOr), SemanticOr)
    ensures forall c | c in ConvertConnectives(q) :: c in q || c in SemanticAnd || c in SemanticOr
  {
    ReplaceAllIsJoinOfSplit(q, PubmedAnd, SemanticAnd);
    ReplaceAllIsJoinOfSplit(ReplaceAll(q, PubmedAnd, SemanticAnd), PubmedOr, SemanticOr);
  }

  /**
   * The translation never contains `[pdat]`: the first date tag and all that
   * follows it are gone, and no later step forms a new one.
   */
  lemma {:induction false} NoDateTagInTranslation(pubmedQuery: string)
    ensures !Contains(TranslatePubmedToSemantic(pubmedQuery), DateTag)
  {
    var converted := ConvertConnectives(DropDateFilter(RemoveFieldTags(pubmedQuery)));
    NoDateTagAfterConversion(pubmedQuery);
    NoDateTagAfterStrip(converted);
    NoDateTagAfterGroup(Strip(converted));
  }

  lemma NoDateTagAfterConversion(q: string)
    ensures !Contains(ConvertConnectives(DropDateFilter(RemoveFieldTags(q))), DateTag)
  {
    DropDateFilterIsFirstCut(RemoveFieldTags(q));
    ConvertConnectivesKeepsDateTagAbsent(DropDateFilter(RemoveFieldTags(q)));
  }

  lemma NoDateTagAfterStrip(q: string)
    requires !Contains(q, DateTag)
    ensures !Contains(Strip(q), DateTag)
  {
    var s := Strip(q);
    var i :| SpaceFramed(q, s, i);
    if Contains(s, DateTag) {
      ContainsSlice(q, i, i + |s|, DateTag);
    }
  }

  lemma NoDateTagAfterGroup(s: string)
    requires !Contains(s, DateTag)
    ensures !Contains(Group(s), DateTag)
  {
    if '(' !in s && Contains(Group(s), DateTag) {
      ContainsInFrame("(", s, ")", DateTag);
    }
  }

  /**
   * A query holding none of the rewritten tokens, with no `(` and no
   * surrounding whitespace, is only wrapped in parentheses.
   */
  lemma {:induction false} PlainQueryIsWrapped(q: string)
    requires !Contains(q, FieldTag) && !Contains(q, DateTag)
    requires !Contains(q, PubmedAnd) && !Contains(q, PubmedOr)
    requires '(' !in q
    requires q == [] || (!IsSpace(q[0]) && !IsSpace(q[|q| - 1]))
    ensures TranslatePubmedToSemantic(q) == "(" + q + ")"
  {
    ReplaceAllAbsent(q, FieldTag, "");
    ReplaceAllAbsent(q, PubmedAnd, SemanticAnd);
    ReplaceAllAbsent(q, PubmedOr, SemanticOr);
    StripUntrimmed(q);
  }

  // ---------------------------------------------------------------------
  // Steps on queries of a known shape

  lemma FieldTagRemovedBetween(x: string, y: string)
    requires '[' !in x && '[' !in y
    ensures RemoveFieldTags(x + FieldTag + y) == x + y
  {
    ReplaceAllSkip(x, FieldTag + y, FieldTag, "");
    assert x + (FieldTag + y) == x + FieldTag + y;
    ReplaceAllHit(FieldTag, y, "");
    ReplaceAllUntouched(y, FieldTag, "");
  }

  lemma TagFreeUntouched(x: string)
    requires '[' !in x
    ensures RemoveFieldTags(x) == x && DropDateFilter(x) == x
  {
    ReplaceAllUntouched(x, FieldTag, "");
    MissingCharNotContained(x, DateTag, '[');
  }

  lemma DateFilterCutBefore(x: string, y: string)
    requires '[' !in x
    ensures DropDateFilter(x + DateTag + y) == x
  {
    var q := x + DateTag + y;
    assert q == x + (DateTag + y);
    SplitSkip(x, DateTag + y, DateTag);
    SplitHit(DateTag, y);
    assert OccursAt(q, DateTag, |x|) by {
      assert q[|x|..|x| + |DateTag|] == DateTag;
    }
    assert x + "" == x;
  }

  lemma ConjunctionConverted(x: string, y: string)
    requires ' ' !in x && ' ' !in y && 'O' !in x && 'O' !in y
    ensures ConvertConnectives(x + PubmedAnd + y) == x + SemanticAnd + y
  {
    ReplaceAllSkip(x, PubmedAnd + y, PubmedAnd, SemanticAnd);
    assert x + (PubmedAnd + y) == x + PubmedAnd + y;
    ReplaceAllHit(PubmedAnd, y, SemanticAnd);
    ReplaceAllUntouched(y, PubmedAnd, SemanticAnd);
    assert x + (SemanticAnd + y) == x + SemanticAnd + y;
    MissingCharNotContained(x + SemanticAnd + y, PubmedOr, 'O');
    ReplaceAllAbsent(x + SemanticAnd + y, PubmedOr, SemanticOr);
  }

  lemma DisjunctionConverted(x: string, y: string)
    requires ' ' !in x && 'A' !in x && 'A' !in y && 'O' !in y
    ensures ConvertConnectives(x + PubmedOr + y) == x + SemanticOr + y
  {
    DisjunctionHasNoConjunction(x, y);
    DisjunctionReplaced(x, y);
  }

  lemma DisjunctionHasNoConjunction(x: string, y: string)
    requires 'A' !in x && 'A' !in y
    ensures ReplaceAll(x + PubmedOr + y, PubmedAnd, SemanticAnd) == x + PubmedOr + y
  {
    MissingCharNotContained(x + PubmedOr + y, PubmedAnd, 'A');
    ReplaceAllAbsent(x + PubmedOr + y, PubmedAnd, SemanticAnd);
  }

  lemma DisjunctionReplaced(x: string, y: string)
    requires ' ' !in x && 'O' !in y
    ensures ReplaceAll(x + PubmedOr + y, PubmedOr, SemanticOr) == x + SemanticOr + y
  {
    ReplaceAllSkip(x, PubmedOr + y, PubmedOr, SemanticOr);
    assert x + (PubmedOr + y) == x + PubmedOr + y;
    ReplaceAllHit(PubmedOr, y, SemanticOr);
    MissingCharNotContained(y, PubmedOr, 'O');
    ReplaceAllAbsent(y, PubmedOr, SemanticOr);
    assert x + (SemanticOr + y) == x + SemanticOr + y;
  }

  /**
   * Step 1 is one left-to-right pass, so a field tag split around another
   * one comes back: for `p + s == "[Title/Abstract]"` with both parts
   * non-empty, deleting the inner tag leaves exactly one tag.
   */
  lemma FieldTagReformed(p: string, s: string)
    requires p + s == FieldTag && p != [] && s != []
    ensures RemoveFieldTags(p + FieldTag + s) == FieldTag
  {
    assert FieldTag[0] !in FieldTag[1..];
    ReplaceAllReforms(FieldTag, p, s);
  }

  /** `[pdat]` is not `[Title/Abstract]`: step 1 leaves it and a `[`-free tail alone. */
  lemma DateTagKept(z: string)
    requires '[' !in z
    ensures RemoveFieldTags(DateTag + z) == DateTag + z
  {
    var s := DateTag + z;
    if |s| >= |FieldTag| {
      assert s[1] != FieldTag[1];
      assert s[..|FieldTag|] != FieldTag;
      assert s[1..] == DateTag[1..] + z;
      ReplaceAllUntouched(s[1..], FieldTag, "");
      assert s == [s[0]] + s[1..];
    }
  }

  /** Steps 4 and 5 on a query that neither begins nor ends with whitespace. */
  lemma GroupUnstripped(s: string)
    requires s == [] || (!IsSpace(s[0]) && !IsSpace(s[|s| - 1]))
    ensures Group(Strip(s)) == Group(s)
  {
    StripUntrimmed(s);
  }

  /** The translation assembled from the results of its steps. */
  lemma TranslationOfSteps(q: string, cut: string, converted: string)
    requires DropDateFilter(RemoveFieldTags(q)) == cut
    requires ConvertConnectives(cut) == converted
    requires converted == [] || (!IsSpace(converted[0]) && !IsSpace(converted[|converted| - 1]))
    ensures TranslatePubmedToSemantic(q) == Group(converted)
  {
    GroupUnstripped(converted);
  }

  // ---------------------------------------------------------------------
  // The documented examples, for every query of their shape

  /**
   * `(cancer[Title/Abstract] AND therapy)` becomes `(cancer + therapy)`:
   * `x` plays `(cancer` and `y` plays `therapy)`.
   */
  lemma TaggedConjunctionExample(x: string, y: string)
    requires x != [] && x[0] == '(' && y != [] && !IsSpace(y[|y| - 1])
    requires '[' !in x && '[' !in y && ' ' !in x && ' ' !in y && 'O' !in x && 'O' !in y
    ensures TranslatePubmedToSemantic(x + FieldTag + PubmedAnd + y) == x + SemanticAnd + y
  {
    var s1 := x + (PubmedAnd + y);
    var s2 := x + SemanticAnd + y;
    assert x + FieldTag + PubmedAnd + y == x + FieldTag + (PubmedAnd + y);
    FieldTagRemovedBetween(x, PubmedAnd + y);
    TagFreeUntouched(s1);
    assert s1 == x + PubmedAnd + y;
    ConjunctionConverted(x, y);
    TranslationOfSteps(x + FieldTag + PubmedAnd + y, s1, s2);
    assert s2[0] == '(';
  }

  /**
   * `(radiotherapy OR "radiation therapy")` becomes
   * `(radiotherapy | "radiation therapy")`: `x` plays `(radiotherapy` and `y`
   * plays `"radiation therapy")`; the phrase's own space is kept.
   */
  lemma DisjunctionExample(x: string, y: string)
    requires x != [] && x[0] == '(' && y != [] && !IsSpace(y[|y| - 1])
    requires '[' !in x && '[' !in y && ' ' !in x && 'A' !in x && 'A' !in y && 'O' !in y
    ensures TranslatePubmedToSemantic(x + PubmedOr + y) == x + SemanticOr + y
  {
    var q := x + PubmedOr + y;
    TagFreeUntouched(q);
    DisjunctionConverted(x, y);
    TranslationOfSteps(q, q, x + SemanticOr + y);
    assert (x + SemanticOr + y)[0] == '(';
  }

  /**
   * `cancer AND (2020/1/1:2024/12/31[pdat])` becomes
   * `cancer + (2020/1/1:2024/12/31`: the text of the date clause before
   * `[pdat]` stays, with its `(` left unbalanced. `x` plays `cancer`, `y`
   * plays `(2020/1/1:2024/12/31` and `z` plays `)`.
   */
  lemma DateClauseExample(x: string, y: string, z: string)
    requires x != [] && !IsSpace(x[0]) && y != [] && y[0] == '(' && !IsSpace(y[|y| - 1])
    requires '[' !in x && '[' !in y && '[' !in z
    requires ' ' !in x && ' ' !in y && 'O' !in x && 'O' !in y
    ensures TranslatePubmedToSemantic(x + PubmedAnd + y + DateTag + z) == x + SemanticAnd + y
  {
    var w := x + PubmedAnd + y;
    var q := w + DateTag + z;
    assert q == w + (DateTag + z);
    ReplaceAllSkip(w, DateTag + z, FieldTag, "");
    DateTagKept(z);
    DateFilterCutBefore(w, z);
    ConjunctionConverted(x, y);
    var s2 := x + SemanticAnd + y;
    TranslationOfSteps(q, w, s2);
    assert s2[|x| + |SemanticAnd|] == '(';
  }
}
