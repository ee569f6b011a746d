/**
 * `create_article_dict`: the record the backend builds for one PubMed
 * article, with its PubMed link and, when it has one, its PMC link.
 */
module Articles {
  import opened Wrappers
  import opened Substrings

  /** An abstract arrives either as one text or as a list of section texts. */
  datatype Abstract = Text(text: string) | Sections(sections: seq<string>)

  type Article = map<string, string>

  const PubmedUrlPrefix: string := "http://www.ncbi.nlm.nih.gov/pubmed/"
  const PmcUrlPrefix: string := "http://www.ncbi.nlm.nih.gov/pmc/articles/"

  /** The keys every article record has. */
  const BaseKeys: set<string> := {"pmid", "url", "title", "abstract", "authors", "year"}

  /** A list abstract is joined with single spaces. */
  function AbstractText(a: Abstract): string
  {
    match a
    case Text(t) => t
    case Sections(parts) => Join(parts, " ")
  }

  /** Python truthiness of the PMC id: present and not the empty string. */
  predicate HasPmcId(pmcId: Option<string>)
  {
    pmcId.Some? && pmcId.value != ""
  }

  /** `create_article_dict(pmid, title, abstract, pmc_id, authors, year)`. */
  function CreateArticleDict(pmid: string, title: string, summary: Abstract, pmcId: Option<string>,
                             authors: string, year: string): (d: Article)
    ensures d.Keys == BaseKeys + (if HasPmcId(pmcId) then {"pmc_id"} else {})
  {
    var base := map[
      "pmid" := pmid,
      "url" := PubmedUrlPrefix + pmid,
      "title" := title,
      "abstract" := AbstractText(summary),
      "authors" := authors,
      "year" := year];
    if HasPmcId(pmcId) then base["pmc_id" := PmcUrlPrefix + pmcId.value] else base
  }

  /**
   * The record keeps every field it was given: the PubMed id is read back
   * from the end of the link, and the PMC id, when set, from the end of
   * the PMC link.
   */
  lemma ArticleFieldsRecoverable(pmid: string, title: string, summary: Abstract, pmcId: Option<string>,
                                 authors: string, year: string)
    ensures var d := CreateArticleDict(pmid, title, summary, pmcId, authors, year);
      && d["pmid"] == pmid && d["title"] == title && d["authors"] == authors && d["year"] == year
      && d["abstract"] == AbstractText(summary)
      && |d["url"]| == |PubmedUrlPrefix| + |pmid|
      && d["url"][..|PubmedUrlPrefix|] == PubmedUrlPrefix && d["url"][|PubmedUrlPrefix|..] == pmid
      && (HasPmcId(pmcId) ==>
            d["pmc_id"][..|PmcUrlPrefix|] == PmcUrlPrefix && d["pmc_id"][|PmcUrlPrefix|..] == pmcId.value)
  {
  }

  /**
   * A list abstract whose sections hold no space splits back into its
   * sections: joining loses nothing.
   */
  lemma SectionsRecoverable(sections: seq<string>)
    requires sections != [] && forall k | 0 <= k < |sections| :: ' ' !in sections[k]
    ensures Split(AbstractText(Sections(sections)), " ") == sections
  {
    SplitJoin(sections, ' ');
  }
}
