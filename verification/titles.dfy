/**
 * `normalize_title` and `compare_paper_titles`: titles are compared after
 * lower-casing, deleting ASCII punctuation and deleting the mojibake `â€`,
 * by a fuzzy similarity score against a fixed threshold.
 */
module Titles {
  import opened Substrings
  import opened CharClasses

  /** `"â€"`, the UTF-8 bytes of a curly quote read as Windows-1252. */
  const Mojibake: string := "\U{E2}\U{20AC}"

  /** `compare_paper_titles` accepts a score of at least this much. */
  const MatchThreshold: int := 98

  /**
   * `normalize_title(title)`: lower-case, delete `string.punctuation`,
   * then delete every `â€`.
   */
  function NormalizeTitle(title: string): (r: string)
    ensures |r| <= |title|
    ensures forall c :: c in r ==> !IsPunctuation(c) && !IsUpper(c)
  {
    ReplaceAll(DeletePunctuation(Lower(title)), Mojibake, "")
  }

  /**
   * `compare_paper_titles(title1, title2)`; `ratio` stands for
   * `fuzz.ratio`, a score from 0 to 100.
   */
  function CompareTitles(ratio: (string, string) -> int, title1: string, title2: string): bool
  {
    ratio(NormalizeTitle(title1), NormalizeTitle(title2)) >= MatchThreshold
  }

  // ---------------------------------------------------------------------
  // Lower-casing and punctuation deletion

  /** Lower-casing twice is lower-casing once. */
  lemma LowerIdempotent(s: string)
    ensures Lower(Lower(s)) == Lower(s)
  {
  }

  lemma LowerAppend(x: string, y: string)
    ensures Lower(x + y) == Lower(x) + Lower(y)
  {
  }

  lemma {:induction false} DeletePunctuationAppend(x: string, y: string)
    ensures DeletePunctuation(x + y) == DeletePunctuation(x) + DeletePunctuation(y)
    decreases |x|
  {
    if x != [] {
      assert (x + y)[1..] == x[1..] + y;
      DeletePunctuationAppend(x[1..], y);
    } else {
      assert x + y == y;
    }
  }

  // ---------------------------------------------------------------------
  // What normalization ignores

  /** Normalization does not see letter case: a lower-cased title normalizes the same. */
  lemma NormalizeIgnoresCase(title: string)
    ensures NormalizeTitle(Lower(title)) == NormalizeTitle(title)
  {
    LowerIdempotent(title);
  }

  lemma DeleteLowerAppend(x: string, y: string)
    ensures DeletePunctuation(Lower(x + y)) == DeletePunctuation(Lower(x)) + DeletePunctuation(Lower(y))
  {
    LowerAppend(x, y);
    DeletePunctuationAppend(Lower(x), Lower(y));
  }

  lemma DeleteLowerPunctuation(x: string, p: char, y: string)
    requires IsPunctuation(p)
    ensures DeletePunctuation(Lower(x + [p] + y)) == DeletePunctuation(Lower(x + y))
  {
    DeleteLowerAppend(x + [p], y);
    DeleteLowerAppend(x, [p]);
    DeleteLowerAppend(x, y);
    PunctuationLowerDeleted(p);
  }

  lemma PunctuationLowerDeleted(p: char)
    requires IsPunctuation(p)
    ensures DeletePunctuation(Lower([p])) == []
  {
    var l := Lower([p]);
    assert l == [LowerChar(p)];
    assert IsPunctuation(l[0]);
    assert l[1..] == [];
  }

  /** Normalization does not see punctuation: inserting a punctuation character anywhere changes nothing. */
  lemma NormalizeIgnoresPunctuation(x: string, p: char, y: string)
    requires IsPunctuation(p)
    ensures NormalizeTitle(x + [p] + y) == NormalizeTitle(x + y)
  {
    DeleteLowerPunctuation(x, p, y);
  }

  /** Titles equal up to case compare the same against any third title. */
  lemma CompareTitlesIgnoresCase(ratio: (string, string) -> int, title1: string, title2: string)
    ensures CompareTitles(ratio, Lower(title1), Lower(title2)) == CompareTitles(ratio, title1, title2)
    ensures CompareTitles(ratio, Lower(title1), title2) == CompareTitles(ratio, title1, title2)
  {
    NormalizeIgnoresCase(title1);
    NormalizeIgnoresCase(title2);
  }

  /**
   * Normalization is not idempotent: deleting the inner `â€` of `ââ€€` joins
   * the outer two characters into a new `â€`, which a second pass deletes.
   */
  lemma NormalizeNotIdempotent()
    ensures var t := [Mojibake[0]] + Mojibake + [Mojibake[1]];
      NormalizeTitle(t) == Mojibake && NormalizeTitle(NormalizeTitle(t)) == []
  {
    var a, e := Mojibake[0], Mojibake[1];
    assert Mojibake == [a] + [e];
    NormalizePlain([a] + Mojibake + [e]);
    ReplaceAllReforms(Mojibake, [a], [e]);
    NormalizePlain(Mojibake);
    ReplaceAllHit(Mojibake, [], "");
    assert Mojibake + [] == Mojibake;
  }

  /** Text without upper-case letters or punctuation only loses its `â€`s. */
  lemma NormalizePlain(t: string)
    requires forall c | c in t :: !IsUpper(c) && !IsPunctuation(c)
    ensures NormalizeTitle(t) == ReplaceAll(t, Mojibake, "")
  {
    assert Lower(t) == t;
    DeletePunctuationNone(t);
  }

  lemma {:induction false} DeletePunctuationNone(s: string)
    requires forall c | c in s :: !IsPunctuation(c)
    ensures DeletePunctuation(s) == s
    decreases |s|
  {
    if s != [] {
      assert s[0] in s;
      assert forall c | c in s[1..] :: c in s;
      DeletePunctuationNone(s[1..]);
      assert [s[0]] + s[1..] == s;
    }
  }
}
