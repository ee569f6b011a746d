# Scholar search backend: verified model of its core

The backend searches PubMed and Semantic Scholar for papers and merges the
two result lists. Four parts of `backend/src/backend/main.py` are modelled
here in Dafny, and properties of each are proved.

- **`SearchCache`** (module `SearchCaching`, class `SearchCache`) keeps search
  results in insertion order.
  - Adding an entry first drops the expired entries. If the cache is still at
    or above its size, it evicts the oldest insertion. The new entry is then
    stored last.
  - Reading an entry returns it without moving it, so the cache evicts
    first-in first-out, not least-recently-used. An expired entry is deleted
    when it is read.
  - The `OrderedDict` is the field `items`, a sequence of `Item(id, df,
    timestamp)` with distinct ids. The methods reassign it.
  - `_cleanup_expired` is a method. It builds the list of expired keys, then
    deletes them one by one in a loop.
- **`translate_pubmed_to_semantic`** (module `QueryTranslation`) is a fixed
  chain of string rewrites:
  - delete every `[Title/Abstract]`;
  - cut the query at the first `[pdat]`;
  - turn ` AND ` into ` + ` and ` OR ` into ` | `;
  - strip surrounding whitespace;
  - wrap the result in parentheses unless it already holds a `(`.

  Python's `str.replace`, `str.split`, `str.join` and `in` are in module
  `Substrings`. They work left to right without overlap, as CPython does.
  `str.strip`, `str.lower` and punctuation deletion are in `CharClasses`.
- **`normalize_title`, `compare_paper_titles` and `deduplicate_papers`**
  (modules `Titles` and `Deduplication`) remove fuzzy duplicates.
  - A row is kept when no earlier kept row's normalized title scores 98 or
    more against its own.
  - The nested loop (`KeepMask`, with one round in `KnockOut`) is proved
    equal to a recursive specification, `GreedyMask`.
  - `GreedyMask` is proved to be the only mask under which kept rows never
    match each other and every dropped row matches an earlier kept row.
- **`create_article_dict`** (module `Articles`) builds an article record.
  **The overlap counts of the search endpoint** (module `Coverage`) are a
  function over the sets of PubMed ids.

`fuzz.ratio` is the parameter `ratio: (string, string) -> int` wherever it is
used. The clock is a parameter `now`, in microseconds. The `uuid4` search id
is an argument that must not already be a key.

`translate_pubmed_to_semantic` does not protect quoted phrases, does not
extract the date range and does not balance parentheses; a richer
translator is not modelled. Here:
- ` AND ` inside a quoted phrase is rewritten like any other
  (`ConjunctionConverted` puts no condition on quotes).
- `cancer AND (2020/1/1:2024/12/31[pdat])` becomes
  `cancer + (2020/1/1:2024/12/31`, with an unbalanced `(`
  (`DateClauseExample`).
- Removing `[Title/Abstract]` in one pass can re-form the tag, as in
  `[Title[Title/Abstract]/Abstract]` (`FieldTagReformed`).

## Model

| member | source | states |
|---|---|---|
| `Substrings.ReplaceAll` | backend/src/backend/main.py:265 | `str.replace` outputs only characters of the input or of the replacement, and never grows when the replacement is no longer than the pattern |
| `Substrings.Split` | backend/src/backend/main.py:269 | `str.split` always returns at least one piece |
| `Substrings.ReplaceAllReforms` | backend/src/backend/main.py:265 | when the pattern's first character does not recur in it, deleting a copy that splits another copy in two leaves one whole copy |
| `Substrings.ReplaceAllAbsent` | backend/src/backend/main.py:265 | replacing a pattern that does not occur changes nothing |
| `Substrings.ReplaceAllNoNewOccurrence` | backend/src/backend/main.py:272-273 | a word sharing no character with the replacement occurs after replacing only if it occurred before |
| `Substrings.ReplaceAllPrefixCopied` | backend/src/backend/main.py:272-273 | a prefix of the output with no replacement character is the same prefix of the input |
| `Substrings.ReplaceAllSkip` | backend/src/backend/main.py:265 | text without the pattern's first character passes through unchanged, and the rest is replaced on its own |
| `Substrings.ReplaceAllUntouched` | backend/src/backend/main.py:265 | text without the pattern's first character is unchanged |
| `Substrings.JoinSplit` | backend/src/backend/main.py:272-273 | joining the pieces of a split with the separator gives back the text |
| `Substrings.ReplaceAllIsJoinOfSplit` | backend/src/backend/main.py:272-273 | `s.replace(p, r) == r.join(s.split(p))` for every text |
| `Substrings.SplitFirstPiece` | backend/src/backend/main.py:269 | `split(sep)[0]` is the prefix before the first occurrence of `sep`, and `sep` does not start inside it |
| `Substrings.FirstPieceFree` | backend/src/backend/main.py:269 | the first piece of a split never contains the separator |
| `Substrings.SplitSkip` | backend/src/backend/main.py:269 | text without the separator's first character joins the first piece |
| `Substrings.SplitJoin` | backend/src/backend/main.py:104 | with a one-character separator that no part holds, splitting the joined text gives back the parts |
| `Substrings.ContainsInFrame` | backend/src/backend/main.py:285 | an occurrence in a text framed by characters foreign to the word lies in the inner text |
| `CharClasses.LowerChar` | backend/src/backend/main.py:86 | a lower-cased character is never upper case; upper case moves up by 32, other characters are kept, and punctuation stays punctuation |
| `CharClasses.Lower` | backend/src/backend/main.py:86 | `lower()` keeps the length, leaves no upper-case letter, moves each covered upper-case letter up by 32 and keeps every other character in place |
| `CharClasses.DeletePunctuation` | backend/src/backend/main.py:86 | the output holds exactly the non-punctuation characters of the input |
| `CharClasses.StripLeading` | backend/src/backend/main.py:277 | the result is a suffix, does not start with whitespace, and everything removed was whitespace |
| `CharClasses.StripTrailing` | backend/src/backend/main.py:277 | the result is a prefix, does not end with whitespace, and everything removed was whitespace |
| `CharClasses.Strip` | backend/src/backend/main.py:277 | `strip()` returns a slice framed only by whitespace that neither begins nor ends with whitespace |
| `CharClasses.StripUntrimmed` | backend/src/backend/main.py:277 | a text without surrounding whitespace is its own strip |
| `QueryTranslation.TranslatePubmedToSemantic` | backend/src/backend/main.py:257-285 | the translation always contains `(` |
| `QueryTranslation.DropDateFilterIsFirstCut` | backend/src/backend/main.py:268-269 | the date step keeps exactly the prefix before the first `[pdat]`; `[pdat]` follows it unless nothing was cut, and it has no `[pdat]` left |
| `QueryTranslation.ConvertConnectivesKeepsDateTagAbsent` | backend/src/backend/main.py:272-273 | rewriting connectives creates no `[pdat]` |
| `QueryTranslation.ConvertConnectivesBySplitting` | backend/src/backend/main.py:272-273 | the connective step equals split-then-join for ` AND ` and then ` OR `, and adds no characters beyond the new connectives |
| `QueryTranslation.NoDateTagInTranslation` | backend/src/backend/main.py:265-285 | no translation contains `[pdat]` |
| `QueryTranslation.PlainQueryIsWrapped` | backend/src/backend/main.py:257-285 | a trimmed query with no tag, connective or `(` is only wrapped in parentheses, so the empty query gives `()` |
| `QueryTranslation.FieldTagRemovedBetween` | backend/src/backend/main.py:265 | a tag between two bracket-free texts is deleted and the texts are joined |
| `QueryTranslation.TagFreeUntouched` | backend/src/backend/main.py:265-269 | a bracket-free query passes the tag and date steps unchanged |
| `QueryTranslation.DateFilterCutBefore` | backend/src/backend/main.py:268-269 | a query with `[pdat]` after bracket-free text is cut to that text |
| `QueryTranslation.ConjunctionConverted` | backend/src/backend/main.py:272-273 | ` AND ` between two space-free operands becomes ` + `, whatever quotes they hold |
| `QueryTranslation.DisjunctionConverted` | backend/src/backend/main.py:272-273 | ` OR ` after a space-free operand becomes ` \| `, and the spaces of a quoted phrase after it stay |
| `QueryTranslation.FieldTagReformed` | backend/src/backend/main.py:265 | a tag split around another tag comes back after the one-pass deletion, so the step does not remove every tag |
| `QueryTranslation.DateTagKept` | backend/src/backend/main.py:265 | the tag step leaves `[pdat]` and a bracket-free tail alone |
| `QueryTranslation.GroupUnstripped` | backend/src/backend/main.py:277-285 | for a query without surrounding whitespace, the last two steps only group |
| `QueryTranslation.TaggedConjunctionExample` | backend/src/backend/main.py:261 | `(cancer[Title/Abstract] AND therapy)` becomes `(cancer + therapy)`, for all operands of that shape |
| `QueryTranslation.DisjunctionExample` | backend/src/backend/main.py:262 | `(radiotherapy OR "radiation therapy")` becomes `(radiotherapy \| "radiation therapy")`, for all operands of that shape |
| `QueryTranslation.DateClauseExample` | backend/src/backend/main.py:265-285 | `cancer AND (2020/1/1:2024/12/31[pdat])` becomes `cancer + (2020/1/1:2024/12/31`, for all operands of that shape |
| `Titles.NormalizeTitle` | backend/src/backend/main.py:83-88 | a normalized title has no punctuation and no upper-case letter, and is no longer than the title |
| `Titles.LowerIdempotent` | backend/src/backend/main.py:86 | lower-casing twice is lower-casing once |
| `Titles.DeletePunctuationAppend` | backend/src/backend/main.py:86 | punctuation deletion works on each part of a text separately |
| `Titles.NormalizeIgnoresCase` | backend/src/backend/main.py:86 | a title and its lower-cased form normalize alike |
| `Titles.NormalizeIgnoresPunctuation` | backend/src/backend/main.py:86 | inserting a punctuation character anywhere does not change the normalized title |
| `Titles.NormalizeNotIdempotent` | backend/src/backend/main.py:86-87 | `ââ€€` normalizes to `â€`, which normalizes to the empty string, so normalizing twice differs from once |
| `Titles.CompareTitles` | backend/src/backend/main.py:91-96 | two titles match when `fuzz.ratio` of their normalized forms is at least 98; `CompareTitlesIgnoresCase` proves the verdict ignores letter case, and `KeptTitlesDistinct` and `DroppedRowsMatchKept` state what deduplication guarantees in its terms |
| `Titles.CompareTitlesIgnoresCase` | backend/src/backend/main.py:91-96 | whether two titles match does not depend on their letter case |
| `Deduplication.GreedyMask` | backend/src/backend/main.py:357-370 | the keep mask has one entry per row |
| `Deduplication.GreedyMaskPrefix` | backend/src/backend/main.py:357-370 | the mask of the first k rows is the first k entries of the mask |
| `Deduplication.GreedyMaskAt` | backend/src/backend/main.py:357-370 | a row is kept exactly when no earlier kept row scores 98 or more against it |
| `Deduplication.GreedyMaskSound` | backend/src/backend/main.py:357-370 | kept rows are pairwise below 98, every dropped row has an earlier kept match, and the first row is kept |
| `Deduplication.GreedyMaskUnique` | backend/src/backend/main.py:357-370 | every mask with both guarantees is the greedy mask |
| `Deduplication.KnockOut` | backend/src/backend/main.py:358-370 | one round leaves rows up to `i` alone and drops each later row scoring 98 or more against row `i` |
| `Deduplication.KeepMaskStep` | backend/src/backend/main.py:357-370 | one round of the outer loop extends the agreement with the greedy mask by one row |
| `Deduplication.KeepMask` | backend/src/backend/main.py:352-370 | the loop computes the greedy mask |
| `Deduplication.KeptIndices` | backend/src/backend/main.py:373 | the kept positions, strictly increasing, are exactly those the mask keeps |
| `Deduplication.DropAddedColumn` | backend/src/backend/main.py:373 | dropping the temporary column undoes adding it |
| `Deduplication.DeduplicatePapers` | backend/src/backend/main.py:342-374 | the method returns exactly the deduplicated table |
| `Deduplication.DeduplicatedIsSubsequence` | backend/src/backend/main.py:344-374 | the output is an order-preserving selection of the rows without `normalized_title`, starting with the first row, and empty input gives empty output |
| `Deduplication.KeptTitlesDistinct` | backend/src/backend/main.py:357-370 | no two kept rows match under `compare_paper_titles`, the earlier one scored first |
| `Deduplication.DroppedMatchKept` | backend/src/backend/main.py:357-370 | every dropped position scores 98 or more against an earlier kept position |
| `Deduplication.DroppedRowsMatchKept` | backend/src/backend/main.py:357-370 | every dropped row matches an earlier kept row under `compare_paper_titles` |
| `Deduplication.NoMatchesKeepsAll` | backend/src/backend/main.py:357-374 | when no earlier title matches a later one, no row is dropped |
| `SearchCaching.Unexpired` | backend/src/backend/main.py:50-52 | filtering the live entries never adds entries |
| `SearchCaching.WithoutIds` | backend/src/backend/main.py:53-54 | deleting keys never adds entries |
| `SearchCaching.ExpiredIds` | backend/src/backend/main.py:50-52 | the expired-key list is no longer than the cache |
| `SearchCaching.IndexOf` | backend/src/backend/main.py:38-41 | the lookup finds an entry with the key exactly when the key is present |
| `SearchCaching.UnexpiredMembers` | backend/src/backend/main.py:50-52 | the live entries are exactly those with `now - timestamp <= expiry` |
| `SearchCaching.WithoutIdsMembers` | backend/src/backend/main.py:53-54 | deleting keys leaves exactly the entries with other keys |
| `SearchCaching.ExpiredIdsMembers` | backend/src/backend/main.py:50-52 | the expired-key list holds the key of every expired entry and no other key |
| `SearchCaching.UnexpiredDistinct` | backend/src/backend/main.py:48-54 | dropping expired entries keeps the keys distinct |
| `SearchCaching.WithoutIdsDistinct` | backend/src/backend/main.py:53-54 | deleting keys keeps the keys distinct |
| `SearchCaching.UnexpiredAppend` | backend/src/backend/main.py:50-52 | expiry keeps insertion order: it filters each part of a split separately |
| `SearchCaching.WithoutIdsThenOne` | backend/src/backend/main.py:53-54 | deleting keys one after another is deleting them together |
| `SearchCaching.WithoutIdsSize` | backend/src/backend/main.py:43 | deleting a present key removes exactly one entry |
| `SearchCaching.ExpiredIdsDistinct` | backend/src/backend/main.py:50-52 | the expired-key list has no repeats |
| `SearchCaching.DeletedLater` | backend/src/backend/main.py:53-54 | each key of the list is still present when its turn to be deleted comes |
| `SearchCaching.CleanupStep` | backend/src/backend/main.py:53-54 | each round of the deletion loop finds its key present, and the deletion extends the deleted prefix of the list by that key |
| `SearchCaching.DeleteExpiredIsUnexpired` | backend/src/backend/main.py:48-54 | deleting every listed expired key leaves exactly the live entries, in order |
| `SearchCaching.SearchCache.constructor` | backend/src/backend/main.py:18-21 | a new cache is empty, with its size and an expiry of `expiry_hours` hours |
| `SearchCaching.SearchCache.Default` | backend/src/backend/main.py:18-21 | `SearchCache()` with no arguments is empty, holds at most 100 entries and expires them after 24 hours |
| `SearchCaching.SearchCache.Delete` | backend/src/backend/main.py:43 | `del` removes the one entry with the key and keeps the rest in order |
| `SearchCaching.SearchCache.CleanupExpired` | backend/src/backend/main.py:48-54 | after cleanup the cache holds exactly its live entries, in order |
| `SearchCaching.SearchCache.Add` | backend/src/backend/main.py:23-35 | `add` drops expired entries; at or above the size it evicts the oldest entry, or raises `KeyError` when none is left; the new entry goes last; the size bound and distinct keys are kept |
| `SearchCaching.SearchCache.Get` | backend/src/backend/main.py:37-46 | an unknown key gives nothing and no change; an expired entry (strictly older than the expiry) is deleted; otherwise the stored table is returned and the order is unchanged |
| `Articles.CreateArticleDict` | backend/src/backend/main.py:99-118 | the record has the six base keys, plus `pmc_id` exactly when the PMC id is non-empty |
| `Articles.ArticleFieldsRecoverable` | backend/src/backend/main.py:106-116 | every given field is stored unchanged, and the PubMed and PMC ids are the tails of their links |
| `Articles.SectionsRecoverable` | backend/src/backend/main.py:103-104 | a list abstract whose sections hold no space splits back into its sections |
| `Coverage.CountOverlap` | backend/src/backend/main.py:528-551 | the three figures the endpoint reports: PubMed ids only PubMed found, Semantic Scholar results without a PubMed id or with one PubMed lacks, and shared ids plus the rows deduplication drops; `OverlapPartitions` and `DuplicateCountBounds` state how they relate to the id sets |
| `Coverage.OverlapPartitions` | backend/src/backend/main.py:528-539 | unique-to-PubMed plus shared is all PubMed ids; unique-to-Semantic-Scholar plus shared is the results without an id plus all Semantic Scholar ids |
| `Coverage.DuplicateCountBounds` | backend/src/backend/main.py:541-551 | the duplicate count is at least the shared ids and at most the shared ids plus all rows but the first |

## Left out

- Network access is not modelled: Entrez and NCBI searches, article and PMC fetching, XML parsing, and the Semantic Scholar HTTP client.
- The FastAPI endpoints, CORS set-up, Excel export and HTTP error mapping are not modelled. Only the overlap arithmetic of the search endpoint is lifted out.
- The pandas merges and concatenation that build the combined table are not modelled. `Coverage.CountOverlap` takes the combined table as an argument.
- `fuzz.ratio` is not modelled. Its algorithm is replaced by the arbitrary function `ratio`, and no property of the score (symmetry, 100 for equal texts) is assumed.
- `datetime.now()` is replaced by the `now` argument, in whole microseconds. `expiry_hours` is taken as a whole number of hours.
- `SearchCaching.SearchCache.Add`: takes one `now` for both clock readings of `add`, the one that drops expired entries (main.py line 49) and the new entry's timestamp (line 34), so it treats them as equal.
- `uuid4` is replaced by a caller-supplied id that is not already a key.
- A DataFrame is a sequence of rows, each a map from column to text. Index labels are taken to be positions 0 to n-1, as the combined table's are.
- `CharClasses.Lower`: covers upper-case letters in ASCII and Latin-1 only. Other scripts are left unchanged, although Python would lower-case them.
- `Titles.NormalizeTitle`: "no upper-case letter" covers the ASCII and Latin-1 letters that `CharClasses.Lower` covers.
- `normalize_title` calls `str(title)`, which turns a missing title (NaN) into `nan`. This is not modelled: `DeduplicatePapers` requires every row to have a `title`, and pandas raises `KeyError` when the column is missing.
- `create_article_dict` applies `str` to each list item. The model takes the items as texts already.
