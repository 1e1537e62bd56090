# A verified model of the decompile-survey literature pipeline

The system is a literature-survey workbench. Its backend imports BibTeX
files into projects and runs pipelines of steps over them: duplicate
removal by DOI, by title and by author, AI screening, and PDF fetching
backed by a shared PDF library. A boolean query language searches titles
and abstracts. Small routers edit projects, imports, sources, pipelines,
reviews and rule files. Scripts convert Springer, Semantic Scholar and
arXiv results into BibTeX and extract titles and abstracts from `.bib`
files. This project models those parts in Dafny and proves what they
promise.

Modules, by the part of the system they model:

- **PDF library and fetching.**
  - `PdfLibrary`: canonical DOI/URL keys, and the index of PDF records as a class over an insertion-ordered map.
  - `PdfLibraryRouter`: the library API's listing, statistics, file resolution and deletion.
  - `PdfFetch`: the URL helpers, the duplicate-free candidate queue, the acceptance rule for a fetched body, and the download loop.
  - `PdfFetchStep`: the per-entry fallback chain of the fetch step and its pass-mode partition.
- **Query language.**
  - `QuerySearch`: tokenizer, recursive-descent parser (as functions, and as a class with a cursor proved equal to them), evaluator and term matcher.
  - `ImportSearch`: the search over an import's files, with its checks and counters.
- **Deduplication.**
  - `DedupUtils`: title, database and year normalisation, priority ranking and representative choice.
  - `DedupCluster`: threshold clustering into connected components.
  - `DedupDoi`, `DedupTitle` and `DedupAuthor`: the main application's dedup steps.
  - `AuthorNames`: author-name splitting and Jaccard similarity.
  - `ScreeningDedupUtils` and `ScreeningDedupAuthor`: the screening application's variants.
- **BibTeX scripts.**
  - `SpringerBibtex`: the Springer CSV converter.
  - `BibWrite`: escaping and entry rendering, shared by the scripts.
  - `SemanticScholar`: the Semantic Scholar fetch script.
  - `ArxivFetch`: the arXiv fetch script.
  - `BibtexExtract`: the title/abstract extractor.
- **Routers.**
  - `Imports` and `Projects`.
  - `ProjectSources` and `ScreeningSources`: source files and their totals.
  - `ScreeningPipeline` and `ScreeningSteps`: the step list and the latest-step guard.
  - `AppReviews` and `ScreeningReviews`: review decisions and stats.
  - `Rules`: rule files and version numbering.
  - `Llm`: the local-LLM check.
  - `AiScreening`: the AI screening step.
- **Shared.**
  - `Text`: Python string built-ins restricted to ASCII.
  - `Bib`: entry fields.
  - `Perm`: sequence and multiset lemmas.
  - `Wrappers`: Option, Result and HTTP errors.

State the source changes in place is modelled as a class whose methods
change it. A class's `modifies` clause names what its methods may change,
and their `ensures` give the new state. Pure helpers are functions.
Network answers, browser sessions, the file system, the clock, hashing
and LLM replies are parameters or oracle values handed in by the caller.

## Model

| member | source | states |
|---|---|---|
| DedupDoi.DoiKey | app/backend/step_handlers/dedup_doi.py:81-84 | the compared DOI has the stripped DOI's length (lower-cased only when the comparison is case-insensitive) |
| DedupDoi.FirstWith | app/backend/step_handlers/dedup_doi.py:102-122 | the index returned is the first entry carrying the DOI key; None means no entry carries it |
| DedupDoi.CountWithoutDoi | app/backend/step_handlers/dedup_doi.py:143-145 | counts at most one per change |
| DedupDoi.SeenAfterFirst | app/backend/step_handlers/dedup_doi.py:74-122 | a key is in `seen_dois` after t entries exactly when an earlier entry carried it, and it maps to the first such entry |
| DedupDoi.VerdictNow | app/backend/step_handlers/dedup_doi.py:77-122 | each verdict is the three-way branch of the loop: no DOI (kept as `no_doi` or removed as `no_doi_removed` by `keep_no_doi`), a DOI already seen (removed as `duplicate_doi` naming the original's key), or a new DOI (kept as `unique_doi`) |
| DedupDoi.OutputsAppend | app/backend/step_handlers/dedup_doi.py:86-122 | each entry joins exactly one of `passed` and `removed`, as the seen-DOI dict decides |
| DedupDoi.Run | app/backend/step_handlers/dedup_doi.py:51-149 | one change per input entry, each the verdict of its entry; passed and removed are the kept and removed entries in input order; the stats count input, passed, removed, distinct DOIs and entries without a DOI, and unique DOIs plus kept entries without a DOI equal the passed count |
| DedupDoi.SelectPartition | app/backend/step_handlers/dedup_doi.py:86-122 | the entries selected by Keep and by Remove together are the input as a multiset |
| DedupDoi.SelectFrom | app/backend/step_handlers/dedup_doi.py:86-122 | every selected entry is an input entry whose action is the one selected |
| DedupDoi.SelectAll | app/backend/step_handlers/dedup_doi.py:86-122 | when every action is the same, that selection is the whole input and the other is empty |
| DedupDoi.WithActionPartition | app/backend/step_handlers/dedup_doi.py:130-135 | `passed` and `removed` together hold each input entry exactly once (multiset equality) |
| DedupDoi.NoCarrierInOutput | app/backend/step_handlers/dedup_doi.py:86-122 | a DOI no input entry carries is carried by no output entry |
| DedupDoi.PassedDistinct | app/backend/step_handlers/dedup_doi.py:102-122 | `passed` never holds two entries with the same (normalised) DOI |
| DedupDoi.NoDuplicateWhenDistinct | app/backend/step_handlers/dedup_doi.py:86-122 | on input with distinct DOIs an entry is removed exactly when it has no DOI and `keep_no_doi` is false |
| DedupDoi.AllKept | app/backend/step_handlers/dedup_doi.py:86-122 | on input with distinct DOIs and `keep_no_doi` set, every verdict keeps |
| DedupDoi.DistinctAllPass | app/backend/step_handlers/dedup_doi.py:130-135 | on input with distinct DOIs and `keep_no_doi` set, `passed` is the whole input and `removed` is empty |
| DedupDoi.DedupDoiIdempotent | app/backend/step_handlers/dedup_doi.py:51-149 | running the step again on its own `passed` output (keeping entries without a DOI) passes it unchanged and removes nothing |
| DedupDoi.DuplicateHasOriginal | app/backend/step_handlers/dedup_doi.py:102-114 | a `duplicate_doi` change names the key of an earlier entry with the same DOI key that was kept as `unique_doi` |
| DedupDoi.BalanceStep | app/backend/step_handlers/dedup_doi.py:86-122 | each entry adds to `passed` exactly what it adds to the seen DOIs or, when kept, to the entries without a DOI |
| DedupDoi.StatsBalance | app/backend/step_handlers/dedup_doi.py:136-145 | `unique_dois` plus (when kept) `entries_without_doi` equals `unique_count` |
| DedupUtils.SquashOthers | app/backend/step_handlers/dedup_utils.py:19 | the result holds only `[a-z0-9]` and spaces |
| DedupUtils.SquashFixed | app/backend/step_handlers/dedup_utils.py:19 | text already of `[a-z0-9]` words separated by single spaces is left unchanged by the substitution |
| DedupUtils.Unbraced | app/backend/step_handlers/dedup_utils.py:18 | no `{` or `}` is left |
| DedupUtils.NormalizeTitle | app/backend/step_handlers/dedup_utils.py:15-20 | an empty title gives ""; the result holds only `[a-z0-9]` words separated by single spaces, with no leading or trailing space |
| DedupUtils.NormalizeTitleIdempotent | app/backend/step_handlers/dedup_utils.py:15-20 | normalising a normalised title changes nothing |
| DedupUtils.NormalizeTitleIgnoresCase | app/backend/step_handlers/dedup_utils.py:18 | upper-casing a title does not change its normal form |
| DedupUtils.NormalizeTitleIgnoresBraces | app/backend/step_handlers/dedup_utils.py:18 | protective braces around a non-empty title do not change its normal form |
| DedupUtils.CountPresent | app/backend/step_handlers/dedup_utils.py:31 | the count is at most the number of fields |
| DedupUtils.CountPresentBounds | app/backend/step_handlers/dedup_utils.py:31 | the count is full exactly when every field is non-empty and zero exactly when every field is empty |
| DedupUtils.CountPresentMonotone | app/backend/step_handlers/dedup_utils.py:31 | an entry with every field another has counts at least as many |
| DedupUtils.CompletenessScore | app/backend/step_handlers/dedup_utils.py:29-31 | the score is at most 7 |
| DedupUtils.CompletenessScoreExtremes | app/backend/step_handlers/dedup_utils.py:29-31 | the score is 7 exactly when all seven fields are non-empty and 0 exactly when none is |
| DedupUtils.CompletenessScoreMonotone | app/backend/step_handlers/dedup_utils.py:29-31 | filling in fields never lowers the score |
| DedupUtils.ParseYear | app/backend/step_handlers/dedup_utils.py:34-39 | a missing or blank year parses to 0 |
| DedupUtils.ParseYearOfNat | app/backend/step_handlers/dedup_utils.py:34-39 | a year written as decimal digits, with any surrounding whitespace, parses to its value |
| DedupUtils.StripAround | app/backend/step_handlers/dedup_utils.py:37 | `.strip()` removes exactly the surrounding whitespace of text that starts and ends on a non-space |
| DedupUtils.ParseYearRejects | app/backend/step_handlers/dedup_utils.py:36-39 | a stripped year holding a character other than a digit, `_` or a sign raises ValueError and parses to 0 |
| DedupUtils.Compact | app/backend/step_handlers/dedup_utils.py:47 | the result holds only `[a-z0-9]`, every character of it comes from the input, and text already of that class is unchanged |
| DedupUtils.DatabaseAlias | app/backend/step_handlers/dedup_utils.py:51-68 | the result is one of the eight canonical names, or the compact text itself when no alias test fires on it |
| DedupUtils.CompactName | app/backend/step_handlers/dedup_utils.py:43-49 | the compact text holds only `[a-z0-9]` |
| DedupUtils.NormalizeDatabaseName | app/backend/step_handlers/dedup_utils.py:42-68 | the normalised name holds only `[a-z0-9]` |
| DedupUtils.NormalizeDatabaseNameEmpty | app/backend/step_handlers/dedup_utils.py:42-49 | a name normalises to "" exactly when it holds no ASCII letter or digit |
| DedupUtils.NormalizeDatabaseNameIdempotent | app/backend/step_handlers/dedup_utils.py:42-68 | normalising a normalised name changes nothing |
| DedupUtils.NormalizedFixed | app/backend/step_handlers/dedup_utils.py:42-68 | a canonical name, or `[a-z0-9]` text no alias test fires on, normalises to itself |
| DedupUtils.NormalizedTitleChars | app/backend/step_handlers/dedup_utils.py:43-47 | text of `[a-z0-9]` only is its own compact text |
| DedupUtils.FirstNamed | app/backend/step_handlers/dedup_utils.py:73-76 | the result is a normalised name, and it is "" exactly when none of the explicit fields names a database |
| DedupUtils.FirstNamedAt | app/backend/step_handlers/dedup_utils.py:73-76 | the first explicit field that names a database decides, whatever later fields say |
| DedupUtils.FirstNamedSkip | app/backend/step_handlers/dedup_utils.py:73-76 | a first field that names nothing is passed over |
| DedupUtils.DoiSource | app/backend/step_handlers/dedup_utils.py:78-84 | the DOI prefix gives "" or a canonical name |
| DedupUtils.AfterScheme | app/backend/step_handlers/dedup_utils.py:88 | what follows the URL scheme is no longer than the URL |
| DedupUtils.HostSource | app/backend/step_handlers/dedup_utils.py:86-98 | the URL host gives "" or a canonical name |
| DedupUtils.HostDatabase | app/backend/step_handlers/dedup_utils.py:89-98 | the host tests give "" or a canonical name |
| DedupUtils.TextSource | app/backend/step_handlers/dedup_utils.py:100-104 | the joined publisher text gives a normalised name |
| DedupUtils.InferDatabaseName | app/backend/step_handlers/dedup_utils.py:71-104 | the inferred database is always a normalised name, so it compares equal to priority keys |
| DedupUtils.InferFromExplicit | app/backend/step_handlers/dedup_utils.py:72-76 | explicit source metadata wins: the first of `_source_database`, `_database`, `database` that names a database is the answer |
| DedupUtils.NetlocHttps | app/backend/step_handlers/dedup_utils.py:88 | the network location of `https://host/...` is `host` |
| DedupUtils.CleanUrl | app/backend/step_handlers/dedup_utils.py:86 | an https URL on a lower-case host without surrounding whitespace is unchanged by `.strip().lower()` |
| DedupUtils.HostSourceHttps | app/backend/step_handlers/dedup_utils.py:86-98 | for such a URL in the `url` field, the host tests see exactly its host |
| DedupUtils.InferFromIeeeHost | app/backend/step_handlers/dedup_utils.py:71-92 | with no explicit source and no known DOI prefix, an https URL on an `ieeexplore.ieee.org` host (not `dl.acm.org`) names `ieee` |
| DedupUtils.SplitRuns | app/backend/step_handlers/dedup_utils.py:115 | `re.split(r"[,\n>]+", raw)` gives at least one piece and no piece holds a separator |
| DedupUtils.SplitRunsJoin | app/backend/step_handlers/dedup_utils.py:115 | non-empty separator-free names joined by one separator split back into those names |
| DedupUtils.StripAll | app/backend/step_handlers/dedup_utils.py:111-115 | each token is the stripped item at the same position |
| DedupUtils.Normalized | app/backend/step_handlers/dedup_utils.py:119 | each element is the normalised token at the same position |
| DedupUtils.Firsts | app/backend/step_handlers/dedup_utils.py:117-122 | the dict's keys are distinct and are exactly the non-empty normalised names |
| DedupUtils.FirstIndex | app/backend/step_handlers/dedup_utils.py:117-122 | the index is the first occurrence of the name |
| DedupUtils.FirstsOrder | app/backend/step_handlers/dedup_utils.py:117-122 | keys appear in the order of their first occurrence in the tokens |
| DedupUtils.FirstsNormalized | app/backend/step_handlers/dedup_utils.py:117-122 | every key is a non-empty normalised name |
| DedupUtils.AddRank | app/backend/step_handlers/dedup_utils.py:118-121 | a new non-empty name is appended with the next rank; a repeated or empty name changes nothing; ranks stay dense in insertion order |
| DedupUtils.ParseDatabasePriority | app/backend/step_handlers/dedup_utils.py:107-122 | the keys are the distinct non-empty normalised tokens in order of first appearance, each ranked by its position |
| DedupUtils.ParsedPriorityDense | app/backend/step_handlers/dedup_utils.py:107-122 | the ranks are exactly 0..n-1 and every key is a non-empty normalised name |
| DedupUtils.DatabasePriorityRank | app/backend/step_handlers/dedup_utils.py:125-129 | an empty priority gives 10000 for every entry |
| DedupUtils.ListedBeatsUnlisted | app/backend/step_handlers/dedup_utils.py:125-129 | with dense ranks a listed database ranks before an unlisted one, and unlisted ones tie |
| DedupUtils.ListedByPosition | app/backend/step_handlers/dedup_utils.py:125-129 | listed databases rank in the order of their priority positions |
| DedupUtils.ArgMin | app/backend/step_handlers/dedup_utils.py:142-151 | `sorted(...)[0]` is a member whose key no member's key is below |
| DedupUtils.HasDoi | app/backend/step_handlers/dedup_utils.py:132-133 | 1 exactly when the stripped DOI is non-empty, else 0 |
| DedupUtils.PickRepresentative | app/backend/step_handlers/dedup_utils.py:136-151 | the representative is a member, and no member's key is below its key |
| DedupUtils.RepresentativeIsBest | app/backend/step_handlers/dedup_utils.py:136-151 | the representative has the latest year; among those the best database rank; then a DOI when preferred; then the highest completeness; on a full tie the smallest index |
| DedupUtils.RepresentativeUnique | app/backend/step_handlers/dedup_utils.py:136-151 | any member whose key no member's key beats is the representative |
| DedupCluster.ConnectedSymmetric | app/backend/step_handlers/dedup_utils.py:173-177 | joining by similar pairs is symmetric: if x reaches y then y reaches x |
| DedupCluster.ConnectedThroughEdge | app/backend/step_handlers/dedup_utils.py:167-171 | two components joined by one similar pair are one component |
| DedupCluster.Relabel | app/backend/step_handlers/dedup_utils.py:167-171 | after `union(a, b)` a and b share a's group, and indices outside b's group keep their group |
| DedupCluster.RelabelKeepsEqual | app/backend/step_handlers/dedup_utils.py:167-171 | a union never separates two indices already in one group |
| DedupCluster.UnionSound | app/backend/step_handlers/dedup_utils.py:173-177 | joining the ends of a similar pair keeps every group inside one connected component |
| DedupCluster.UnionMerged | app/backend/step_handlers/dedup_utils.py:173-177 | joining the pair (i, j) extends the set of already merged similar pairs by that pair |
| DedupCluster.Complete | app/backend/step_handlers/dedup_utils.py:173-177 | once every similar pair is merged, connected indices are in one group |
| DedupCluster.Range | app/backend/step_handlers/dedup_utils.py:159 | `range(n)`: the indices 0..n-1 in order |
| DedupCluster.KeptRemovedIndices | app/backend/step_handlers/dedup_title.py:107-144 | one representative per cluster plus the other members of each cluster are, as a multiset, all the clusters' members |
| DedupCluster.Union | app/backend/step_handlers/dedup_utils.py:167-171 | the owner array after `union(a, b)` is the relabelling of the old one |
| DedupCluster.JoinSimilar | app/backend/step_handlers/dedup_utils.py:173-177 | after the pair loop every group is inside one connected component and every similar pair is in one group |
| DedupCluster.GroupedDone | app/backend/step_handlers/dedup_utils.py:179-184 | after the last index the dict's values partition 0..n-1, each group ascending and groups in the order of their smallest member, one distinct root per group |
| DedupCluster.GroupByLabel | app/backend/step_handlers/dedup_utils.py:179-184 | the `setdefault(...).append(idx)` loop returns a partition of 0..n-1 with one distinct root per group, each member carrying its group's root |
| DedupCluster.ClusterByThreshold | app/backend/step_handlers/dedup_utils.py:154-184 | the clusters partition 0..n-1 (each ascending, ordered by smallest member), and two indices share a cluster exactly when a chain of pairs with similarity at least the threshold connects them |
| ScreeningDedupUtils.PickRepresentative | screening/app/backend/step_handlers/dedup_utils.py:41-45 | the representative is a member and no member's key is below its key |
| ScreeningDedupUtils.RepresentativeIsBest | screening/app/backend/step_handlers/dedup_utils.py:41-45 | the representative has the latest year, among those the highest completeness, on a full tie the smallest index |
| ScreeningDedupUtils.RepresentativeUnique | screening/app/backend/step_handlers/dedup_utils.py:41-45 | any member whose key no member's key beats is the representative |
| ScreeningDedupUtils.AgreesWithMainApplication | screening/app/backend/step_handlers/dedup_utils.py:41-45 | it picks what the main application's `pick_representative` picks with no database priority and no DOI preference |
| DedupTitle.Titles | app/backend/step_handlers/dedup_title.py:72 | one normalised title per entry, at the entry's position |
| DedupTitle.Kept | app/backend/step_handlers/dedup_title.py:83-104 | the member a cluster passes (its only member, or the representative) is one of its members |
| DedupTitle.Scores | app/backend/step_handlers/dedup_title.py:121-124 | one (similarity to the representative, index) pair per member, in member order |
| DedupTitle.ScoresIndexes | app/backend/step_handlers/dedup_title.py:121-124 | the indexes of the scored pairs are the cluster's members again |
| DedupTitle.RepresentativeScoredOnce | app/backend/step_handlers/dedup_title.py:121-133 | the representative's own pair occurs exactly once among the sorted pairs, so exactly one member is skipped as `keep` |
| DedupTitle.OwnAndDropped | app/backend/step_handlers/dedup_title.py:125-144 | the representative's pair plus the removed pairs are the member pairs, as a multiset |
| DedupTitle.KeptAndDropped | app/backend/step_handlers/dedup_title.py:125-144 | the kept member and the removed members list the cluster again, each exactly once |
| DedupTitle.AssemblePartitions | app/backend/step_handlers/dedup_title.py:81-175 | `passed` and `removed` together hold every input entry exactly once, and exactly one entry per cluster passes |
| DedupTitle.KeptIsBest | app/backend/step_handlers/dedup_title.py:98-104 | the member a cluster keeps has the least representative key (year, database rank, DOI, completeness, index) among its members |
| DedupTitle.PassedAreKept | app/backend/step_handlers/dedup_title.py:81-109 | the k-th passed entry is the member cluster k keeps |
| DedupTitle.OthersOrdered | app/backend/step_handlers/dedup_title.py:127-134 | skipping the representative's pair keeps the pairs sorted |
| DedupTitle.DroppedOrdered | app/backend/step_handlers/dedup_title.py:125-134 | removed members come in ascending similarity, and by index among equal similarities (the stable sort over ascending member lists) |
| DedupTitle.ClusterChangesShape | app/backend/step_handlers/dedup_title.py:106-144 | a multi-member cluster records its representative first as `duplicate_title_representative` with similarity 1.0, then one `duplicate_title` removal per other member, each naming the cluster id and the representative's key |
| DedupTitle.DroppedCount | app/backend/step_handlers/dedup_title.py:127-144 | one member fewer than the cluster has is removed |
| DedupTitle.ClusterRemovalsAscending | app/backend/step_handlers/dedup_title.py:125-144 | a cluster's removal changes come in ascending similarity to the representative |
| DedupTitle.Count | app/backend/step_handlers/dedup_title.py:180 | the number of changes with a reason is at most the number of changes |
| DedupTitle.ClusterCounts | app/backend/step_handlers/dedup_title.py:83-144 | a cluster records one change per member; its removals are its `duplicate_title` changes; it has one representative change exactly when it has more than one member |
| DedupTitle.BlockCounts | app/backend/step_handlers/dedup_title.py:81-166 | the per-cluster counts hold for every cluster |
| DedupTitle.AssembleCounts | app/backend/step_handlers/dedup_title.py:81-182 | one change per passed or removed entry; `total_clusters` is the number of representative changes; every removed entry has a `duplicate_title` change |
| DedupTitle.RemoveDuplicates | app/backend/step_handlers/dedup_title.py:127-144 | the inner loop appends, in sorted order, every member other than the representative to `removed` and its `duplicate_title` change to `changes` |
| DedupTitle.AddDuplicates | app/backend/step_handlers/dedup_title.py:98-144 | a multi-member cluster appends its representative to `passed`, its other members to `removed`, and its changes |
| DedupTitle.AddCluster | app/backend/step_handlers/dedup_title.py:81-166 | one cluster appends its kept member to `passed`, its other members to `removed`, and its changes (`unique_title` for a singleton) |
| DedupTitle.SingletonDropped | app/backend/step_handlers/dedup_title.py:83-96 | a singleton cluster removes nothing |
| DedupTitle.FlattenLength | app/backend/step_handlers/dedup_title.py:164 | a partition of 0..n-1 lists n members, so `processed_entries` ends at the entry count |
| DedupTitle.Run | app/backend/step_handlers/dedup_title.py:61-182 | the reported `database_priority` is the parsed priority's keys; the clusters partition the entries into the components of "title similarity at least the threshold"; the result is the cluster-by-cluster assembly of passed, removed and changes; `processed_entries` ends at the entry count |
| DedupAuthor.Named | app/backend/step_handlers/dedup_author.py:42-44 | a name is kept only when normalising leaves non-empty `[a-z0-9]` text |
| DedupAuthor.PartName | app/backend/step_handlers/dedup_author.py:32-44 | the name a part contributes (text before the first comma, else the last whitespace token) is non-empty `[a-z0-9]` text |
| DedupAuthor.NamesOf | app/backend/step_handlers/dedup_author.py:31-44 | every collected name is non-empty `[a-z0-9]` text |
| DedupAuthor.LastNames | app/backend/step_handlers/dedup_author.py:26-45 | every last name in the set is non-empty `[a-z0-9]` text |
| DedupAuthor.ExtractLastNames | app/backend/step_handlers/dedup_author.py:26-45 | the loop adding names to a set returns exactly the last names of the split parts |
| DedupAuthor.LastNamesSplit | app/backend/step_handlers/dedup_author.py:27-29 | the empty-field shortcut agrees with splitting the empty field |
| DedupAuthor.LastNamesJoin | app/backend/step_handlers/dedup_author.py:29 | joining two author fields with `;` unites their last-name sets |
| DedupAuthor.WordsOfWord | app/backend/step_handlers/dedup_author.py:38 | a single word is its own only whitespace token |
| DedupAuthor.FamilyFirst | app/backend/step_handlers/dedup_author.py:35-41 | "Family, Given" contributes the same last name as the bare family name |
| DedupAuthor.Insert | app/backend/step_handlers/dedup_author.py:141 | inserting one pair adds exactly that pair to the multiset |
| DedupAuthor.InsertSorted | app/backend/step_handlers/dedup_author.py:141 | inserting into a list sorted by similarity keeps it sorted |
| DedupAuthor.SortBySimilarity | app/backend/step_handlers/dedup_author.py:141 | `list.sort(key=similarity)` returns a permutation sorted by similarity |
| DedupAuthor.InsertOrdered | app/backend/step_handlers/dedup_author.py:141 | inserting a pair with a larger index than all others keeps the list ordered by (similarity, index) |
| DedupAuthor.SortStable | app/backend/step_handlers/dedup_author.py:137-141 | the sort is stable: members listed by ascending index come out by similarity and, on equal similarity, still by index |
| DedupAuthor.AuthorSets | app/backend/step_handlers/dedup_author.py:94 | one author set per entry |
| DedupAuthor.MemberRows | app/backend/step_handlers/dedup_author.py:143-163 | every non-representative member gets a `duplicate_author_member` keep change naming the cluster id and the representative's key |
| DedupAuthor.MemberRowsIndices | app/backend/step_handlers/dedup_author.py:143-163 | every member except the representative gets a row, each exactly once |
| DedupAuthor.SortedMembers | app/backend/step_handlers/dedup_author.py:137-141 | the sorted (similarity, index) pairs name entries of the input |
| DedupAuthor.ClusterRows | app/backend/step_handlers/dedup_author.py:103-163 | a cluster adds at least one row, first a member of the cluster, and every row keeps its entry under the entry's key |
| DedupAuthor.Rows | app/backend/step_handlers/dedup_author.py:103-163 | every row of the first n clusters keeps its entry under the entry's key |
| DedupAuthor.EntriesAt | app/backend/step_handlers/dedup_author.py:108-153 | one passed entry per row |
| DedupAuthor.MultiMember | app/backend/step_handlers/dedup_author.py:208 | `total_clusters` is at most the number of clusters |
| DedupAuthor.PutBackRepresentative | app/backend/step_handlers/dedup_author.py:124-163 | the representative first, then the sorted members without it, list the cluster again |
| DedupAuthor.ClusterRowsIndices | app/backend/step_handlers/dedup_author.py:103-163 | each member of a cluster gets exactly one row |
| DedupAuthor.RowsIndices | app/backend/step_handlers/dedup_author.py:103-163 | the rows of the first n clusters list exactly those clusters' members |
| DedupAuthor.AtRange | app/backend/step_handlers/dedup_author.py:104 | reading the entries at 0..n-1 gives the entries back |
| DedupAuthor.AssembleKeepsEverything | app/backend/step_handlers/dedup_author.py:98-210 | the step never removes: `removed` is empty, `passed` holds every input entry exactly once, and the k-th change keeps the k-th passed entry |
| DedupAuthor.RowsCoverEntries | app/backend/step_handlers/dedup_author.py:103-163 | the rows of all clusters name every entry exactly once |
| DedupAuthor.Representatives | app/backend/step_handlers/dedup_author.py:125-133 | the number of representative changes is at most the number of changes |
| DedupAuthor.ClusterRepresentatives | app/backend/step_handlers/dedup_author.py:105-133 | one representative change per multi-member cluster and none for a unique entry |
| DedupAuthor.RowsRepresentatives | app/backend/step_handlers/dedup_author.py:103-133 | the representative changes of the first n clusters are their multi-member count |
| DedupAuthor.TotalClustersCountsRepresentatives | app/backend/step_handlers/dedup_author.py:208 | `total_clusters` is the number of representative changes |
| DedupAuthor.MemberRowsBelow | app/backend/step_handlers/dedup_author.py:143-163 | no member change records a similarity above a bound the scores stay under |
| DedupAuthor.MemberRowsAscending | app/backend/step_handlers/dedup_author.py:141-163 | a cluster's member changes come in ascending similarity |
| DedupAuthor.RepresentedRowsAscending | app/backend/step_handlers/dedup_author.py:124-163 | after the representative's change the member changes come in ascending similarity |
| DedupAuthor.AddMembers | app/backend/step_handlers/dedup_author.py:143-163 | the inner loop appends to `passed` the entry and to `changes` the `duplicate_author_member` change of each sorted member other than the representative, in sorted order |
| DedupAuthor.TracksAppend | app/backend/step_handlers/dedup_author.py:117-163 | appending rows appends their entries to `passed` and their changes to `changes` |
| DedupAuthor.AddCluster | app/backend/step_handlers/dedup_author.py:117-163 | one multi-member cluster appends to `passed` and `changes` the entries and changes of its rows, representative first |
| DedupAuthor.Run | app/backend/step_handlers/dedup_author.py:92-210 | the clusters partition the entries into the components of "author similarity at least the threshold", and the result is the cluster-by-cluster assembly of passed, removed and changes |
| AuthorNames.KeepNameChars | app/backend/step_handlers/dedup_author.py:22 | only `[a-z0-9]` is left, the result is no longer than the input, and `[a-z0-9]` text is unchanged |
| AuthorNames.NormalizeAuthorToken | app/backend/step_handlers/dedup_author.py:21-23 | the token holds only `[a-z0-9]` and is no longer than the input |
| AuthorNames.NormalizeAuthorTokenIdempotent | app/backend/step_handlers/dedup_author.py:21-23 | normalising a normalised token changes nothing |
| AuthorNames.NormalizeAuthorTokenIgnoresCase | app/backend/step_handlers/dedup_author.py:22 | upper-casing a token does not change its normal form |
| AuthorNames.NormalizeAuthorTokenConcat | app/backend/step_handlers/dedup_author.py:22 | the normal form of a concatenation is the concatenation of the normal forms |
| AuthorNames.SpaceRun | app/backend/step_handlers/dedup_author.py:29 | a `\s+` run stays inside the text and stops before a non-whitespace character |
| AuthorNames.AndMatch | app/backend/step_handlers/dedup_author.py:29 | a `\s+and\s+` match stays inside the text |
| AuthorNames.SepAt | app/backend/step_handlers/dedup_author.py:29 | a separator match (`\s+and\s+` first, then `;`) stays inside the text |
| AuthorNames.SepTable | app/backend/step_handlers/dedup_author.py:29 | one separator match length per position |
| AuthorNames.Pieces | app/backend/step_handlers/dedup_author.py:29 | the scan yields at least one piece |
| AuthorNames.SplitAuthors | app/backend/step_handlers/dedup_author.py:29 | `re.split(r"\s+and\s+\|;", s)` yields at least one piece |
| AuthorNames.SplitAuthorsSingle | app/backend/step_handlers/dedup_author.py:29 | a field without `;` and without a whitespace-delimited `and` is one piece |
| AuthorNames.SplitAuthorsAvoidSemicolon | app/backend/step_handlers/dedup_author.py:29 | no piece contains a semicolon |
| AuthorNames.SepTableSemicolon | app/backend/step_handlers/dedup_author.py:29 | the separator matches of "a;b" are a's, the semicolon's, then b's |
| AuthorNames.SplitAuthorsSemicolon | app/backend/step_handlers/dedup_author.py:29 | splitting "a;b" gives the pieces of a followed by the pieces of b |
| AuthorNames.AuthorSimilaritySymmetric | app/backend/step_handlers/dedup_author.py:48-53 | the Jaccard similarity is symmetric |
| AuthorNames.AuthorSimilarityBounds | app/backend/step_handlers/dedup_author.py:48-53 | the similarity lies in [0, 1] |
| AuthorNames.AuthorSimilarityOne | app/backend/step_handlers/dedup_author.py:48-53 | the similarity is 1 exactly for identical non-empty sets |
| AuthorNames.AuthorSimilarityDisjoint | app/backend/step_handlers/dedup_author.py:48-53 | sets with no common name have similarity 0 |
| ScreeningDedupAuthor.PartName | screening/app/backend/step_handlers/dedup_author.py:26-31 | the name a part contributes (its last whitespace token, normalised) is non-empty `[a-z0-9]` text |
| ScreeningDedupAuthor.NamesOf | screening/app/backend/step_handlers/dedup_author.py:25-31 | every collected name is non-empty `[a-z0-9]` text |
| ScreeningDedupAuthor.LastNames | screening/app/backend/step_handlers/dedup_author.py:20-32 | every last name in the set is non-empty `[a-z0-9]` text |
| ScreeningDedupAuthor.ExtractLastNames | screening/app/backend/step_handlers/dedup_author.py:20-32 | the loop adding names to a set returns exactly the last names of the split parts |
| ScreeningDedupAuthor.PartNameAgrees | screening/app/backend/step_handlers/dedup_author.py:26-31 | a part without a comma yields the same name as in the main application |
| ScreeningDedupAuthor.NamesOfAgrees | screening/app/backend/step_handlers/dedup_author.py:25-31 | parts without commas yield the same names as in the main application |
| ScreeningDedupAuthor.LastNamesAgree | screening/app/backend/step_handlers/dedup_author.py:20-32 | an author field without commas yields the same set as in the main application |
| ScreeningDedupAuthor.GivenNameLast | screening/app/backend/step_handlers/dedup_author.py:26-29 | for "Family, Given" this application takes the given name while the main application takes the family name |
| ScreeningDedupAuthor.CommaPairWords | screening/app/backend/step_handlers/dedup_author.py:26 | "Family, Given" strips to itself and splits into the words "Family," and "Given" |
| ScreeningDedupAuthor.AuthorSets | screening/app/backend/step_handlers/dedup_author.py:70 | one author set per entry |
| ScreeningDedupAuthor.ClusterEntries | screening/app/backend/step_handlers/dedup_author.py:55-83 | the clusters partition the entry indices (each ascending, ordered by smallest member) into the components of "author similarity at least the threshold" |
| ScreeningDedupAuthor.Kept | screening/app/backend/step_handlers/dedup_author.py:133-148 | the member a cluster keeps is one of its members |
| ScreeningDedupAuthor.KeptMembers | screening/app/backend/step_handlers/dedup_author.py:131-148 | one kept member per cluster, taken from that cluster |
| ScreeningDedupAuthor.Removals | screening/app/backend/step_handlers/dedup_author.py:166-184 | every removal is a `duplicate_author` remove naming the cluster id and the representative's key, with a similarity in [0, 1] |
| ScreeningDedupAuthor.OthersAscending | screening/app/backend/step_handlers/dedup_author.py:166-174 | a cluster's removed members come in ascending index order |
| ScreeningDedupAuthor.AssemblePartitions | screening/app/backend/step_handlers/dedup_author.py:126-209 | `passed` and `removed` together hold every input entry exactly once, and exactly one entry per cluster passes |
| ScreeningDedupAuthor.KeptIsBest | screening/app/backend/step_handlers/dedup_author.py:145-148 | the kept member is at least as new as every member and, among the newest, at least as complete |
| ScreeningDedupAuthor.PassedIsBest | screening/app/backend/step_handlers/dedup_author.py:131-154 | the k-th passed entry is the newest member of cluster k and, among the newest, the most complete |
| ScreeningDedupAuthor.Count | screening/app/backend/step_handlers/dedup_author.py:213 | the number of changes with a reason is at most the number of changes |
| ScreeningDedupAuthor.RemovalsLength | screening/app/backend/step_handlers/dedup_author.py:166-184 | one removal change per member other than the representative |
| ScreeningDedupAuthor.ClusterLength | screening/app/backend/step_handlers/dedup_author.py:133-184 | a cluster records one change per member |
| ScreeningDedupAuthor.ClusterRepresentatives | screening/app/backend/step_handlers/dedup_author.py:133-163 | a cluster records a representative change exactly when it has more than one member |
| ScreeningDedupAuthor.ClusterRemovals | screening/app/backend/step_handlers/dedup_author.py:166-184 | a cluster records one `duplicate_author` change per removed member |
| ScreeningDedupAuthor.ConcatCounts | screening/app/backend/step_handlers/dedup_author.py:131-184 | per-cluster counts of a reason add up over the clusters |
| ScreeningDedupAuthor.ConcatRepresentatives | screening/app/backend/step_handlers/dedup_author.py:213 | one representative change per multi-member cluster adds up to `total_clusters` |
| ScreeningDedupAuthor.AssembleCounts | screening/app/backend/step_handlers/dedup_author.py:126-215 | one change per passed or removed entry; `total_clusters` is the number of representative changes; every removed entry has a `duplicate_author` change |
| ScreeningDedupAuthor.BlockCounts | screening/app/backend/step_handlers/dedup_author.py:131-184 | the per-cluster counts hold for every cluster |
| ScreeningDedupAuthor.ClusterCounts | screening/app/backend/step_handlers/dedup_author.py:133-184 | a cluster's changes number its members, its removals are its `duplicate_author` changes, and it has a representative change exactly when it has several members |
| ScreeningDedupAuthor.RemoveOthers | screening/app/backend/step_handlers/dedup_author.py:166-184 | the inner loop appends every member other than the representative to `removed`, in member order, with its removal change |
| ScreeningDedupAuthor.AddCluster | screening/app/backend/step_handlers/dedup_author.py:145-184 | one multi-member cluster appends its kept member to `passed`, the others to `removed`, and its changes |
| ScreeningDedupAuthor.Run | screening/app/backend/step_handlers/dedup_author.py:122-215 | the clusters partition the entries into the components of "author similarity at least the threshold", and the result is the cluster-by-cluster assembly of passed, removed and changes |
| QuerySearch.CleanBibText | app/backend/query_search.py:37-42 | an empty value gives ""; otherwise the result has no leading, trailing or doubled whitespace |
| QuerySearch.CleanBibTextNoBraces | app/backend/query_search.py:41 | with entities left alone, no brace survives |
| QuerySearch.QuotedEnd | app/backend/query_search.py:106-109 | a quoted token found by the pattern ends on its closing quote, inside the text |
| QuerySearch.BareLen | app/backend/query_search.py:107 | `[^\s()]+` takes exactly the leading run of characters that are neither whitespace nor parentheses |
| QuerySearch.TokenLen | app/backend/query_search.py:106-109 | a token match at a non-space position is non-empty and inside the text |
| QuerySearch.Scan | app/backend/query_search.py:106-109 | every match of the token pattern is non-empty, starts on a non-space, and has the shape of one of the pattern's alternatives |
| QuerySearch.NonBlank | app/backend/query_search.py:151 | every token kept is non-blank once stripped and comes from the scan |
| QuerySearch.Tokenize | app/backend/query_search.py:150-151 | the blank filter drops nothing, so the tokens are the pattern's matches, each non-empty, non-blank and of a token shape |
| QuerySearch.NonBlankKeeps | app/backend/query_search.py:151 | the blank filter keeps every non-blank token |
| QuerySearch.TokenizePlainWords | app/backend/query_search.py:150-151 | plain words joined by single spaces tokenize back into those words |
| QuerySearch.KeyCharsIsLowerThenReplace | app/backend/query_search.py:157 | the key characters are `.lower()` followed by `.replace(" ", "_")` |
| QuerySearch.FieldKeyIsStripLowerReplace | app/backend/query_search.py:157 | the field key is `field.strip().strip('"').lower().replace(" ", "_")` |
| QuerySearch.NormalizeField | app/backend/query_search.py:154-160 | a field is recognised exactly when its key is title, abstract or any, and then it is that key |
| QuerySearch.NormalizeFieldIgnoresCase | app/backend/query_search.py:154-160 | field names are case-insensitive |
| QuerySearch.FieldKeyOfLowerWord | app/backend/query_search.py:157 | a lower-case name is its own key |
| QuerySearch.FieldNamesNormalize | app/backend/query_search.py:111-115 | each of title, abstract and any names itself |
| QuerySearch.StripQuotes | app/backend/query_search.py:167-171 | the search term has no leading or trailing whitespace |
| QuerySearch.TokenAt | app/backend/query_search.py:179-182 | `_peek`: the token at the cursor, None exactly at the end |
| QuerySearch.UpperAt | app/backend/query_search.py:191-193 | `_peek_upper`: the upper-cased token at the cursor, None exactly at the end |
| QuerySearch.OrExpr | app/backend/query_search.py:203-209 | a successful OR-level parse consumes at least one token and stays inside the tokens |
| QuerySearch.OrTail | app/backend/query_search.py:205-208 | the OR loop never moves the cursor back or past the end |
| QuerySearch.AndExpr | app/backend/query_search.py:211-226 | a successful AND-level parse consumes at least one token and stays inside the tokens |
| QuerySearch.AndTail | app/backend/query_search.py:213-225 | the AND loop never moves the cursor back or past the end |
| QuerySearch.NotExpr | app/backend/query_search.py:228-232 | a successful NOT-level parse consumes at least one token and stays inside the tokens |
| QuerySearch.PrimaryExpr | app/backend/query_search.py:234-270 | a successful primary consumes at least one token and stays inside the tokens |
| QuerySearch.GroupExpr | app/backend/query_search.py:239-244 | a successful group consumes its parentheses and stays inside the tokens |
| QuerySearch.FieldExpr | app/backend/query_search.py:247-259 | a successful field scope or field value consumes at least the field token and stays inside the tokens |
| QuerySearch.TermExpr | app/backend/query_search.py:261-270 | a successful term consumes at least one token and stays inside the tokens |
| QuerySearch.ParseFrom | app/backend/query_search.py:195-201 | no tokens is "Empty query."; the parse succeeds exactly when the OR-level parse succeeds and reaches the end, and then it is that tree |
| QuerySearch.Parse | app/backend/query_search.py:195-201 | no tokens is "Empty query."; success exactly when the OR-level parse from the start reaches the end |
| QuerySearch.ParseQuery | app/backend/query_search.py:273-276 | `parse_query` parses the tokens of the query; no tokens is "Empty query." |
| QuerySearch.QueryParser.constructor | app/backend/query_search.py:175-177 | the parser starts at position 0 over the given tokens |
| QuerySearch.QueryParser.Consume | app/backend/query_search.py:184-189 | the current token and one step forward, or "Unexpected end of query." with the cursor unmoved |
| QuerySearch.QueryParser.Parse | app/backend/query_search.py:195-201 | the method's outcome is the parse function's outcome from the cursor |
| QuerySearch.QueryParser.ParseOr | app/backend/query_search.py:203-209 | the OR loop's tree, error and final cursor are those of the OR-level function |
| QuerySearch.QueryParser.ParseAnd | app/backend/query_search.py:211-226 | the AND loop's tree, error and final cursor are those of the AND-level function |
| QuerySearch.QueryParser.ParseNot | app/backend/query_search.py:228-232 | the method's tree, error and cursor are those of the NOT-level function |
| QuerySearch.QueryParser.ParsePrimary | app/backend/query_search.py:234-270 | the method's tree, error and cursor are those of the primary function |
| QuerySearch.QueryParser.ParseGroup | app/backend/query_search.py:239-244 | the group branch's tree, error and cursor are those of the group function |
| QuerySearch.QueryParser.ParseField | app/backend/query_search.py:247-259 | the field branch's tree, error and cursor are those of the field function |
| QuerySearch.QueryParser.ParseTerm | app/backend/query_search.py:261-270 | the term branch's tree, error and cursor are those of the term function |
| QuerySearch.RunParseQuery | app/backend/query_search.py:273-276 | running a fresh parser object gives `ParseQuery` of the query |
| QuerySearch.AndTailNext | app/backend/query_search.py:213-224 | one round of the AND loop (explicit or implicit) extends the tree by the next NOT-level expression, or fails with its error |
| QuerySearch.AndExprAt | app/backend/query_search.py:211-226 | an AND-level expression is its first NOT-level expression followed by the AND loop |
| QuerySearch.OrExprAt | app/backend/query_search.py:203-209 | an OR-level expression is its first AND-level expression followed by the OR loop |
| QuerySearch.OrTailStep | app/backend/query_search.py:205-208 | one round of the OR loop adds the next AND-level expression as the right operand |
| QuerySearch.ParseWhole | app/backend/query_search.py:195-209 | a whole query whose AND-level parse reaches the end is that parse |
| QuerySearch.OrTailAtEnd | app/backend/query_search.py:205 | the OR loop stops at the end of the tokens |
| QuerySearch.AndTailAtOr | app/backend/query_search.py:220-225 | the AND loop stops in front of OR |
| QuerySearch.ParseImplicitAnd | app/backend/query_search.py:220-224 | operands side by side are joined by implicit ANDs, nested to the left |
| QuerySearch.ParseExplicitAnd | app/backend/query_search.py:214-219 | an explicit AND, in any letter case, parses like the implicit one, nested to the left |
| QuerySearch.ParseExplicitOr | app/backend/query_search.py:203-209 | OR, in any letter case, nests to the left |
| QuerySearch.AndBindsTighterThanOr | app/backend/query_search.py:203-226 | a OR b AND c parses as a OR (b AND c) |
| QuerySearch.AndPairBeforeOr | app/backend/query_search.py:211-226 | "a AND b" in front of OR is one AND-level expression |
| QuerySearch.AndBeforeOr | app/backend/query_search.py:203-226 | a AND b OR c parses as (a AND b) OR c |
| QuerySearch.NotBindsTightest | app/backend/query_search.py:228-232 | NOT a b parses as (NOT a) AND b |
| QuerySearch.GroupOverridesPrecedence | app/backend/query_search.py:239-244 | ( a OR b ) c parses as (a OR b) AND c |
| QuerySearch.GroupIsPrimary | app/backend/query_search.py:239-244 | a group whose OR-level expression ends at ")" is a NOT-level expression |
| QuerySearch.ParseOrWhole | app/backend/query_search.py:195-201 | a whole query whose OR-level parse reaches the end is that parse |
| QuerySearch.NotExprAtEnd | app/backend/query_search.py:234-237 | nothing left where a term is expected: "Unexpected end while parsing term." |
| QuerySearch.DanglingOperator | app/backend/query_search.py:203-237 | an operand followed by a dangling AND, OR or NOT fails with "Unexpected end while parsing term." |
| QuerySearch.UnclosedGroup | app/backend/query_search.py:239-243 | an opening parenthesis never closed fails with "Unexpected end of query." |
| QuerySearch.StrayClose | app/backend/query_search.py:195-201 | a closing parenthesis without an opening one fails with "Unexpected token: )" |
| QuerySearch.OrExprStops | app/backend/query_search.py:203-226 | a successful OR-level parse stops at the end of the query or at ")" |
| QuerySearch.GroupErrors | app/backend/query_search.py:239-244 | a group fails only where its inside fails or where the query ends, so "Missing closing parenthesis." is never the outcome |
| QuerySearch.FieldErrors | app/backend/query_search.py:247-259 | a field token fails only where its scope fails or the query ends, so neither "Missing closing parenthesis for field scope." nor "Unsupported field token" is ever the outcome |
| QuerySearch.PlainIsOperand | app/backend/query_search.py:261-270 | a plain word without a colon is an operand |
| QuerySearch.StripQuotesPlain | app/backend/query_search.py:167-171 | a plain word without a backslash is its own search term |
| QuerySearch.ParsePlainWords | app/backend/query_search.py:150-276 | plain words separated by spaces parse as the left-nested AND of the words |
| QuerySearch.EvalConj | app/backend/query_search.py:305-308 | the AND of the leaves holds exactly when every leaf holds |
| QuerySearch.EvalDisj | app/backend/query_search.py:310-313 | the OR of the leaves holds exactly when some leaf holds |
| QuerySearch.ConjHolds | app/backend/query_search.py:305-308 | under a valuation reading And as conjunction, a nested AND is the conjunction of its leaves |
| QuerySearch.DisjHolds | app/backend/query_search.py:310-313 | under a valuation reading Or as disjunction, a nested OR is the disjunction of its leaves |
| QuerySearch.SearchPlainWords | app/backend/query_search.py:273-321 | searching for plain words matches a record exactly when every word matches its title and abstract joined by a newline |
| QuerySearch.MatchTerm | app/backend/query_search.py:279-288 | an empty term never matches; without `*` the term is a case-insensitive substring test; with `*` each star matches any run of non-newline characters, case-insensitively |
| QuerySearch.FieldText | app/backend/query_search.py:291-296 | title for `title`, abstract for `abstract`, otherwise the title, a newline and the abstract |
| QuerySearch.GlobPrefixLiteral | app/backend/query_search.py:285-288 | without a `*` the pattern is a plain prefix test |
| QuerySearch.GlobSearchLiteral | app/backend/query_search.py:285-288 | without a `*` the wildcard search is a plain substring test |
| QuerySearch.GlobPrefixStarsEmpty | app/backend/query_search.py:286 | every `*` may match nothing |
| QuerySearch.MatchTermStarsEmpty | app/backend/query_search.py:279-288 | a term whose text without stars occurs in the text, ignoring case, matches |
| QuerySearch.MatchTermIgnoresCase | app/backend/query_search.py:279-288 | matching ignores the case of the term and of the text |
| QuerySearch.EvalIgnoresDefault | app/backend/query_search.py:299-319 | a query whose every term has a field or sits in a scope does not depend on the default field |
| QuerySearch.ScopeYieldsToExplicitFields | app/backend/query_search.py:300-302 | inside a scope a term's own field wins over the scope's field |
| QuerySearch.EvalAnyIsNoField | app/backend/query_search.py:291-303 | the field `any` and no field search the same text |
| PdfLibrary.Unquote | app/backend/pdf_library.py:114 | text without `%` is unchanged by `unquote` |
| PdfLibrary.DropDoiResolver | app/backend/pdf_library.py:118 | removing a leading `http(s)://(dx.)doi.org/` leaves a suffix of the text |
| PdfLibrary.DropDoiLabel | app/backend/pdf_library.py:119 | removing a leading `doi:` and the whitespace after it leaves a suffix, and text without the label is unchanged |
| PdfLibrary.DigitRun | app/backend/pdf_library.py:125 | the count of leading ASCII digits stops at the first non-digit |
| PdfLibrary.DoiUnwrap | app/backend/pdf_library.py:109-116 | after strip, strip("{}"), unquote and dropping backslashes no backslash is left |
| PdfLibrary.DoiCore | app/backend/pdf_library.py:118-120 | after dropping the prefixes and cutting at `?` and `#` neither is left, and no backslash comes back |
| PdfLibrary.DoiTail | app/backend/pdf_library.py:120 | after cutting at `#` and stripping whitespace and slashes no `#` is left and nothing new appears |
| PdfLibrary.CleanDoi | app/backend/pdf_library.py:109-121 | the cleaned DOI is lower-case and holds no `?`, `#` or backslash |
| PdfLibrary.LowerDoi | app/backend/pdf_library.py:121 | lower-casing leaves the removed punctuation absent |
| PdfLibrary.NormalizeDoiAsWritten | app/backend/pdf_library.py:106-127 | the as-written normaliser returns only text matching `^10\.\d{4,9}/\S+$` in Python's `$` sense (a final newline allowed) |
| PdfLibrary.NormalizeDoi | app/backend/pdf_library.py:106-127 | a normalised DOI is lower-case `10.<4-9 digits>/<suffix>` with no whitespace, query, fragment or backslash; None and blank input give None |
| PdfLibrary.NormalizeDoiTrailingNewline | app/backend/pdf_library.py:120-126 | the field `10.1234/abc\n/` normalises to a DOI ending in a newline as written, and to None once the shape is anchored at the true end |
| PdfLibrary.SlashAfterNewline | app/backend/pdf_library.py:109-121 | a text ending in a newline and then a slash loses only the slash to the cleaning |
| PdfLibrary.NormalizeDoiForms | app/backend/pdf_library.py:106-127 | the bare DOI, a `doi:` label, a doi.org or dx.doi.org resolver URL (each optionally with a query or fragment after it), and the DOI in braces all normalise to the same DOI |
| PdfLibrary.NormalizeReaches | app/backend/pdf_library.py:123-127 | once the cleaning reaches a DOI of the right shape, that DOI is returned |
| PdfLibrary.NotResolver | app/backend/pdf_library.py:118 | text not starting with `h` carries no resolver prefix |
| PdfLibrary.DropParams | app/backend/pdf_library.py:136-140 | dropping `;params` from the path keeps a prefix of the path |
| PdfLibrary.SplitScheme | app/backend/pdf_library.py:136-138 | a URL is accepted only with an http or https scheme |
| PdfLibrary.SplitNetloc | app/backend/pdf_library.py:136-139 | the network location stops at the first `/`, `?` or `#` |
| PdfLibrary.SplitQuery | app/backend/pdf_library.py:136-146 | the fragment is cut off and the path holds no `?` |
| PdfLibrary.ParseHttpUrl | app/backend/pdf_library.py:136-140 | the parsed parts have an http(s) scheme, and none holds `#` |
| PdfLibrary.UrlText | app/backend/pdf_library.py:139-147 | a URL is rebuilt exactly when its host is non-empty, starting with `http://` or `https://` and without a fragment |
| PdfLibrary.NormalizeUrlValue | app/backend/pdf_library.py:136-147 | a normalised URL starts with `http://` or `https://` and has no fragment |
| PdfLibrary.NormalizeUrl | app/backend/pdf_library.py:130-147 | a normalised URL starts with `http://` or `https://` and has no fragment; None gives None |
| PdfLibrary.NormalizeUrlParts | app/backend/pdf_library.py:130-147 | a well-formed http(s) URL normalises to `scheme://lower-case-host` + path, plus `?query` when the query is non-empty, whatever fragment it carries |
| PdfLibrary.KeyFrom | app/backend/pdf_library.py:151-158 | `doi:<DOI>` when there is a DOI, else `url:<URL>` when there is a URL, else None |
| PdfLibrary.CanonicalKey | app/backend/pdf_library.py:150-158 | an entry's key is `doi:` and its normalised DOI when it has one, else `url:` and its normalised URL when it has one, else None |
| PdfLibrary.KeyDoi | app/backend/pdf_library.py:191 | a key carries a DOI exactly when it starts with `doi:` |
| PdfLibrary.KeyFromDoiRoundTrip | app/backend/pdf_library.py:151-158 | reading the DOI back from a key gives the DOI the key was built from |
| PdfLibrary.CanonicalKeyDoiRoundTrip | app/backend/pdf_library.py:150-158 | the DOI read back from an entry's key is the entry's normalised DOI |
| PdfLibrary.GuessTitle | app/backend/pdf_library.py:318-320 | the guessed title holds no brace |
| PdfLibrary.FromPairs | app/backend/pdf_library.py:62-64 | a JSON object keeps its keys in first-appearance order, and every key comes from one of its members |
| PdfLibrary.LoadIndex | app/backend/pdf_library.py:56-75 | a missing, unparsable or non-object file gives the empty index; a non-dictionary `records` becomes empty; a missing `version` becomes "1.0"; otherwise the records are the file's members |
| PdfLibrary.FromPairsKeys | app/backend/pdf_library.py:62-64 | every member's key is in the object |
| PdfLibrary.AddRef | app/backend/pdf_library.py:231-238 | a non-empty value not yet listed is appended, nothing else changes, and a list without duplicates stays without duplicates |
| PdfLibrary.WithReferences | app/backend/pdf_library.py:219-238 | each non-empty project, step and entry id ends up listed, earlier references stay, duplicate-free lists stay duplicate-free, and no other field changes |
| PdfLibrary.NewRecord | app/backend/pdf_library.py:186-211 | a new record has the key, its id and DOI, the title, status `missing` with reason `not_checked`, no failures, no references and no file |
| PdfLibrary.Ensured | app/backend/pdf_library.py:177-216 | an existing record object is kept, its empty title filled from a non-empty title argument; anything else is replaced by a new record |
| PdfLibrary.Found | app/backend/pdf_library.py:241-282 | status `found` with no missing reason, the file, source and timestamps set, year and database only when given, the failure count and identity unchanged, references only added |
| PdfLibrary.Missing | app/backend/pdf_library.py:285-315 | status `missing` with the reason, one more failure, the file and source unchanged, year and database only when given, references only added |
| PdfLibrary.DictRecords | app/backend/pdf_library.py:88-91 | exactly the values of the dictionary that are record objects |
| PdfLibrary.InsertNewestFirst | app/backend/pdf_library.py:92 | inserting one record keeps the list newest first and adds exactly that record |
| PdfLibrary.SortNewestFirst | app/backend/pdf_library.py:92 | `sort(key=updated_at, reverse=True)` returns a permutation ordered newest first |
| PdfLibrary.Stamped | app/backend/pdf_library.py:92 | the records with one `updated_at`, in their order, are no more than the records |
| PdfLibrary.StampedConcat | app/backend/pdf_library.py:92 | the records with one `updated_at` of a concatenation are those of each part, one after the other |
| PdfLibrary.StampedSnoc | app/backend/pdf_library.py:92 | one more record adds itself to the records with its `updated_at` |
| PdfLibrary.StampedOlder | app/backend/pdf_library.py:92 | in a newest-first list headed by a record older than u, no record has `updated_at` u |
| PdfLibrary.InsertStable | app/backend/pdf_library.py:92 | an inserted record lands after every record with its `updated_at` |
| PdfLibrary.InsertStableFront | app/backend/pdf_library.py:92 | a record newer than the head goes first and lands after every record with its `updated_at` |
| PdfLibrary.InsertStableBehind | app/backend/pdf_library.py:92 | a record not newer than the head, placed stably in the tail, is placed stably in the whole list |
| PdfLibrary.StampedCons | app/backend/pdf_library.py:92 | a record in front adds itself in front of the records with its `updated_at` |
| PdfLibrary.NewestFirstTail | app/backend/pdf_library.py:92 | the tail of a newest-first list is newest-first |
| PdfLibrary.SortStable | app/backend/pdf_library.py:92 | the sort is stable: records with equal `updated_at` keep their dictionary order |
| PdfLibrary.FindById | app/backend/pdf_library.py:96-103 | the first record object in dictionary order whose id matches, with its key; None exactly when no record matches |
| PdfLibrary.PdfIndex.Load | app/backend/pdf_library.py:56-75 | the loaded object holds the index `load_pdf_index` produces |
| PdfLibrary.PdfIndex.ListRecords | app/backend/pdf_library.py:85-93 | the record objects of the index, newest `updated_at` first |
| PdfLibrary.PdfIndex.GetRecordById | app/backend/pdf_library.py:96-103 | the scan returns the first match in dictionary order |
| PdfLibrary.PdfIndex.EnsureRecord | app/backend/pdf_library.py:177-216 | the ensured record is stored under the key, a new key is appended to the dictionary order, and nothing else changes |
| PdfLibrary.PdfIndex.MarkFound | app/backend/pdf_library.py:241-282 | the found record is stored under the key, a new key is appended to the order, and nothing else changes |
| PdfLibrary.PdfIndex.MarkMissing | app/backend/pdf_library.py:285-315 | the missing record is stored under the key, a new key is appended to the order, and nothing else changes |
| PdfLibrary.PdfIndex.DeleteRecord | app/backend/pdf_library.py:323-354 | an unknown id is KeyError with the index unchanged; otherwise only that key is removed, and the file only for a managed record whose path exists |
| PdfLibrary.RemoveKey | app/backend/pdf_library.py:345-347 | deleting a key keeps exactly the other keys |
| PdfLibrary.MarkOutcomes | app/backend/pdf_library.py:241-315 | every mark keeps reference lists duplicate-free and never drops a reference; a missing outcome adds exactly one failure and a found outcome none |
| PdfLibrary.NewRecordDoi | app/backend/pdf_library.py:186-191 | a record created for an entry's DOI key carries that DOI; a URL key's record carries none |
| PdfLibraryRouter.ListedStatus | app/backend/routers/pdf_library.py:64 | a record's listed status is never empty: its own status, or `missing` when that is empty |
| PdfLibraryRouter.RefCountBound | app/backend/routers/pdf_library.py:80 | the number of distinct project ids is at most the list's length, equals it when the list has no repeats, and is zero only for the empty list |
| PdfLibraryRouter.ToView | app/backend/routers/pdf_library.py:58-81 | the view copies identity, DOI, title, path, ownership and reference lists, lists the status with the `missing` default, and counts distinct projects |
| PdfLibraryRouter.Listing | app/backend/routers/pdf_library.py:97-113 | the listing never grows the record list, holds only records of the asked status unless `all`, and with `all` and no query holds every record |
| PdfLibraryRouter.ListingMembers | app/backend/routers/pdf_library.py:97-113 | the listing holds the view of every record that passes the status and query filters, and nothing else |
| PdfLibraryRouter.QueryFindsTitle | app/backend/routers/pdf_library.py:103-109 | a query found in a record's lower-cased title keeps that record |
| PdfLibraryRouter.QueryFindsKey | app/backend/routers/pdf_library.py:103-109 | a query found in a record's lower-cased key keeps that record |
| PdfLibraryRouter.ListingSnoc | app/backend/routers/pdf_library.py:98-111 | one more record extends the listing by its view exactly when it passes the filters, in order |
| PdfLibraryRouter.GetPdfLibrary | app/backend/routers/pdf_library.py:84-113 | a status other than all, found or missing is 400 `Invalid status`; otherwise the filtered views of the records, newest first, for the stripped lower-cased query |
| PdfLibraryRouter.StatsOf | app/backend/routers/pdf_library.py:116-131 | the total is the record count; found plus missing, and managed plus external, never exceed it |
| PdfLibraryRouter.StatsMatchListing | app/backend/routers/pdf_library.py:99-122 | the found count is the length of the `found` listing; the missing count never exceeds the `missing` listing, which also takes records with an empty status |
| PdfLibraryRouter.FirstWithId | app/backend/routers/pdf_library.py:157 | the first record with the id, which is in the list; None exactly when no record has it |
| PdfLibraryRouter.DropTrailingSlashes | app/backend/routers/pdf_library.py:168-172 | trailing slashes are removed, leaving a prefix that does not end in `/` |
| PdfLibraryRouter.BaseName | app/backend/routers/pdf_library.py:172 | `Path.name` holds no `/` and is never `.`: trailing `/` and `.` components are passed over |
| PdfLibraryRouter.BaseNameDotComponent | app/backend/routers/pdf_library.py:172 | a trailing `/.` does not change the name (`Path("a/.").name` is `a`) |
| PdfLibraryRouter.BaseNameLastComponent | app/backend/routers/pdf_library.py:172 | the name of `q/n` is n for any component n other than `.` |
| PdfLibraryRouter.LastIndexOfAfter | app/backend/routers/pdf_library.py:172 | appending text without `/` leaves the last `/` where it was |
| PdfLibraryRouter.DownloadName | app/backend/routers/pdf_library.py:172-176 | the download name holds no `/`; with a DOI it is the DOI with slashes made underscores plus `.pdf` |
| PdfLibraryRouter.NotFoundDetail | app/backend/routers/pdf_library.py:159-170 | the not-found detail differs from the three other details |
| PdfLibraryRouter.ResolvePdfFile | app/backend/routers/pdf_library.py:154-177 | 404 exactly when no record has the id; 400 when the first has a status other than `found`; success only for that found record with a non-empty path present on disk, named by its download name |
| PdfLibraryRouter.InlineDisposition | app/backend/routers/pdf_library.py:150 | the view header is `inline; filename="…"` around the file name |
| PdfLibraryRouter.RemovePdfRecord | app/backend/routers/pdf_library.py:180-191 | an unknown id is 404 with the index unchanged; otherwise only that record's key is removed, and the file is reported removed only for a managed record whose path exists when deletion was asked |
| PdfFetch.MissingReasonLabel | app/backend/step_handlers/pdf_fetch.py:57-77 | no label for a missing or empty reason; otherwise the table's label, or the reason itself when it is not listed |
| PdfFetch.MissingReasonHint | app/backend/step_handlers/pdf_fetch.py:65-83 | a hint exactly for a non-empty listed reason, and then the table's hint |
| PdfFetch.SummarizeEntryLabel | app/backend/step_handlers/pdf_fetch.py:86-93 | the DOI when there is one; else the whitespace-collapsed title cut to 80 characters plus `...` (at most 83, starting with non-space); else the entry key |
| PdfFetch.SkipForeign | app/backend/step_handlers/pdf_fetch.py:100-105 | dropping the leading characters outside `[a-zA-Z0-9._-]` leaves a suffix that starts with an allowed character |
| PdfFetch.ReplaceForeignRuns | app/backend/step_handlers/pdf_fetch.py:100-105 | after `BROWSER_PROFILE_RE.sub("_")` only allowed characters remain, text of allowed characters is unchanged, and non-empty text stays non-empty |
| PdfFetch.SanitizeProfileName | app/backend/step_handlers/pdf_fetch.py:100-105 | a sanitized profile name is non-empty, made of `[a-zA-Z0-9._-]`, and neither starts nor ends with `.`, `_` or `-` |
| PdfFetch.CleanProfile | app/backend/step_handlers/pdf_fetch.py:104 | replacing foreign runs and stripping `._-` gives an empty text or a valid profile name |
| PdfFetch.DefaultIsProfileName | app/backend/step_handlers/pdf_fetch.py:101-105 | the fallback `default` is a valid profile name |
| PdfFetch.SanitizeKeepsProfileName | app/backend/step_handlers/pdf_fetch.py:100-105 | a valid profile name is left unchanged |
| PdfFetch.SanitizeIdempotent | app/backend/step_handlers/pdf_fetch.py:100-105 | sanitizing twice gives the same name as sanitizing once |
| PdfFetch.PdfSuffixIsPdfLike | app/backend/step_handlers/pdf_fetch.py:108-109 | a URL with `.pdf` (any case) at its end or just before `?` or `#` is PDF-like |
| PdfFetch.NoPdfNotPdfLike | app/backend/step_handlers/pdf_fetch.py:108-109 | a URL without `.pdf` anywhere is not PDF-like |
| PdfFetch.PublisherHintUrl | app/backend/step_handlers/pdf_fetch.py:267-278 | true exactly when the lower-cased non-empty URL contains one of the six publisher PDF markers |
| PdfFetch.HexUpper | app/backend/step_handlers/pdf_fetch.py:156 | the upper-case hex digit of a value below 16 reads back as that value |
| PdfFetch.Utf8 | app/backend/step_handlers/pdf_fetch.py:156 | a character encodes to one to four bytes, and an ASCII character to itself |
| PdfFetch.PercentBytes | app/backend/step_handlers/pdf_fetch.py:156 | each byte becomes three characters `%XX` |
| PdfFetch.Quote | app/backend/step_handlers/pdf_fetch.py:156 | `quote(s, safe="")` yields only unreserved characters, `%` and hex digits, and leaves unreserved text unchanged |
| PdfFetch.PercentBytesChars | app/backend/step_handlers/pdf_fetch.py:156 | percent-encoded bytes consist of `%` and hex digits only |
| PdfFetch.QuoteRoundTrip | app/backend/step_handlers/pdf_fetch.py:156 | for ASCII text, unquoting the quoted text gives the text back |
| PdfFetch.QuoteHead | app/backend/step_handlers/pdf_fetch.py:156 | the quoted form of one ASCII character unquotes to that character, whatever follows |
| PdfFetch.DigitRunLen | app/backend/step_handlers/pdf_fetch.py:37 | the length of the leading run of ASCII digits, which stops at the first non-digit |
| PdfFetch.VersionLen | app/backend/step_handlers/pdf_fetch.py:37 | the matched `v\d+` suffix fits in the text |
| PdfFetch.ArxivIdLen | app/backend/step_handlers/pdf_fetch.py:37 | a match of `\d{4}\.\d{4,5}(?:v\d+)?` is at least nine characters: four digits, a dot and more |
| PdfFetch.SearchArxivId | app/backend/step_handlers/pdf_fetch.py:37 | a found arXiv id has at least nine characters |
| PdfFetch.ArxivAbsId | app/backend/step_handlers/pdf_fetch.py:36 | the id after `http(s)://arxiv.org/abs/` is non-empty and holds no `/`, `?` or `#` |
| PdfFetch.AbsIdAfter | app/backend/step_handlers/pdf_fetch.py:36 | the `[^/?#]+` run is non-empty and free of `/`, `?` and `#` |
| PdfFetch.ArxivPdfUrl | app/backend/step_handlers/pdf_fetch.py:112-135 | a result is always `https://arxiv.org/pdf/<id>.pdf` for a non-empty id, and an http(s) URL off arxiv.org gives None |
| PdfFetch.ArxivBareId | app/backend/step_handlers/pdf_fetch.py:128-134 | a bare id such as `2101.00001v2` becomes its PDF URL |
| PdfFetch.BareIdEndsInDigit | app/backend/step_handlers/pdf_fetch.py:128 | a bare arXiv id ends in a digit |
| PdfFetch.BareIdNoColon | app/backend/step_handlers/pdf_fetch.py:128 | a bare arXiv id holds no colon, so it is no URL |
| PdfFetch.ArxivAbsUrl | app/backend/step_handlers/pdf_fetch.py:117-124 | an arxiv.org/abs/ URL becomes the PDF URL of the id it names |
| PdfFetch.ArxivPrefixedId | app/backend/step_handlers/pdf_fetch.py:126-134 | `arXiv:` (in any letter case) followed by an id becomes the PDF URL of that id |
| PdfFetch.ArxivPrefixedStripped | app/backend/step_handlers/pdf_fetch.py:113 | an `arXiv:` id has no surrounding white space to strip |
| PdfFetch.ArxivPrefixedNoUrl | app/backend/step_handlers/pdf_fetch.py:117-124 | an `arXiv:` id has no http(s) scheme and is no arxiv.org/abs/ link |
| PdfFetch.ArxivPrefixLetters | app/backend/step_handlers/pdf_fetch.py:126 | a prefix matching `arxiv:` ignoring case is five letters and a colon, none a digit or white space |
| PdfFetch.StartsWithIgnoreCaseAt | app/backend/step_handlers/pdf_fetch.py:126 | a case-insensitive prefix match lower-cases each position to the prefix character |
| PdfFetch.PrefixIgnoreCaseExtends | app/backend/step_handlers/pdf_fetch.py:126 | a case-insensitive prefix of s is one of s followed by anything |
| PdfFetch.IndexOfAt | app/backend/step_handlers/pdf_fetch.py:117 | the first `:` is at k when no `:` comes before it |
| PdfFetch.SearchAfterNonDigits | app/backend/step_handlers/pdf_fetch.py:127 | `ARXIV_ID_RE.search` passes over characters that are not digits and finds the id after them |
| PdfFetch.Latin1LowerStr | app/backend/step_handlers/pdf_fetch.py:297 | decoding as Latin-1 gives one character per byte |
| PdfFetch.LikelyIgnoresTail | app/backend/step_handlers/pdf_fetch.py:297 | bytes after the first two million never change the verdict |
| PdfFetch.LikelyWhenSampleNamesDoi | app/backend/step_handlers/pdf_fetch.py:298-299 | a sample that mentions the normalised DOI is accepted whatever the URL |
| PdfFetch.UnlikelyWithoutEvidence | app/backend/step_handlers/pdf_fetch.py:281-302 | with a valid DOI, a body is rejected when neither the unquoted URL nor the sample mentions the DOI or its suffix of six or more characters |
| PdfFetch.FindPdf | app/backend/step_handlers/pdf_fetch.py:541 | the first position of `.pdf` in any case, and None when there is none |
| PdfFetch.PdfAtShift | app/backend/step_handlers/pdf_fetch.py:541 | dropping the first character shifts every `.pdf` position by one |
| PdfFetch.FilePartCandidate | app/backend/step_handlers/pdf_fetch.py:538-544 | a candidate from one part always ends in `.pdf` |
| PdfFetch.CutEndsWithPdf | app/backend/step_handlers/pdf_fetch.py:542 | stripping a text that ends in `.pdf` keeps that ending |
| PdfFetch.FileParts | app/backend/step_handlers/pdf_fetch.py:536 | the parts are non-blank and hold no `;` |
| PdfFetch.StrippedNonBlank | app/backend/step_handlers/pdf_fetch.py:536 | stripping and dropping the blank parts keeps them non-empty and free of `;` |
| PdfFetch.PartCandidate | app/backend/step_handlers/pdf_fetch.py:537-544 | a part gives at most one candidate, and one exactly when it has a candidate |
| PdfFetch.PartCandidates | app/backend/step_handlers/pdf_fetch.py:537-544 | the parts give no more candidates than there are parts |
| PdfFetch.PartCandidatesEndWithPdf | app/backend/step_handlers/pdf_fetch.py:537-545 | every candidate ends in `.pdf` |
| PdfFetch.FileFieldCandidates | app/backend/step_handlers/pdf_fetch.py:521-545 | a blank field gives no candidates, and every candidate ends in `.pdf` |
| PdfFetch.FilePartCandidateMeans | app/backend/step_handlers/pdf_fetch.py:538-544 | a part gives a candidate exactly when it mentions `.pdf`, and the candidate is the trimmed part cut just after its first `.pdf`, stripped |
| PdfFetch.PartCandidatesSnoc | app/backend/step_handlers/pdf_fetch.py:537-544 | one more part appends its own candidate, if any |
| PdfFetch.PartCandidatesOfPdfParts | app/backend/step_handlers/pdf_fetch.py:537-545 | the candidates are, in order, one for each part that mentions `.pdf`, and none for the others |
| PdfFetch.FileFieldCandidatesOfPdfParts | app/backend/step_handlers/pdf_fetch.py:521-545 | one candidate, in order, for each non-blank `;`-part of the stripped field that mentions `.pdf` |
| PdfFetch.ExtractFileFieldCandidates | app/backend/step_handlers/pdf_fetch.py:521-545 | the loop returns exactly the candidates of the field |
| PdfFetch.CandidatesOfParts | app/backend/step_handlers/pdf_fetch.py:537-545 | the loop over the parts returns their candidates in order |
| PdfFetch.AcceptFetch | app/backend/step_handlers/pdf_fetch.py:696-736 | a body is returned exactly for a 200 answer whose declared and actual size stay within `max_pdf_mb` MiB, whose body is non-empty and whose content type or `%PDF-` start says PDF; it is the joined chunks with the final URL and a lower-case content type |
| PdfFetch.FetchPdfBytes | app/backend/step_handlers/pdf_fetch.py:696-736 | the streaming loop, which skips empty chunks and gives up once the running size passes the limit, returns exactly the accepted fetch |
| PdfFetch.AcceptBrowserResponse | app/backend/step_handlers/pdf_fetch.py:432-445 | the browser's answer is accepted exactly for status 200 with a non-empty body within the limit whose content type or `%PDF-` start says PDF |
| PdfFetch.Added | app/backend/step_handlers/pdf_fetch.py:138-145 | add_url_candidate appends the normalised URL exactly when it exists and is not yet listed, and otherwise changes nothing |
| PdfFetch.AddAll | app/backend/step_handlers/pdf_fetch.py:138-145 | a run of adds only ever extends the list |
| PdfFetch.AddAllDistinct | app/backend/step_handlers/pdf_fetch.py:138-145 | adding keeps the listed URLs distinct |
| PdfFetch.AddedDistinct | app/backend/step_handlers/pdf_fetch.py:142-145 | one add keeps the listed URLs distinct |
| PdfFetch.AddAllComplete | app/backend/step_handlers/pdf_fetch.py:138-145 | every proposed URL that normalises ends up listed |
| PdfFetch.AddAllSound | app/backend/step_handlers/pdf_fetch.py:138-145 | nothing is listed that was neither listed before nor proposed |
| PdfFetch.AddedSound | app/backend/step_handlers/pdf_fetch.py:138-145 | one add lists nothing but the old URLs and the normalised proposal |
| PdfFetch.AddAllAppend | app/backend/step_handlers/pdf_fetch.py:138-145 | adding two lists of proposals is adding one after the other |
| PdfFetch.CandidateList.Add | app/backend/step_handlers/pdf_fetch.py:138-145 | the candidate list becomes the list with the proposal added, and `seen` stays the set of its URLs |
| PdfFetch.CandidateList.AddEach | app/backend/step_handlers/pdf_fetch.py:1020-1026 | the candidate list becomes the list with all proposals added in order |
| PdfFetch.ArxivProposal | app/backend/step_handlers/pdf_fetch.py:612-623 | at most one arXiv proposal per text |
| PdfFetch.DirectPublisherProposals | app/backend/step_handlers/pdf_fetch.py:148-161 | no links for a non-ACM DOI, and the four dl.acm.org PDF and ePDF links for an ACM one |
| PdfFetch.DoiProposals | app/backend/step_handlers/pdf_fetch.py:628-630 | the first DOI-based proposal is the doi.org resolver with the quoted DOI |
| PdfFetch.CollectCandidateUrls | app/backend/step_handlers/pdf_fetch.py:601-693 | the candidates are the entry's own links, then with a DOI the resolver, the ACM links and the lookups' URLs, added in that order |
| PdfFetch.CandidateProposals | app/backend/step_handlers/pdf_fetch.py:610-630 | the entry's own proposals always come first |
| PdfFetch.ResolverAlwaysListed | app/backend/step_handlers/pdf_fetch.py:625-629 | with a DOI, the doi.org resolver link is always among the candidates |
| PdfFetch.ArxivEntryFirst | app/backend/step_handlers/pdf_fetch.py:610-614 | an entry whose url names an arXiv paper gets the arXiv PDF as its first candidate |
| PdfFetch.ProvidersSnoc | app/backend/step_handlers/pdf_fetch.py:998 | one more tried candidate adds its provider to the attempted set |
| PdfFetch.DiscoveredProposes | app/backend/step_handlers/pdf_fetch.py:1012-1026 | a landing page's proposal from a tried URL is among the discoveries |
| PdfFetch.LandingReachable | app/backend/step_handlers/pdf_fetch.py:1012-1026 | a URL added from a landing page is reachable |
| PdfFetch.DownloadLoop | app/backend/step_handlers/pdf_fetch.py:992-1064 | the list only grows; candidates are fetched in order and the loop stops at the first accepted body, with that candidate's provider; every tried candidate's provider is attempted; all earlier fetches failed, and the list is the start plus what their landing pages yield |
| PdfFetch.TryCandidate | app/backend/step_handlers/pdf_fetch.py:996-1027 | one turn fetches the i-th candidate and, on failure, adds what its landing page yields, leaving the tried prefix as it was |
| PdfFetch.AllFailSnoc | app/backend/step_handlers/pdf_fetch.py:1008-1027 | one more failed fetch extends the run of failures |
| PdfFetch.FailedStep | app/backend/step_handlers/pdf_fetch.py:1008-1027 | after a failed fetch its landing proposals join the discoveries and the tried prefix is unchanged |
| PdfFetch.DownloadExhaustive | app/backend/step_handlers/pdf_fetch.py:996-1027 | when every candidate fails, every URL a listed landing page proposes is listed |
| PdfFetchStep.IdOr | app/backend/step_handlers/pdf_fetch.py:950 | the reported record id is the marked record's id when it is non-empty |
| PdfFetchStep.DownloadKey | app/backend/step_handlers/pdf_fetch.py:1031-1036 | a download is stored under the canonical key when there is one |
| PdfFetchStep.CacheStep | app/backend/step_handlers/pdf_fetch.py:912-950 | the entry is found in the cache exactly when caching is on and the key's record is `found` with an existing file that fits the DOI; then the source is `cache`, and otherwise the index is unchanged |
| PdfFetchStep.LocalStep | app/backend/step_handlers/pdf_fetch.py:952-976 | an entry already found is left alone; otherwise it is found exactly when a local PDF exists, with source `local_file` and provider `local`, and the index changes only then |
| PdfFetchStep.StoreDownload | app/backend/step_handlers/pdf_fetch.py:1029-1063 | a stored download is found with the given source, provider and final URL, under the download key |
| PdfFetchStep.FetchOf | app/backend/step_handlers/pdf_fetch.py:1001-1007 | each candidate URL's result is the accepted fetch of the response it gets |
| PdfFetchStep.DownloadStep | app/backend/step_handlers/pdf_fetch.py:978-1064 | nothing is tried for an entry already found or with downloads off; a download is found with source `download`; when every candidate fails, the candidates are distinct, all failed, and their providers are exactly the attempted ones, with the index unchanged |
| PdfFetchStep.BrowserStep | app/backend/step_handlers/pdf_fetch.py:1066-1168 | browser assist is used exactly for a still-missing entry with downloads and assist on and a DOI or URL; it counts one attempt, and a resolution counts as resolved and downloaded; an unstartable browser turns assist off for the rest of the run; an unresolved entry's reason is a listed one other than `not_found` |
| PdfFetchStep.EntryIdentity | app/backend/step_handlers/pdf_fetch.py:883-889 | the entry's identity has the normalised DOI, the canonical key of the entry, and its entry key |
| PdfFetchStep.EntryKey | app/backend/step_handlers/pdf_fetch.py:883 | the entry key is the `ID` field, or `row_<no>` when that is empty, and is never empty |
| PdfFetchStep.MissingStep | app/backend/step_handlers/pdf_fetch.py:1170-1182 | a found entry changes nothing; an unresolved one gets a listed reason, `pdf_not_resolved` in place of `not_found`, and with a key a `missing` record carrying that reason |
| PdfFetchStep.ResolveKeyed | app/backend/step_handlers/pdf_fetch.py:912-1182 | cache, local file, download and browser assist are tried in order; a usable cache always wins; a found entry has a source and no reason, a missing one a listed reason other than `not_found` and a `missing` record; exactly one hit counter grows for a found entry |
| PdfFetchStep.ResolveEntry | app/backend/step_handlers/pdf_fetch.py:882-1182 | each entry is found exactly when it has no missing reason, with a known source; hit counters grow by one per found entry; browser attempts by one per assisted entry and resolutions never exceed attempts |
| PdfFetchStep.NormalizePassMode | app/backend/step_handlers/pdf_fetch.py:835-837 | the pass mode is `pdf_only` exactly when the stripped setting is `pdf_only`, and otherwise `all` |
| PdfFetchStep.AssistEnabledSetting | app/backend/step_handlers/pdf_fetch.py:842 | browser assist runs when the setting says so, and by default |
| PdfFetchStep.ReportedAssistEnabledAsWritten | app/backend/step_handlers/pdf_fetch.py:1305 | the reported `browser_assist.enabled` as written reads the setting with a default of off |
| PdfFetchStep.ReportedAssistEnabledDisagrees | app/backend/step_handlers/pdf_fetch.py:842 | without the setting, browser assist runs while the statistic as written reports it disabled |
| PdfFetchStep.ReportedAssistEnabled | app/backend/step_handlers/pdf_fetch.py:1305 | the reported `browser_assist.enabled` agrees with whether browser assist runs |
| PdfFetchStep.SettingsOf | app/backend/step_handlers/pdf_fetch.py:838-857 | cache reuse and downloads default to on, the size limit to 50 MB, and the project and step ids are stripped |
| PdfFetchStep.Select | app/backend/step_handlers/pdf_fetch.py:1215-1234 | a selection of the entries by outcome is no longer than the input |
| PdfFetchStep.SelectPartition | app/backend/step_handlers/pdf_fetch.py:1215-1234 | the found and the missing entries together are the input, each entry exactly once |
| PdfFetchStep.SelectCount | app/backend/step_handlers/pdf_fetch.py:1215-1234 | the found and the missing entries together are as many as the input |
| PdfFetchStep.SelectSnoc | app/backend/step_handlers/pdf_fetch.py:1215-1234 | one more entry extends exactly one of the two selections |
| PdfFetchStep.ChangeAll | app/backend/step_handlers/pdf_fetch.py:1217-1242 | in `all` mode every entry is kept, with reason `pdf_available` exactly when it was found |
| PdfFetchStep.ChangePdfOnly | app/backend/step_handlers/pdf_fetch.py:1225-1250 | in `pdf_only` mode an entry is removed exactly when it has no PDF and kept exactly when it has one |
| PdfFetchStep.SelectExtend | app/backend/step_handlers/pdf_fetch.py:1215-1234 | the next entry extends exactly one of the selections |
| PdfFetchStep.ChangesExtend | app/backend/step_handlers/pdf_fetch.py:1215-1250 | the next entry appends its change in each mode |
| PdfFetchStep.KeysOf | app/backend/step_handlers/pdf_fetch.py:883 | one entry key per entry |
| PdfFetchStep.ChangesOf | app/backend/step_handlers/pdf_fetch.py:1215-1250 | one change per entry |
| PdfFetchStep.KeysOfAt | app/backend/step_handlers/pdf_fetch.py:883 | entry i's key is the entry key of its number and fields |
| PdfFetchStep.ChangesOfAt | app/backend/step_handlers/pdf_fetch.py:1215-1250 | entry i's change is the mode's change for its key and outcome |
| PdfFetchStep.ChangeActions | app/backend/step_handlers/pdf_fetch.py:1215-1250 | the `pdf_only` changes remove exactly the entries without a PDF, `all` keeps every entry, and both carry the entry's key |
| PdfFetchStep.ChangesSnoc | app/backend/step_handlers/pdf_fetch.py:1215-1250 | one more entry appends its change |
| PdfFetchStep.Append | app/backend/step_handlers/pdf_fetch.py:1215-1250 | recording an entry appends its outcome and grows the found list exactly when it was found |
| PdfFetchStep.AppendListed | app/backend/step_handlers/pdf_fetch.py:1215-1250 | recording entry i keeps the lists in step with the input |
| PdfFetchStep.Gather | app/backend/step_handlers/pdf_fetch.py:882-1265 | one loop turn keeps the run's accounting invariant for one more entry |
| PdfFetchStep.GatheredAll | app/backend/step_handlers/pdf_fetch.py:1215-1272 | once all entries are gathered, the found and missing lists partition the input and the changes are those of each mode |
| PdfFetchStep.Run | app/backend/step_handlers/pdf_fetch.py:829-1313 | the found and missing lists partition the input; `all` passes every entry and `pdf_only` the found ones, removing exactly the missing ones; one change per entry in each mode; hit counters add up to the found entries; assist resolutions never exceed attempts, which are zero when assist or downloads are off and at most one when no browser starts; the reported `enabled` holds whenever assist was attempted |
| Text.LowerStr | app/backend/pdf_library.py:121 | `str.lower` keeps the length and lower-cases each ASCII letter |
| Text.LowerStrIdempotent | app/backend/pdf_library.py:121 | lower-casing twice is lower-casing once |
| Text.LowerStrConcat | app/backend/routers/pdf_library.py:104-107 | lower-casing a concatenation lower-cases each part |
| Text.StripSet | app/backend/step_handlers/pdf_fetch.py:538 | `str.strip(chars)` leaves neither end in the set, brings in no character, and leaves text without those characters unchanged |
| Text.Strip | app/backend/step_handlers/pdf_fetch.py:113 | `str.strip()` leaves neither end white space and brings in no character |
| Text.StripStartFacts | app/backend/step_handlers/pdf_fetch.py:531 | the leading strip removes exactly the leading run of stripped characters |
| Text.StripEndFacts | app/backend/step_handlers/pdf_fetch.py:531 | the trailing strip removes exactly the trailing run of stripped characters |
| Text.ReplaceChar | app/backend/routers/pdf_library.py:175 | `str.replace` of one character by another changes exactly its occurrences |
| Text.RemoveChar | app/backend/pdf_library.py:115 | `str.replace(c, "")` removes every `c`, and text without `c` is unchanged |
| Text.IndexOf | app/backend/step_handlers/pdf_fetch.py:541 | the first index of a character, and None exactly when it does not occur |
| Text.Before | app/backend/pdf_library.py:120 | `split(c, 1)[0]` is a prefix without `c`, the whole text when there is no `c` |
| Text.After | app/backend/step_handlers/pdf_fetch.py:289 | the text after the first `c`, which with the part before it rebuilds the text |
| Text.Split | app/backend/step_handlers/pdf_fetch.py:536 | `str.split(sep)` gives at least one part, and no part holds the separator |
| Text.Words | app/backend/step_handlers/pdf_fetch.py:90 | `str.split()` gives maximal runs of non-white-space |
| Text.CollapseSpaces | app/backend/step_handlers/pdf_fetch.py:90 | `" ".join(s.split())` gives words separated by single spaces, with no space at either end |
| Text.CollapsedFixed | app/backend/step_handlers/pdf_fetch.py:90 | collapsing an already collapsed text leaves it unchanged |
| Text.NatToString | app/backend/step_handlers/pdf_fetch.py:883 | `str(n)` is a non-empty run of decimal digits |
| Text.ParseInt | scripts/arxiv/arxiv_fetch.py:186 | `int(text)` succeeds only on non-empty text |
| Text.ParseIntOfNat | scripts/arxiv/arxiv_fetch.py:186 | `int(str(n)) == n` |
| Text.StrLtIrreflexive | app/backend/pdf_library.py:92 | string order is irreflexive |
| Text.StrLtTransitive | app/backend/pdf_library.py:92 | string order is transitive |
| Text.StrLtTotal | app/backend/pdf_library.py:92 | any two strings are ordered or equal |
| SpringerBibtex.NormalizeWhitespace | scripts/bibtex_fetcher/springer_csv_to_bibtex.py:21-22 | the result is collapsed: words separated by single spaces, no space at the ends; all-space text becomes empty |
| SpringerBibtex.NormalizeWhitespaceIdempotent | scripts/bibtex_fetcher/springer_csv_to_bibtex.py:21-22 | normalising twice is normalising once |
| SpringerBibtex.CleanText | scripts/bibtex_fetcher/springer_csv_to_bibtex.py:25-29 | the cleaned text is collapsed and holds no no-break space; a missing or empty value gives "" |
| SpringerBibtex.CleanTextIdempotent | scripts/bibtex_fetcher/springer_csv_to_bibtex.py:25-29 | cleaning clean text changes nothing when unescaping leaves it alone |
| SpringerBibtex.CleanTextTwice | scripts/bibtex_fetcher/springer_csv_to_bibtex.py:25-29 | a character reference left by one pass is unescaped by the next, so cleaning twice unescapes twice |
| SpringerBibtex.SkipNonAlnum | scripts/bibtex_fetcher/springer_csv_to_bibtex.py:290 | dropping the leading non-alphanumerics leaves a suffix that starts with an alphanumeric |
| SpringerBibtex.SlugRuns | scripts/bibtex_fetcher/springer_csv_to_bibtex.py:290 | `re.sub(r"[^A-Za-z0-9]+", "_")` leaves only alphanumerics and `_`, keeps a leading alphanumeric, and keeps non-empty text non-empty |
| SpringerBibtex.SlugRunsSingle | scripts/bibtex_fetcher/springer_csv_to_bibtex.py:290 | the replacement never leaves two `_` in a row |
| SpringerBibtex.SlugRunsAlnums | scripts/bibtex_fetcher/springer_csv_to_bibtex.py:290 | the replacement keeps exactly the alphanumerics, in order |
| SpringerBibtex.StripUnderscoresSlice | scripts/bibtex_fetcher/springer_csv_to_bibtex.py:290 | `strip("_")` leaves a slice with only underscores cut off at each end |
| SpringerBibtex.StripKeepsAlnums | scripts/bibtex_fetcher/springer_csv_to_bibtex.py:290 | stripping underscores drops no alphanumeric |
| SpringerBibtex.StripRuns | scripts/bibtex_fetcher/springer_csv_to_bibtex.py:290 | stripping keeps the run shape and alphanumerics and leaves no `_` at either end |
| SpringerBibtex.LowerRuns | scripts/bibtex_fetcher/springer_csv_to_bibtex.py:290 | lower-casing keeps the run shape and lower-cases the alphanumerics |
| SpringerBibtex.SlugifyShape | scripts/bibtex_fetcher/springer_csv_to_bibtex.py:289-291 | a slug is non-empty, made of `[a-z0-9_]`, has no `_` at either end or twice in a row, keeps exactly the value's letters and digits lower-cased, and is `entry` exactly when the value has none |
| SpringerBibtex.SlugShape | scripts/bibtex_fetcher/springer_csv_to_bibtex.py:290 | a value with alphanumerics slugs to a non-empty run-shaped slug of them, lower-cased |
| SpringerBibtex.SlugEmpty | scripts/bibtex_fetcher/springer_csv_to_bibtex.py:290-291 | a value without alphanumerics leaves an empty slug, hence the fallback |
| SpringerBibtex.FallbackSlug | scripts/bibtex_fetcher/springer_csv_to_bibtex.py:291 | the fallback `entry` is itself a slug |
| SpringerBibtex.CandidatesDistinct | scripts/bibtex_fetcher/springer_csv_to_bibtex.py:301-303 | distinct suffixes give distinct keys, none equal to the base |
| SpringerBibtex.FreeKey | scripts/bibtex_fetcher/springer_csv_to_bibtex.py:299-303 | the key is unused: the base when free, otherwise `base_n` for the first free n from 2 |
| SpringerBibtex.UsedKeys.MakeCitationKey | scripts/bibtex_fetcher/springer_csv_to_bibtex.py:294-305 | the key was not used before and is used from now on; it is `springer_` plus the DOI's slug (or the title's, cut to 40) or that base's first free `_n` variant |
| SpringerBibtex.EntryTypeFromCsv | scripts/bibtex_fetcher/springer_csv_to_bibtex.py:265-275 | the CSV type is always one of the known entry types |
| SpringerBibtex.EntryTypeFromCsvFirstMatch | scripts/bibtex_fetcher/springer_csv_to_bibtex.py:265-275 | the type belongs to the first keyword, in the order conference, chapter, article, book, that the lower-cased content type contains |
| SpringerBibtex.EntryTypeFromCsvMisc | scripts/bibtex_fetcher/springer_csv_to_bibtex.py:265-275 | the type is `misc` exactly when the content type contains none of the keywords |
| SpringerBibtex.EntryTypeFromCrossref | scripts/bibtex_fetcher/springer_csv_to_bibtex.py:278-286 | a mapped Crossref type gives a known entry type, any other the fallback |
| SpringerBibtex.YearFrom | scripts/bibtex_fetcher/springer_csv_to_bibtex.py:217-221 | "" exactly when no date key has a year; otherwise the first year of the first key that has one |
| SpringerBibtex.ExtractYear | scripts/bibtex_fetcher/springer_csv_to_bibtex.py:216-221 | the year of the first of published-print, published-online, issued and created that has one, as text, and "" without any |
| SpringerBibtex.FirstText | scripts/bibtex_fetcher/springer_csv_to_bibtex.py:224-239 | the cleaned first item of a list or the cleaned string, always collapsed; "" for an empty list or another value |
| SpringerBibtex.AuthorName | scripts/bibtex_fetcher/springer_csv_to_bibtex.py:245-255 | a written name is non-empty, and there is none exactly when given, family and name all clean to "" |
| SpringerBibtex.Somes | scripts/bibtex_fetcher/springer_csv_to_bibtex.py:243-255 | the present values, in order, no more than the options |
| SpringerBibtex.SomesMembers | scripts/bibtex_fetcher/springer_csv_to_bibtex.py:243-255 | a value is kept exactly when some position holds it |
| SpringerBibtex.NamesOf | scripts/bibtex_fetcher/springer_csv_to_bibtex.py:244-255 | each author's written name, position by position |
| SpringerBibtex.AuthorNames | scripts/bibtex_fetcher/springer_csv_to_bibtex.py:242-256 | only non-empty names are written |
| SpringerBibtex.AuthorNamesMembers | scripts/bibtex_fetcher/springer_csv_to_bibtex.py:242-256 | every author with a name is written, and nothing else is |
| SpringerBibtex.AuthorNamesSnoc | scripts/bibtex_fetcher/springer_csv_to_bibtex.py:244-255 | one more author appends its name when it has one |
| SpringerBibtex.ExtractAuthors | scripts/bibtex_fetcher/springer_csv_to_bibtex.py:242-256 | the loop returns the written names joined by ` and ` |
| SpringerBibtex.CrossrefAbstract | scripts/bibtex_fetcher/springer_csv_to_bibtex.py:259-262 | a missing message gives no abstract |
| SpringerBibtex.Prefer | scripts/bibtex_fetcher/springer_csv_to_bibtex.py:355-372 | a non-empty Crossref value overrides the CSV value, an empty or missing one does not |
| SpringerBibtex.MergedType | scripts/bibtex_fetcher/springer_csv_to_bibtex.py:339-359 | the merged type is always a known entry type |
| SpringerBibtex.MergedAbstract | scripts/bibtex_fetcher/springer_csv_to_bibtex.py:372-375 | Crossref's abstract when it has one, else the scraped one |
| SpringerBibtex.MergeMetadata | scripts/bibtex_fetcher/springer_csv_to_bibtex.py:334-398 | the type is known; the venue is booktitle exactly for proceedings and collections and journal otherwise; the abstract is the merged one; content_type is the CSV's |
| SpringerBibtex.MergeVenue | scripts/bibtex_fetcher/springer_csv_to_bibtex.py:365-396 | the venue is the Crossref container title when there is one, else the CSV publication title, and the series is the CSV's |
| SpringerBibtex.MergeTitleAuthor | scripts/bibtex_fetcher/springer_csv_to_bibtex.py:360-361 | a non-empty Crossref title and author list override the CSV ones, empty ones do not |
| SpringerBibtex.MergeCsvOnly | scripts/bibtex_fetcher/springer_csv_to_bibtex.py:339-398 | without a Crossref record every field comes from the CSV row, and pages and publisher stay empty |
| SpringerBibtex.Ordered | scripts/bibtex_fetcher/springer_csv_to_bibtex.py:309-327 | the fields are listed in the preferred order, one per name |
| SpringerBibtex.RenderEntry | scripts/bibtex_fetcher/springer_csv_to_bibtex.py:308-331 | the text is the shared BibTeX rendering of the fields in the preferred order |
| SpringerBibtex.RenderedFields | scripts/bibtex_fetcher/springer_csv_to_bibtex.py:326-329 | only preferred-order fields with a non-empty value are written |
| BibWrite.EscapeChar | scripts/bibtex_fetcher/springer_csv_to_bibtex.py:51-62 | every character is written as at least one character |
| BibWrite.Escaped | scripts/bibtex_fetcher/springer_csv_to_bibtex.py:50-66 | the escaped text is never shorter than the original |
| BibWrite.LaterKeysAbsent | scripts/bibtex_fetcher/springer_csv_to_bibtex.py:51-65 | no replacement brings in a character that a later replacement would rewrite again |
| BibWrite.ReplaceConcat | scripts/bibtex_fetcher/springer_csv_to_bibtex.py:65 | `str.replace` of one character distributes over concatenation |
| BibWrite.StageStep | scripts/bibtex_fetcher/springer_csv_to_bibtex.py:64-65 | the k-th replacement turns the text escaped for the first k keys into the text escaped for k+1 |
| BibWrite.StageFull | scripts/bibtex_fetcher/springer_csv_to_bibtex.py:63-66 | after all replacements the text is escaped character by character |
| BibWrite.EscapeBibtex | scripts/bibtex_fetcher/springer_csv_to_bibtex.py:50-66 | the sequential replacements, backslash first, escape every character on its own |
| BibWrite.UnescapeChar | scripts/bibtex_fetcher/springer_csv_to_bibtex.py:51-62 | one escaped character reads back as itself, whatever follows |
| BibWrite.UnescapeEscaped | scripts/bibtex_fetcher/springer_csv_to_bibtex.py:50-66 | escaping loses nothing: the escaped text reads back as the original |
| BibWrite.EscapedPlain | scripts/bibtex_fetcher/springer_csv_to_bibtex.py:50-66 | text without special characters is written as it is |
| BibWrite.NonEmpty | scripts/bibtex_fetcher/springer_csv_to_bibtex.py:326-329 | only fields with a value are written, no more than are listed |
| BibWrite.NonEmptyMembers | scripts/bibtex_fetcher/springer_csv_to_bibtex.py:326-329 | the fields written are exactly the listed fields with a non-empty value |
| BibWrite.LinesShape | scripts/bibtex_fetcher/springer_csv_to_bibtex.py:325-331 | an entry is the `@type{key,` line, one `  name = {escaped},` line per non-empty field in order, and `}`, and every written value reads back unchanged |
| BibWrite.RenderEntry | scripts/bibtex_fetcher/springer_csv_to_bibtex.py:325-331 | the rendering loop gives exactly the rendered entry |
| ArxivFetch.LastSegment | scripts/arxiv/arxiv_fetch.py:71 | `rsplit("/", 1)[-1]` is the suffix after the last slash, holding no slash, or the whole text |
| ArxivFetch.TrailingDigits | scripts/arxiv/arxiv_fetch.py:72 | the length of the trailing run of ASCII digits |
| ArxivFetch.VersionRemoved | scripts/arxiv/arxiv_fetch.py:72 | a `v<n>` suffix is removed, whatever comes before it |
| ArxivFetch.NoVersionKept | scripts/arxiv/arxiv_fetch.py:72 | an id that ends in neither a digit nor a newline is left unchanged |
| ArxivFetch.LastSegmentAfterSlash | scripts/arxiv/arxiv_fetch.py:71 | the segment after a final slash is the id text |
| ArxivFetch.IdOfAbsUrl | scripts/arxiv/arxiv_fetch.py:70-72 | the abs URL of a versioned paper yields the bare id |
| ArxivFetch.Year | scripts/arxiv/arxiv_fetch.py:82 | the year is four characters or empty |
| ArxivFetch.Month | scripts/arxiv/arxiv_fetch.py:83 | the month is two characters or empty |
| ArxivFetch.PublishedParts | scripts/arxiv/arxiv_fetch.py:80-83 | an ISO timestamp `YYYY-MM-…` gives its year and month |
| ArxivFetch.ShortPublished | scripts/arxiv/arxiv_fetch.py:82-83 | a timestamp too short for a month or year yields none |
| ArxivFetch.AffiliationOf | scripts/arxiv/arxiv_fetch.py:91-95 | an author contributes an affiliation text exactly when the stripped affiliation is non-empty |
| ArxivFetch.AuthorListMembers | scripts/arxiv/arxiv_fetch.py:87-90 | a name is listed exactly when it is some author's non-empty stripped name |
| ArxivFetch.AffiliationListSnoc | scripts/arxiv/arxiv_fetch.py:87-95 | an author with an affiliation contributes one text, `name: affiliation` or the affiliation alone, in order |
| ArxivFetch.CollectAuthors | scripts/arxiv/arxiv_fetch.py:85-95 | the loop returns exactly the author names and the affiliation texts |
| ArxivFetch.CollectCategories | scripts/arxiv/arxiv_fetch.py:108-112 | the non-empty category terms, in order |
| ArxivFetch.FirstHref | scripts/arxiv/arxiv_fetch.py:114-123 | the href kept is the first non-empty one of a wanted link, and "" when there is none |
| ArxivFetch.PickLinks | scripts/arxiv/arxiv_fetch.py:114-123 | the abstract URL is the first alternate link's href and the PDF URL the first related PDF link's |
| ArxivFetch.ParseEntry | scripts/arxiv/arxiv_fetch.py:69-143 | the parsed entry is exactly the field-by-field reading of the atom entry |
| ArxivFetch.ParsedTextCollapsed | scripts/arxiv/arxiv_fetch.py:74-79 | the parsed title and abstract are whitespace-collapsed |
| ArxivFetch.CiteKey | scripts/arxiv/arxiv_fetch.py:148 | the key is `arXiv:<id>`, or `arXiv:unknown` without an id |
| ArxivFetch.EntryToBibtex | scripts/arxiv/arxiv_fetch.py:146-180 | the text is the shared rendering of the arXiv fields under the key, as an `@article` |
| ArxivFetch.NoIdFields | scripts/arxiv/arxiv_fetch.py:152-156 | without an id the journal, eprint and archivePrefix fields are empty and so not written |
| ArxivFetch.IdFields | scripts/arxiv/arxiv_fetch.py:152-156 | with an id they are written, carrying the id |
| ArxivFetch.NoteLast | scripts/arxiv/arxiv_fetch.py:168-171 | with a journal reference the note is the last field written; otherwise none is |
| ArxivFetch.ParseTotalResults | scripts/arxiv/arxiv_fetch.py:183-188 | a blank or missing total gives None |
| ArxivFetch.TotalResultsOfNat | scripts/arxiv/arxiv_fetch.py:183-188 | a decimal count parses back, and a missing element gives None |
| ArxivFetch.LoadQuery | scripts/arxiv/arxiv_fetch.py:191-197 | a non-empty `--query` wins; otherwise a `--query-file` is read and stripped; with neither, the error `Query is required` |
| ArxivFetch.PagesEntriesSnoc | scripts/arxiv/arxiv_fetch.py:245-258 | one more page adds its entries |
| ArxivFetch.PageTextSnoc | scripts/arxiv/arxiv_fetch.py:254-258 | one more entry adds its text |
| ArxivFetch.PageTextConcat | scripts/arxiv/arxiv_fetch.py:254-258 | two runs of entries are written one after the other |
| ArxivFetch.PagesTextSnoc | scripts/arxiv/arxiv_fetch.py:245-258 | page n's text follows the text of the pages before it |
| ArxivFetch.WriteEntry | scripts/arxiv/arxiv_fetch.py:255-257 | one entry is written as its BibTeX followed by a blank line |
| ArxivFetch.WritePage | scripts/arxiv/arxiv_fetch.py:254-258 | the entries of a page are written in order |
| ArxivFetch.RequestPage | scripts/arxiv/arxiv_fetch.py:246-263 | a page request returns that page's entries and goes on exactly when the page is non-empty and does not reach the reported total |
| ArxivFetch.FetchPages | scripts/arxiv/arxiv_fetch.py:245-266 | at most `max_pages` pages are requested at start + p·page_size; every page but the last went on; fewer pages only when the last one stopped the loop; the entries are those of the pages, in order |
| ArxivFetch.WriteAll | scripts/arxiv/arxiv_fetch.py:243-262 | the text written is every entry's BibTeX and a blank line, page after page, and `total_written` counts them |
| SemanticScholar.IntToString | scripts/bibtex_fetcher/semantic_scholar_fetch.py:229-240 | `str(year)` is never empty |
| SemanticScholar.ContainsTerm | scripts/bibtex_fetcher/semantic_scholar_fetch.py:169-175 | the text contains some term, both lower-cased |
| SemanticScholar.TextContainsAny | scripts/bibtex_fetcher/semantic_scholar_fetch.py:169-175 | the loop that stops at the first term found answers whether the lower-cased text contains some lower-cased term |
| SemanticScholar.MatchesVenue | scripts/bibtex_fetcher/semantic_scholar_fetch.py:160-166 | the venue, "" when missing, contains some alias, both lower-cased |
| SemanticScholar.MatchesQ1 | scripts/bibtex_fetcher/semantic_scholar_fetch.py:178-183 | `title abstract` contains some Q1 term |
| SemanticScholar.MatchesQ2 | scripts/bibtex_fetcher/semantic_scholar_fetch.py:186-193 | `title abstract` contains both a recovery term and a binary term |
| SemanticScholar.TermInTitleOrAbstract | scripts/bibtex_fetcher/semantic_scholar_fetch.py:178-193 | a term found in the title alone, or in the abstract alone, is found by the match |
| SemanticScholar.AlphaLen | scripts/bibtex_fetcher/semantic_scholar_fetch.py:232 | the length of the leading run of ASCII letters |
| SemanticScholar.AlphaWords | scripts/bibtex_fetcher/semantic_scholar_fetch.py:232 | `re.findall(r"[A-Za-z]+")` gives non-empty runs of ASCII letters |
| SemanticScholar.LettersOnly | scripts/bibtex_fetcher/semantic_scholar_fetch.py:227 | `re.sub(r"[^a-zA-Z]", "")` leaves only ASCII letters |
| SemanticScholar.FirstAuthorPart | scripts/bibtex_fetcher/semantic_scholar_fetch.py:220-227 | the first author part is made of ASCII letters only |
| SemanticScholar.ShortTitleEmpty | scripts/bibtex_fetcher/semantic_scholar_fetch.py:233-238 | the short title is empty exactly when every title word is a stop word |
| SemanticScholar.ShortTitleFirst | scripts/bibtex_fetcher/semantic_scholar_fetch.py:233-238 | a non-empty short title is the first word that is not a stop word |
| SemanticScholar.MakeCiteKey | scripts/bibtex_fetcher/semantic_scholar_fetch.py:218-240 | the loop that stops at the first kept word returns the cite key: author part, year and short title |
| SemanticScholar.UrlField | scripts/bibtex_fetcher/semantic_scholar_fetch.py:264-269 | the url field is the open-access PDF, else the DOI link, else absent |
| SemanticScholar.PaperToBibtex | scripts/bibtex_fetcher/semantic_scholar_fetch.py:243-282 | the text is the shared rendering, as `@inproceedings` under the cite key, of the paper's fields |
| SemanticScholar.RenderedUrl | scripts/bibtex_fetcher/semantic_scholar_fetch.py:264-282 | a url line is written exactly when the paper has an open-access PDF or a DOI, and it holds the preferred one |
| SemanticScholar.UniqueFrom | scripts/bibtex_fetcher/semantic_scholar_fetch.py:383-386 | every kept paper has an id and is one of the fetched papers |
| SemanticScholar.UniqueDistinct | scripts/bibtex_fetcher/semantic_scholar_fetch.py:383-386 | no id is kept twice |
| SemanticScholar.UniqueIds | scripts/bibtex_fetcher/semantic_scholar_fetch.py:383-386 | the kept ids are exactly the fetched ids |
| SemanticScholar.UniqueKeepsFirst | scripts/bibtex_fetcher/semantic_scholar_fetch.py:383-386 | the paper kept for an id is the first fetched paper with that id |
| SemanticScholar.CollectPapers | scripts/bibtex_fetcher/semantic_scholar_fetch.py:372-389 | the dedup loop keeps exactly the first paper of each id, in order |
| SemanticScholar.VenuePapers | scripts/bibtex_fetcher/semantic_scholar_fetch.py:404-413 | the venue papers are a sub-list of the papers |
| SemanticScholar.FilterVenue | scripts/bibtex_fetcher/semantic_scholar_fetch.py:404-413 | the loop keeps exactly the papers of the venue within the year bounds, in order |
| SemanticScholar.Matched | scripts/bibtex_fetcher/semantic_scholar_fetch.py:417 | the matched papers are a sub-list of the papers |
| SemanticScholar.KeyLtTransitive | scripts/bibtex_fetcher/semantic_scholar_fetch.py:418 | the `(year or 0, title or "")` order is transitive |
| SemanticScholar.Insert | scripts/bibtex_fetcher/semantic_scholar_fetch.py:418 | inserting adds exactly one paper |
| SemanticScholar.InsertSorted | scripts/bibtex_fetcher/semantic_scholar_fetch.py:418 | inserting into a sorted list keeps it sorted |
| SemanticScholar.SortPapers | scripts/bibtex_fetcher/semantic_scholar_fetch.py:418 | the sort returns a permutation ordered by `(year or 0, title or "")` |
| SemanticScholar.SortedMembers | scripts/bibtex_fetcher/semantic_scholar_fetch.py:418 | sorting keeps exactly the same papers |
| SemanticScholar.QueryOutputMembers | scripts/bibtex_fetcher/semantic_scholar_fetch.py:383-425 | a paper is written for a (query, venue) pair exactly when it is the first fetched with its id and matches the venue, the year bounds and the query; the file is sorted by year, then title |
| BibtexExtract.SubRuns | scripts/bibtex_extractor/extract_title_abstract.py:51-53 | `re.sub(r"[cs]+", " ")` turns a leading run into a space and keeps a leading other character |
| BibtexExtract.SubRunsSpacedOut | scripts/bibtex_extractor/extract_title_abstract.py:53 | after replacing white-space runs no two white-space characters are adjacent and every one is a plain space |
| BibtexExtract.StripSpacedOut | scripts/bibtex_extractor/extract_title_abstract.py:53-54 | stripping a spaced-out text leaves a collapsed one |
| BibtexExtract.CleanText | scripts/bibtex_extractor/extract_title_abstract.py:48-54 | cleaned text is collapsed: words separated by single spaces, no space at the ends |
| BibtexExtract.CleanTextFixesCollapsed | scripts/bibtex_extractor/extract_title_abstract.py:48-54 | a collapsed text is left unchanged |
| BibtexExtract.CleanTextIdempotent | scripts/bibtex_extractor/extract_title_abstract.py:48-54 | cleaning twice is cleaning once |
| BibtexExtract.WordRun | scripts/bibtex_extractor/extract_title_abstract.py:16 | the length of the `\w` run at a position, which stops at the first non-word character |
| BibtexExtract.SpaceRun | scripts/bibtex_extractor/extract_title_abstract.py:16 | the length of the `\s` run at a position, which stops at the first non-space |
| BibtexExtract.HeadAt | scripts/bibtex_extractor/extract_title_abstract.py:16 | a head match at p starts with `@` at p and ends with `,`, with a non-empty type and a non-empty key holding no comma |
| BibtexExtract.ScanMatches | scripts/bibtex_extractor/extract_title_abstract.py:19 | every reported match starts where the pattern matches, within the scanned range |
| BibtexExtract.ScanInOrder | scripts/bibtex_extractor/extract_title_abstract.py:19 | the reported matches are in order and do not overlap |
| BibtexExtract.ScanMissesNothing | scripts/bibtex_extractor/extract_title_abstract.py:19 | every position where the pattern matches starts or lies inside a reported match |
| BibtexExtract.HeadMatcher | scripts/bibtex_extractor/extract_title_abstract.py:16-19 | every head match ends after it starts, so `finditer` advances |
| BibtexExtract.HeadsAreTheMatches | scripts/bibtex_extractor/extract_title_abstract.py:16-19 | the heads are matches of the entry pattern, in order and without overlap, and every position where the pattern matches starts one or lies inside one |
| BibtexExtract.CloseFrom | scripts/bibtex_extractor/extract_title_abstract.py:34-39 | the first closing brace at or after a position, followed by an optional comma and a field or the entry's end; None when there is none |
| BibtexExtract.FieldAt | scripts/bibtex_extractor/extract_title_abstract.py:34-39 | a field match at i has the name, in any case, at i, a non-empty value, and for `title` no letter before it |
| BibtexExtract.LeftmostIsFirst | scripts/bibtex_extractor/extract_title_abstract.py:34-39 | `re.search` reports the match at the leftmost matching position, or none when nothing matches |
| BibtexExtract.FieldSearchIsLeftmost | scripts/bibtex_extractor/extract_title_abstract.py:34-39 | the field search finds the match at the leftmost position where the pattern matches, and nothing when it matches nowhere |
| BibtexExtract.BooktitleIsNotTitle | scripts/bibtex_extractor/extract_title_abstract.py:33-34 | the `title` inside `booktitle` is not a title match |
| BibtexExtract.CleanField | scripts/bibtex_extractor/extract_title_abstract.py:35-41 | a field is present exactly when it matched, and then cleaned |
| BibtexExtract.EntryFromFacts | scripts/bibtex_extractor/extract_title_abstract.py:26-41 | the key is the head's key stripped; title and abstract are present exactly when their pattern matches the entry text, and then collapsed |
| BibtexExtract.EntryText | scripts/bibtex_extractor/extract_title_abstract.py:23-24 | an entry's text starts with its `@` |
| BibtexExtract.ParsedEntries | scripts/bibtex_extractor/extract_title_abstract.py:11-45 | one entry per head |
| BibtexExtract.ParsedEntriesAt | scripts/bibtex_extractor/extract_title_abstract.py:21-43 | the k-th entry is read from its own head and text |
| BibtexExtract.ReadEntry | scripts/bibtex_extractor/extract_title_abstract.py:22-43 | one step reads the k-th entry from the text up to the next head or the end |
| BibtexExtract.ParseBibtexEntries | scripts/bibtex_extractor/extract_title_abstract.py:11-45 | the loop returns exactly one entry per head, in order |
| BibtexExtract.OrPlaceholder | scripts/bibtex_extractor/extract_title_abstract.py:61-62 | an absent or empty value falls back to the placeholder |
| BibtexExtract.OutputLinesLength | scripts/bibtex_extractor/extract_title_abstract.py:59-68 | six lines per entry |
| BibtexExtract.OutputLinesBlock | scripts/bibtex_extractor/extract_title_abstract.py:60-68 | the k-th block of six lines is that of entry k, numbered k + 1 |
| BibtexExtract.FormatOutput | scripts/bibtex_extractor/extract_title_abstract.py:57-69 | the text is the lines of every entry, in order, joined by newlines |
| Projects.Anchored | app/backend/routers/projects.py:171 | Python's `$` anchors at the end or before one final newline, so the anchored text is a prefix |
| Projects.TrailingDigits | app/backend/routers/projects.py:171 | the length of the trailing run of ASCII digits |
| Projects.TrailingSpaces | app/backend/routers/projects.py:171 | the length of the trailing run of white space |
| Projects.CopySuffix | app/backend/routers/projects.py:171-174 | a match of `^(.+?)\s*\((\d+)\)$` needs a `(` and a `)` in the name |
| Projects.CandidateSuffix | app/backend/routers/projects.py:171-180 | a generated `base (i)` parses back to its base and number |
| Projects.SuffixOf | app/backend/routers/projects.py:171-174 | `base (digits)` matches with that base and the digits' value |
| Projects.CopySuffixAt | app/backend/routers/projects.py:171-174 | the pattern matches with `(` at p when one space precedes it and digits follow it up to the final `)` |
| Projects.GroupBeforeSpace | app/backend/routers/projects.py:171-173 | with one space before `(` the lazy group is everything before that space, stripped |
| Projects.CopySuffixReaches | app/backend/routers/projects.py:171 | with `(` at p and digits up to the final `)`, the match is decided at p |
| Projects.TrailingDigitsOf | app/backend/routers/projects.py:171 | the digit run at the end of a text that ends in digits after a non-digit is exactly those digits |
| Projects.FirstFreeIsLowest | app/backend/routers/projects.py:179-185 | the name chosen is the lowest unused `base (i)` from the start number below 1000, or `base (copy)` when all are taken |
| Projects.GenerateCopyName | app/backend/routers/projects.py:155-185 | the copy name starts one past an existing `(N)` suffix (else at 1) and is the lowest free number, or the `(copy)` fallback |
| Projects.CopyOfCopy | app/backend/routers/projects.py:171-177 | duplicating `base (N)` starts from N + 1 with the same base |
| Projects.IncludedIds | app/backend/routers/projects.py:205-217 | an unknown cut-off step is 400 `Step not found`; the included ids are step ids; without a cut-off they are all the step ids |
| Projects.KeptFinal | app/backend/routers/projects.py:252-255 | the final output survives exactly when its step is kept |
| Projects.KeptPrefix | app/backend/routers/projects.py:213-248 | keeping up to a named step keeps exactly the pipeline up to and including it, when ids are distinct |
| Projects.KeptByPosition | app/backend/routers/projects.py:248 | filtering by the ids of the first c steps keeps the first c steps |
| Projects.KeptAll | app/backend/routers/projects.py:215-248 | without a cut-off the pipeline is kept as it is |
| Projects.DuplicateProject | app/backend/routers/projects.py:189-272 | an unknown cut-off is 400; otherwise the new project has the new id and time, the source's description and import sources, the given name or the generated copy name, the kept steps and the surviving final output |
| Projects.RemoveFirst | app/backend/routers/projects.py:345 | `list.remove(x)` takes out one element and brings in none |
| Projects.RemoveFirstDistinct | app/backend/routers/projects.py:344-345 | without repeats, removing x leaves exactly the other elements, still without repeats |
| Projects.Project.Create | app/backend/routers/projects.py:86-119 | a new project has the given id, name and description, both timestamps `now`, and no import sources |
| Projects.Project.Update | app/backend/routers/projects.py:129-141 | the given name and description replace the old ones, the project is stamped, and nothing else changes |
| Projects.Project.AddImportSource | app/backend/routers/projects.py:317-329 | an unknown import is 404 with nothing changed; a new id is appended and stamped; a known one changes nothing; the list stays duplicate-free |
| Projects.Project.RemoveImportSource | app/backend/routers/projects.py:333-349 | a project with steps answers 409 and is unchanged; otherwise the first occurrence of the id is removed and the project stamped, and an absent id changes nothing |
| Imports.TagKeysSnoc | app/backend/routers/imports.py:67-71 | keeping one more tag adds its lower-cased key to the seen set |
| Imports.DedupTagsFacts | app/backend/routers/imports.py:62-72 | the k-th kept tag is the item at the k-th first-spelling index (a non-empty item with no earlier non-empty item equal to it ignoring case); those indices ascend and include every first spelling, so the first spelling of each key is kept in item order; the kept tags are non-empty items, no two equal ignoring case, and every non-empty item's key is kept |
| Imports.DedupTagsKeys | app/backend/routers/imports.py:62-72 | the kept tags are non-empty items, no two equal ignoring case, and every non-empty item is represented by a kept tag equal to it ignoring case |
| Imports.DedupTagsFirstSpellings | app/backend/routers/imports.py:62-72 | the tags kept from the first m items are those items at the first-spelling indices below m, in order |
| Imports.FirstSpellingsBelow | app/backend/routers/imports.py:62-72 | the first-spelling indices listed lie below m |
| Imports.FirstSpellingsFacts | app/backend/routers/imports.py:62-72 | the listed indices are first spellings, strictly ascending, and every first spelling below m is listed |
| Imports.TagShape | app/backend/routers/imports.py:58-72 | a parsed tag is non-empty, has no comma and no surrounding white space, and no two tags are equal ignoring case; the tags are the stripped items at their first spellings, in item order |
| Imports.TagItemsShape | app/backend/routers/imports.py:61 | each item is a stripped comma-free piece |
| Imports.ParseTags | app/backend/routers/imports.py:58-72 | the loop with its set of seen keys returns exactly the parsed tags |
| Imports.ReferencingMeans | app/backend/routers/imports.py:105-120 | every reference names a project that lists the import, and none is missed |
| Imports.GetReferencingProjects | app/backend/routers/imports.py:105-120 | the scan returns the references of the projects that list the import, in order |
| Imports.LockCheck | app/backend/routers/imports.py:123-130 | no error exactly when nothing references the import; otherwise 409 naming the referencing projects |
| Imports.LockedIffReferenced | app/backend/routers/imports.py:105-130 | an import is locked exactly when some project lists it |
| Imports.WithoutFile | app/backend/routers/imports.py:515 | exactly the records with another file name are kept |
| Imports.Replaced | app/backend/routers/imports.py:514-517 | the namesakes are dropped and the new record is last |
| Imports.FirstNamed | app/backend/routers/imports.py:595-599 | the first record with that file name, and None when there is none |
| Imports.ApplyUpdate | app/backend/routers/imports.py:604-613 | given fields replace the old ones, a blank URL clears it and a URL is stripped, tags are parsed; name and count stay |
| Imports.PresetsMeans | app/backend/routers/imports.py:383-400 | each preset comes from a record with a non-blank query, and every such record gives one |
| Imports.QueryPresets | app/backend/routers/imports.py:383-400 | the loop returns exactly the presets of the records |
| Imports.ImportMeta.Create | app/backend/routers/imports.py:171-189 | a new collection has the given id, name and description, no files, and both timestamps `now` |
| Imports.ImportMeta.Summary | app/backend/routers/imports.py:153-164 | the summary counts the files and their entries, lists exactly their databases, and is locked exactly when referenced, with the number of references |
| Imports.ImportMeta.UpdateImport | app/backend/routers/imports.py:205-217 | a locked import answers 409 and is unchanged; otherwise the given name and description replace the old ones and it is stamped |
| Imports.ImportMeta.Duplicate | app/backend/routers/imports.py:232-251 | the copy has the new id and times and ` (copy)` after the name, with the same description and files |
| Imports.ImportMeta.Put | app/backend/routers/imports.py:514-517 | the record replaces its namesakes and the collection is stamped |
| Imports.ImportMeta.AddFromPath | app/backend/routers/imports.py:487-520 | locked is 409, a missing path 404 and a name without `.bib` 400, each with nothing changed; otherwise the new record, with its tags parsed, replaces any of that name |
| Imports.ImportMeta.UploadFile | app/backend/routers/imports.py:524-564 | locked is 409 and a missing or non-`.bib` name 400, with nothing changed; otherwise the record replaces any of that name |
| Imports.ImportMeta.DeleteFile | app/backend/routers/imports.py:568-585 | locked is 409 and a missing file 404, with nothing changed; otherwise every record of that name goes |
| Imports.ImportMeta.UpdateFile | app/backend/routers/imports.py:589-618 | locked is 409 and an unknown name 404, with nothing changed; otherwise only the first record of that name is updated |
| Imports.FirstNamedAt | app/backend/routers/imports.py:596-599 | the scan stops where the first record of that name is |
| Imports.UpdateKeepsName | app/backend/routers/imports.py:595-613 | after an update the record keeps its name and stays the first of that name |
| ImportSearch.Available | app/backend/routers/imports.py:307 | a name is a key exactly when some file record has it |
| ImportSearch.AvailableNames | app/backend/routers/imports.py:308 | the default selection holds exactly the available names |
| ImportSearch.Missing | app/backend/routers/imports.py:313-314 | nothing is missing exactly when every selected name is available |
| ImportSearch.Prepare | app/backend/routers/imports.py:306-331 | success means a non-empty selection of known files and a non-blank query that normalises to a non-empty text the parser accepts; an empty selection is the 400 `No files selected.`, and every failure is 400 or 404 |
| ImportSearch.DefaultSelectionKnown | app/backend/routers/imports.py:308-318 | without an explicit selection the 404 for unknown files cannot happen |
| ImportSearch.Limit | app/backend/routers/imports.py:345 | a limit exactly when max_results is given and positive, and then that number |
| ImportSearch.Enriched | app/backend/routers/imports.py:371-373 | the entry keeps every other field and gains its file name and database |
| ImportSearch.ScanFilesSnoc | app/backend/routers/imports.py:347-354 | one more selected name scans that file after the others, and a file that does not exist is skipped |
| ImportSearch.StepConsistent | app/backend/routers/imports.py:356-374 | one entry keeps the counters consistent and adds one to the total |
| ImportSearch.ScanFileConsistent | app/backend/routers/imports.py:356-374 | a file's scan keeps the counters consistent and adds its entry count |
| ImportSearch.ScanFilesConsistent | app/backend/routers/imports.py:347-377 | the whole scan counts every entry of every existing selected file, and keeps with-abstract plus excluded within the total, returned within the matches and the limit, and every returned entry tagged with a selected file |
| ImportSearch.EntriesToBibtex | app/backend/routers/imports.py:75-87 | no entries give the empty text; otherwise the writer's text of the entries without their internal `_` fields |
| ImportSearch.SearchFile | app/backend/routers/imports.py:356-374 | the loop over one file's entries ends on the counters the scan specification gives |
| ImportSearch.RunImportQuerySearch | app/backend/routers/imports.py:302-379 | a failed check is returned as its error; otherwise the normalised query, the stats, the kept entries and their BibTeX are those of the scan of the selected files |
| ImportSearch.SearchFacts | app/backend/routers/imports.py:335-379 | a successful search counts every entry of the selected existing files and reports consistent counts |
| ProjectSources.WithoutFile | app/backend/routers/sources.py:196 | exactly the records with another file name are kept |
| ProjectSources.OnlyFile | app/backend/routers/sources.py:196 | exactly the records of that file name, the ones the filter drops |
| ProjectSources.TotalsOf | app/backend/routers/sources.py:203-205 | each category's total is the sum of its counts and `combined` is their sum |
| ProjectSources.SumSnoc | app/backend/routers/sources.py:197-203 | appending a record adds its count to the sum |
| ProjectSources.SumSplit | app/backend/routers/sources.py:196-203 | the kept and the dropped records share the sum between them |
| ProjectSources.SnocUnique | app/backend/routers/sources.py:196-197 | appending a record whose name is new keeps one record per name |
| ProjectSources.OnlyFileUnique | app/backend/routers/sources.py:196 | with one record per name, at most one record has a given name |
| ProjectSources.NoneNamed | app/backend/routers/sources.py:196-197 | a list without that name has no record of it |
| ProjectSources.WithoutFileUnique | app/backend/routers/sources.py:196 | filtering keeps one record per name |
| ProjectSources.ReplacedFacts | app/backend/routers/sources.py:195-205 | replacing keeps one record per name and moves the sum by the new count less that of the record it replaces |
| ProjectSources.WithoutFileFacts | app/backend/routers/sources.py:288-296 | removing keeps one record per name and takes that name's count out of the sum |
| ProjectSources.CheckAdd | app/backend/routers/sources.py:161-170 | add_from_path passes its checks exactly when the path exists, names a `.bib` file and the category is known; a missing path is 404 first, the others 400 |
| ProjectSources.CheckUpload | app/backend/routers/sources.py:222-226 | upload passes exactly for a `.bib` name and a known category; both failures are 400, the name checked first |
| ProjectSources.CheckDelete | app/backend/routers/sources.py:274-281 | delete passes exactly for a known category and an existing file; the category is checked first (400), then the file (404) |
| ProjectSources.SourcesMeta.Empty | app/backend/routers/sources.py:45-50 | missing metadata is two empty lists with zero totals |
| ProjectSources.SourcesMeta.UpdateTotals | app/backend/routers/sources.py:202-205 | the totals are recomputed from the lists, which stay |
| ProjectSources.SourcesMeta.Put | app/backend/routers/sources.py:195-205 | the record replaces its namesake in its own category only, and the totals follow |
| ProjectSources.SourcesMeta.AddFromPath | app/backend/routers/sources.py:159-209 | a failed check is returned with nothing changed; otherwise the new record replaces its namesake in its category, and unique names and correct totals are kept |
| ProjectSources.SourcesMeta.Upload | app/backend/routers/sources.py:213-268 | a failed check is returned with nothing changed; otherwise the record replaces its namesake in its category, and unique names and correct totals are kept |
| ProjectSources.SourcesMeta.Delete | app/backend/routers/sources.py:272-300 | a failed check is returned with nothing changed; otherwise every record of that name leaves its category's list, the other list stays, and the totals follow |
| ScreeningReviews.InitPapers | screening/app/backend/routers/reviews.py:71-83 | a key has a paper exactly when some decision line names it, and every fresh paper is unchecked with no manual decision |
| ScreeningReviews.InitOrderMatches | screening/app/backend/routers/reviews.py:71-83 | the dictionary's key order lists each paper exactly once |
| ScreeningReviews.RulesName | screening/app/backend/routers/reviews.py:86-92 | no rules file, or a first line that is not a `#` heading, gives the empty name; otherwise the name is stripped and drawn from the characters of that line |
| ScreeningReviews.StatsOf | screening/app/backend/routers/reviews.py:117-124 | the checked and the modified counts never exceed the total |
| ScreeningReviews.StatsAfterUpdate | screening/app/backend/routers/reviews.py:148-160 | setting one existing paper keeps the total and moves that paper in or out of the checked and modified sets, as its new flags say |
| ScreeningReviews.CheckedAfterUpdate | screening/app/backend/routers/reviews.py:122-156 | the checked set gains or loses exactly the updated key |
| ScreeningReviews.ModifiedAfterUpdate | screening/app/backend/routers/reviews.py:123-154 | the modified set gains or loses exactly the updated key |
| ScreeningReviews.FreshStats | screening/app/backend/routers/reviews.py:105-109 | a fresh review has nothing checked and nothing modified |
| ScreeningReviews.StoredDecision | screening/app/backend/routers/reviews.py:154 | the empty text clears the manual decision; any other text is stored as given |
| ScreeningReviews.WithReview | screening/app/backend/routers/reviews.py:153-181 | the decision and the checked flag change only when given, and the note and the AI decision stay |
| ScreeningReviews.Updated | screening/app/backend/routers/reviews.py:153-158 | update_paper_review's change is the shared one plus the note when given |
| ScreeningReviews.WithReviewIdempotent | screening/app/backend/routers/reviews.py:175-182 | applying the same change twice equals applying it once, so a key listed twice in a bulk update is updated once |
| ScreeningReviews.FinalDecision | screening/app/backend/routers/reviews.py:201 | a non-empty manual decision wins; none or the empty one falls back to the AI decision |
| ScreeningReviews.FinalAfterUpdate | screening/app/backend/routers/reviews.py:201 | the endpoints never store the empty decision, so the final decision is the manual one whenever there is one |
| ScreeningReviews.Review.FromRun | screening/app/backend/routers/reviews.py:60-114 | a fresh review has the run id, the rules name, one paper per decision key and the stats of nothing reviewed |
| ScreeningReviews.Review.UpdateStats | screening/app/backend/routers/reviews.py:117-124 | the stats are recomputed from the papers, and nothing else changes |
| ScreeningReviews.Review.UpdatePaperReview | screening/app/backend/routers/reviews.py:141-163 | an unknown key is 404 with nothing changed; otherwise only that paper changes, the stats follow and the updated paper is returned |
| ScreeningReviews.Review.BulkUpdate | screening/app/backend/routers/reviews.py:167-187 | exactly the listed keys that name papers are updated and reported in request order with their count; the others are skipped, the key set stays and the stats follow |
| ScreeningReviews.Review.Export | screening/app/backend/routers/reviews.py:199-209 | one row per paper in dictionary order, with its final decision |
| AiScreening.ScreenPaper | app/backend/step_handlers/ai_screening.py:56-146 | the result carries the entry's ID (`unknown` without one); no abstract is `uncertain` without a call; a reply gives its decision, confidence and reason with their defaults; a failed call is `uncertain` with confidence 0, no tokens and the error in the reason |
| AiScreening.ScreenPapers | app/backend/step_handlers/ai_screening.py:149-187 | one result per entry, in entry order |
| AiScreening.ModelName | app/backend/step_handlers/ai_screening.py:288-295 | OpenAI gets the configured name without an `openai/` prefix, or its default; the local server always gets a `vendor/name` name, a configured one with a slash unchanged |
| AiScreening.ModelNameStable | app/backend/step_handlers/ai_screening.py:288-295 | normalising a local name twice changes nothing, and a bare OpenAI name is kept |
| AiScreening.Concurrency | app/backend/step_handlers/ai_screening.py:298-301 | the configured concurrency, else 100 for the local server and 10 for OpenAI |
| AiScreening.DefaultRule | app/backend/step_handlers/ai_screening.py:219-242 | the schema's default rules id is the last rule file, or `decompile_v4` when there is none |
| AiScreening.EntryMap | app/backend/step_handlers/ai_screening.py:337 | every entry's ID is a key, and each key maps to an entry with that ID |
| AiScreening.ChangeOf | app/backend/step_handlers/ai_screening.py:354-378 | the change records key, decision and model; it removes exactly on `exclude` and keeps otherwise; its reason is `ai_` and the decision |
| AiScreening.Partition | app/backend/step_handlers/ai_screening.py:331-362 | every result lands in exactly one of passed, excluded, uncertain and skipped; only matched results give a change, and a change removes exactly when its decision is exclude |
| AiScreening.CountAction | app/backend/step_handlers/ai_screening.py:364-378 | a count of changes never exceeds their number |
| AiScreening.RemovalsAreExclusions | app/backend/step_handlers/ai_screening.py:354-362 | the removals are exactly the excluded entries, and the keeps are the passed and uncertain ones |
| AiScreening.CountActionSnoc | app/backend/step_handlers/ai_screening.py:364 | appending a change counts it under its own action only |
| AiScreening.UnknownSkipped | app/backend/step_handlers/ai_screening.py:344-348 | a result whose key matches no entry is skipped |
| AiScreening.AllKnownNoneSkipped | app/backend/step_handlers/ai_screening.py:344-348 | when every key matches an entry, nothing is skipped |
| AiScreening.EveryIdJudged | app/backend/step_handlers/ai_screening.py:337-362 | when every entry has an ID, nothing is skipped and the three outputs hold one entry per input |
| AiScreening.MissingIdSkipped | app/backend/step_handlers/ai_screening.py:337-348 | an entry without an ID is judged as `unknown` but listed under ``, so its judgement is skipped |
| AiScreening.PartitionSnoc | app/backend/step_handlers/ai_screening.py:343-378 | one more result extends the partition by one step |
| AiScreening.Sort | app/backend/step_handlers/ai_screening.py:343-378 | the loop over the judgements ends on the partition the specification gives |
| AiScreening.Run | app/backend/step_handlers/ai_screening.py:282-407 | a missing rules file and OpenAI without an API key are errors; otherwise the outputs, changes and counts are the partition of the judgements under the settled model, provider and concurrency |
| ScreeningPipeline.IndexOfId | screening/app/backend/routers/pipeline.py:116-119 | the index of the first step with that id, and None exactly when no step has it |
| ScreeningPipeline.IndexOfIdAt | screening/app/backend/routers/pipeline.py:116-119 | the first index holding the id is the one the scan stops at |
| ScreeningPipeline.Clamp | screening/app/backend/routers/pipeline.py:125 | never above the bound, and an index already in range is kept |
| ScreeningPipeline.AddKeepsDistinct | screening/app/backend/routers/pipeline.py:63-67 | adding refuses a taken id or appends the step last, so distinct ids stay distinct |
| ScreeningPipeline.UpdateKeepsOthers | screening/app/backend/routers/pipeline.py:83-87 | an update replaces only the first step with that id, keeps the length, and keeps ids distinct when the new step has the same id |
| ScreeningPipeline.RemoveKeepsOthers | screening/app/backend/routers/pipeline.py:98 | exactly the steps with another id stay, and an unknown id changes nothing |
| ScreeningPipeline.FilterAllPass | screening/app/backend/routers/pipeline.py:98 | filtering steps that all have another id keeps them all |
| ScreeningPipeline.FilterKeepsDistinct | screening/app/backend/routers/pipeline.py:98 | filtering keeps distinct ids distinct |
| ScreeningPipeline.RemoveKeepsDistinct | screening/app/backend/routers/pipeline.py:98 | after removal the ids stay distinct and the removed id is gone |
| ScreeningPipeline.MovedIsPermutation | screening/app/backend/routers/pipeline.py:118-126 | a pop and an insert keep the length and the multiset of steps and put the step at the target index |
| ScreeningPipeline.MoveKeepsSteps | screening/app/backend/routers/pipeline.py:114-126 | moving keeps the multiset of steps and puts the found step at the clamped index |
| ScreeningPipeline.Pipeline.constructor | screening/app/backend/routers/pipeline.py:21-31 | a loaded pipeline holds the stored version, steps and final output |
| ScreeningPipeline.Pipeline.AddStep | screening/app/backend/routers/pipeline.py:59-75 | 400 exactly when the id is taken; otherwise the step is appended, and nothing else changes |
| ScreeningPipeline.Pipeline.UpdateStep | screening/app/backend/routers/pipeline.py:79-89 | 404 exactly when no step has the id; otherwise the first such step is replaced in place |
| ScreeningPipeline.Pipeline.RemoveStep | screening/app/backend/routers/pipeline.py:93-106 | the steps are those with another id, in order |
| ScreeningPipeline.Pipeline.MoveStep | screening/app/backend/routers/pipeline.py:110-129 | 404 exactly when no step has the id; otherwise the first such step is moved to the clamped index |
| Rules.MarkFrom | app/backend/routers/rules.py:63 | the first `_v` and digit at or after a position with no newline before it, and None exactly when a newline comes before every such mark |
| Rules.DigitRun | app/backend/routers/rules.py:63 | the longest prefix of digits |
| Rules.VersionMatch | app/backend/routers/rules.py:63-70 | a match exactly when a non-empty newline-free base is followed by `_v` and a digit; the base is the shortest such and the version the value of the whole digit run |
| Rules.MaxMatchedIsMax | app/backend/routers/rules.py:65-72 | the running maximum is at least every matched version, and is one of them unless it is 0 |
| Rules.MaxVersionIsMax | app/backend/routers/rules.py:61-72 | the largest version is at least every matched version, and is one of them unless it is 0 |
| Rules.NoMatchDefaults | app/backend/routers/rules.py:61-75 | with no matching stem the suggestion is version 1 of `rules` |
| Rules.GetNextFilename | app/backend/routers/rules.py:55-75 | `rules_v1.md` without the directory; otherwise the base of the last matching stem with one more than the largest version |
| Rules.SanitizeRuleName | app/backend/routers/rules.py:106 | the same length, with every character outside word characters, `-`, `_` and `.` replaced by `_` |
| Rules.SanitizeAllowed | app/backend/routers/rules.py:106 | a name of allowed characters only is unchanged |
| Rules.SanitizeKeepsMd | app/backend/routers/rules.py:102-106 | a `.md` name stays a `.md` name |
| Rules.SanitizeRuleNameFacts | app/backend/routers/rules.py:106 | sanitising keeps a `.md` ending, leaves only allowed characters, and is idempotent |
| Rules.CreateRule | app/backend/routers/rules.py:97-119 | 400 exactly when the name does not end in `.md`, 409 exactly when its sanitised form exists; otherwise a new `.md` file under the sanitised name with the given content |
| Rules.GetRule | app/backend/routers/rules.py:79-93 | 404 exactly when `<id>.md` is absent; otherwise its id, file name and content |
| Rules.CreateThenGet | app/backend/routers/rules.py:79-119 | a rule just created reads back under its id with the content it was created with |
| AppReviews.InitPapers | app/backend/routers/reviews.py:70-81 | a key has a paper exactly when some decision line names it, and every fresh paper is unreviewed |
| AppReviews.InitOrderMatches | app/backend/routers/reviews.py:70-81 | the dictionary's key order lists each paper exactly once |
| AppReviews.StatsOf | app/backend/routers/reviews.py:104-110 | the reviewed count never exceeds the total |
| AppReviews.StatsAfterUpdate | app/backend/routers/reviews.py:134-148 | setting one existing paper keeps the total and moves that paper in or out of the reviewed set, as its manual decision says |
| AppReviews.FreshStats | app/backend/routers/reviews.py:93-96 | a fresh review has nothing reviewed |
| AppReviews.WithDecision | app/backend/routers/reviews.py:140-169 | reset clears the manual decision and wins over a new one; a given decision is stored; otherwise it stays; the AI decision and note stay |
| AppReviews.Updated | app/backend/routers/reviews.py:139-146 | update_paper_review's change is the decision as above plus the note when given, with the AI fields kept |
| AppReviews.WithDecisionIdempotent | app/backend/routers/reviews.py:163-170 | applying the same change twice equals applying it once, so a key listed twice in a bulk update is updated once |
| AppReviews.FinalDecision | app/backend/routers/reviews.py:189-192 | the final decision is the AI's or the manual one; the AI's when the manual one is absent, `ai` or empty, else the manual one |
| AppReviews.Review.FromRun | app/backend/routers/reviews.py:59-101 | a fresh review has the run id, one paper per decision key and the stats of nothing reviewed |
| AppReviews.Review.UpdateStats | app/backend/routers/reviews.py:104-110 | the stats are recomputed from the papers, and nothing else changes |
| AppReviews.Review.UpdatePaperReview | app/backend/routers/reviews.py:127-151 | an unknown key is 404 with nothing changed; otherwise only that paper changes, the stats follow and the updated paper is returned |
| AppReviews.Review.BulkUpdate | app/backend/routers/reviews.py:155-175 | exactly the listed keys that name papers are updated and reported in request order with their count; the others are skipped, the key set stays and the stats follow |
| AppReviews.Review.Export | app/backend/routers/reviews.py:187-200 | one row per paper in dictionary order, with its final decision |
| ScreeningSteps.LatestIsLast | screening/app/backend/routers/steps.py:73-77 | with distinct ids a step is latest exactly when it is found at the last index, and only one id is latest |
| ScreeningSteps.LatestGuard | screening/app/backend/routers/steps.py:337-351 | 404 exactly for an unknown step, 400 with the endpoint's text exactly for a known step that is not the latest; otherwise the index the step was found at |
| ScreeningSteps.FindStep | screening/app/backend/routers/steps.py:393-397 | the scan finds the first index holding the id, or none |
| ScreeningSteps.DeleteStep | screening/app/backend/routers/steps.py:385-418 | a failed guard is returned with the steps unchanged; otherwise the step found is popped and the others stay in order |
| ScreeningSteps.DeleteDropsLast | screening/app/backend/routers/steps.py:403-415 | with distinct ids a deletion drops exactly the last step |
| ScreeningSteps.ResetStep | screening/app/backend/routers/steps.py:331-381 | fails exactly when the guard fails, with its error; otherwise the step is the latest and a pending meta with its type and name, marked latest, is returned |
| ScreeningSteps.RunStats | screening/app/backend/routers/steps.py:279-294 | the input count is recorded and passed plus removed equals it |
| ScreeningSteps.PassedWithinTotal | screening/app/backend/routers/steps.py:279-281 | the passed output is counted inside the total, and is 0 when there is no `passed` output |
| ScreeningSteps.RemovedIsTheRest | screening/app/backend/routers/steps.py:279-293 | when the outputs split the input, the removed count is that of the outputs other than `passed` |
| ScreeningSteps.CleanEntries | screening/app/backend/routers/steps.py:202-205 | one entry per input, in order, each without its `_` fields and with every other field kept |
| Llm.BuildModelsUrlShape | app/backend/routers/llm.py:17-22 | the URL always ends in `/v1/models` and starts with the base without its trailing slashes |
| Llm.BuildModelsUrlTrailingSlash | app/backend/routers/llm.py:19 | a trailing slash on the base makes no difference |
| Llm.BuildModelsUrlVersioned | app/backend/routers/llm.py:20-22 | a base ending in `/v1` gets `/models`, any other gets `/v1/models` |
| Llm.ModelInfos | app/backend/routers/llm.py:45-51 | one model per listed item, in order |
| Llm.CheckLocalServer | app/backend/routers/llm.py:26-79 | connected exactly on a 200 answer, and then without an error; otherwise no models and an error, `HTTP` and the status for another status; the models are the listed ones with `unknown` defaults, none when the answer has no `data` |
| ScreeningSources.AddFromPath | screening/app/backend/routers/sources.py:134-182 | a failed check is returned with nothing changed; otherwise the record replaces its namesake in its category, keeping unique names and correct totals |
| ScreeningSources.Upload | screening/app/backend/routers/sources.py:186-237 | a failed check is returned with nothing changed; otherwise the record replaces its namesake in its category, keeping unique names and correct totals |
| ScreeningSources.Delete | screening/app/backend/routers/sources.py:241-269 | a failed check is returned with nothing changed; otherwise every record of that name leaves its category's list only, and the totals follow |
| Bib.PublicFields | app/backend/routers/imports.py:80 | exactly the fields not starting with `_` are kept, with their values |
| Bib.PublicFieldsFacts | screening/app/backend/routers/steps.py:204 | dropping internal fields is idempotent, leaves a clean entry alone and keeps every other field's value |

## Left out

Character classes and library stand-ins:

- Text.LowerStr: only ASCII letters change case. Python's `str.lower()` also maps non-ASCII letters, and the model does not model Unicode case mapping.
- Text.Strip: the whitespace set is the ASCII part of `str.isspace()`, which is tab, line feed, vertical tab, form feed, carriage return, 0x1C-0x1F and space. Unicode spaces such as U+00A0 or U+2028 are not whitespace here. The same holds for `Text.Words`, `Text.CollapseSpaces` and every member built on them.
- Rules.SanitizeRuleName: the regular-expression classes `\w` and `\d` are ASCII only (`Text.IsWordChar`, `Text.IsDigit`). Python's `re` also accepts non-ASCII letters and digits there. The same reduction applies to `Rules.VersionMatch`, `BibtexExtract.ParseBibtexEntries`, `QuerySearch.Tokenize` (the `\b` after a keyword), `PdfLibrary.NormalizeDoi` and `PdfFetch.ArxivPdfUrl`.
- ArxivFetch.TrailingDigits: `\d` is read as ASCII digits only.
- Projects.TrailingDigits: `\d` is read as ASCII digits only. Projects.TrailingSpaces and Projects.CopySuffix read `\s` as the ASCII whitespace set above.
- PdfLibrary.Unquote: decodes each `%XX` to the character with that code. `urllib.parse.unquote` instead decodes the bytes as UTF-8, replacing invalid sequences, so multi-byte escapes differ.
- PdfLibrary.NormalizeUrl: the `urlparse` stand-in splits scheme, netloc, path, params, query and fragment. It does not raise `ValueError` on a malformed IPv6 netloc, and it does not first remove embedded tab, CR and LF characters as `urlparse` does.
- DedupUtils.HostSource: the same `urlparse` stand-in, with the same two omissions. It is used through `DedupUtils.AfterScheme` and `DedupUtils.Netloc`.
- SpringerBibtex.CleanText: `html.unescape` is the parameter `unescape`. `SpringerBibtex.CleanTextIdempotent` holds only when `unescape` leaves the cleaned text unchanged, and `SpringerBibtex.CleanTextTwice` states what a second pass does otherwise.
- SpringerBibtex.CrossrefAbstract: the JATS and HTML tag stripping (`strip_jats`, `strip_tags`) is not modelled. The Crossref abstract arrives as the text left after stripping.
- QuerySearch.CleanBibText: the HTML-entity decoder is a parameter. `normalize_query` with `_cleanup_boolean_artifacts` is the parameter `normalize` of `ImportSearch.Prepare`.
- DedupTitle.Run: `difflib.SequenceMatcher` title similarity is an abstract `(string, string) -> real` function, and the threshold is a parameter.

Result payloads not modelled:

- DedupTitle.Run: does not build the `details.clusters` payload (member lists with similarities, average similarity, sort by size), which is app/backend/step_handlers/dedup_title.py:120-168. The model returns the outputs, the changes and the counts.
- DedupAuthor.Run: does not build the `details.clusters` payload (members with their title similarities, average similarity and its sort), which is app/backend/step_handlers/dedup_author.py:135-197. The float averages are not modelled either.
- ScreeningDedupAuthor.Run: does not build the `details.clusters` payload, which is screening/app/backend/step_handlers/dedup_author.py:165-202.

Network, browser, LLM and files:

- PdfFetch: the network calls are oracle values handed in by the caller. This covers the `fetch_pdf_bytes` request (its response is given per URL), the OpenAlex, Semantic Scholar and Unpaywall lookups (`lookups`), landing-page discovery (`landing`, which stands for `discover_landing_candidates` with `extract_html_pdf_urls` and `extract_ieee_arnumber`), and `resolve_local_pdf_candidates` (the entry's existing local paths).
- PdfFetchStep.BrowserStep: the Playwright `BrowserAssistSession` is an oracle: whether it starts and what it resolves. Its deadlines and polling are not modelled.
- PdfFetchStep.Run: progress callbacks, logging, the writing of managed PDF files and the `expanded_from` bookkeeping are not modelled. `expanded_from` is redundant because the candidate URLs are distinct.
- PdfLibrary.PdfIndex.Load: the JSON file read is a parameter, and saving the index is not modelled. `key_to_record_id` (SHA-256) and the clock are the parameters `idOf` and `now`. A record object is modelled as well-typed: a record with missing or ill-typed fields is not modelled, so the model does not capture `add_record_references` resetting a non-list `project_ids`, `step_ids` or `entry_keys` to `[]` (app/backend/pdf_library.py:234-236), nor the `ValueError` that `mark_record_missing` raises from `int(...)` on a non-numeric `failure_count` (app/backend/pdf_library.py:306), nor a `TypeError` from sorting non-string `updated_at` values.
- PdfLibraryRouter.ResolvePdfFile: the `FileResponse` itself, its headers beyond the download name and the inline disposition, and the 500 path of `remove_pdf_record` are not modelled. The existing files are a given set of paths. File sizes are not modelled.
- AiScreening.ScreenPaper: the prompt text, the chat-completion client, its semaphore and the timing are not modelled. The call is the oracle `ask` from the prompt's inputs to a reply or an API error.
- AiScreening.Run: the asyncio event-loop handling, the thread pool, progress callbacks and the warning log of skipped keys are not modelled. The totals of tokens and latency are not modelled either.
- AiScreening.DefaultRule: of `get_config_schema` only the default rules id is modelled. The rest is a constant JSON schema.
- Llm.CheckLocalServer: the HTTP probe is an oracle. A timeout, a connection error and any other exception arrive as the probe's error text.
- ArxivFetch.FetchPages: `build_url`, `fetch_xml`, the XML parsing, the sleep between pages, the output file and its timestamp are not modelled. A page request is a function from its start index to the parsed response.
- SemanticScholar.CollectPapers: `bulk_search` and `api_request` are not modelled (their pages are an input), and neither are the metadata JSON and the output files.
- SpringerBibtex.MergeMetadata: the Crossref and Springer fetches, their thread pool, the CSV reading and the script's main loop are not modelled. The fetched records are inputs.
- BibtexExtract.FormatOutput: reading the input file and writing the output file are not modelled.
- Imports.ImportMeta.AddFromPath: `pick_file` (a desktop file dialog), the copy itself and `count_bib_entries` are not modelled. Whether the path exists and the entry count are parameters. `get_import`, `get_file_entries` and `delete_import` (which removes a directory after the lock check `Imports.LockCheck`) only read or remove files.
- Projects.DuplicateProject: the directory creation and `copytree` are not modelled. `list_projects`, `get_import_sources` and `delete_project` only read or remove files.
- ProjectSources.SourcesMeta.AddFromPath: the file copy, `pick_file`, `get_source_entries` and `get_source_stat` are not modelled. The entry count is a parameter. The same holds for ScreeningSources.AddFromPath.
- ScreeningPipeline.Pipeline.AddStep: creating and removing step directories is not modelled. Loading and saving `pipeline.json`, `get_pipeline` and `update_pipeline` (a plain replacement) are not modelled either.
- ScreeningSteps.RunStats: of `run_step` only the recorded statistics are modelled. The handler lookup, `load_input_entries`, the writing of outputs and changes, the timing and the 500 path on failure are not. `list_steps`, `get_step`, `get_step_output` and `get_step_changes` only read files.
- AppReviews.Review.FromRun: the decision lines arrive parsed, with blank lines dropped. The 404s for a missing run directory or decisions file, loading and saving `review.json`, and the timestamps are not modelled. The same holds for ScreeningReviews.Review.FromRun, whose rules file arrives as its first line.
- Rules.GetNextFilename: the directory listing arrives as the stems in listing order. `list_rules` and `get_available_rules` only list the directory.
- Pydantic request and response validation is not modelled. Requests arrive as well-typed values.

## Findings

| source | as written | input that shows it | evidently intended | confidence | as-written member | corrected member |
|---|---|---|---|---|---|---|
| app/backend/pdf_library.py:120-126 | The DOI shape test `re.match(r"^10\.\d{4,9}/\S+$", value)` uses `$`, which also matches before a final newline. It runs after `strip("/")`, which can expose that newline. | The DOI field `10.1234/abc\n/`. `strip()` keeps it, `strip("/")` gives `10.1234/abc\n`, and the test accepts it. The result `10.1234/abc\n` becomes the key `doi:10.1234/abc\n`. | A normalised DOI contains no white space: `\S+` should reach the end of the text. | not executed | PdfLibrary.NormalizeDoiAsWritten, PdfLibrary.NormalizeDoiTrailingNewline | PdfLibrary.NormalizeDoi |
| app/backend/step_handlers/pdf_fetch.py:1305 | The run reads `browser_assist_enabled` with default `True` (line 842). The reported statistic reads it with default `False` (line 1305). | A configuration without `browser_assist_enabled`, and an entry that reaches browser assist. The step runs browser assist, but the details report `browser_assist.enabled` as false. | The statistic reports the setting the run used. | not executed | PdfFetchStep.ReportedAssistEnabledAsWritten, PdfFetchStep.ReportedAssistEnabledDisagrees | PdfFetchStep.ReportedAssistEnabled |

The rest of the model uses the corrected members. `PdfLibrary.CanonicalKey`,
`PdfLibrary.EntryDoi` and `PdfFetch.IsPdfLikelyForDoi` build on
`PdfLibrary.NormalizeDoi`. `PdfFetchStep.Run` reports
`PdfFetchStep.ReportedAssistEnabled`.
