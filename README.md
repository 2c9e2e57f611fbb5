# chiir-2024-citations: the record-linkage core in Dafny

The repository gathers citation contexts: sentences in citing papers that
cite CHIIR 2024 papers. It links them to the metadata of the cited papers.
This project models the three scripts that do the linking and proves what
they guarantee.

- `scripts/parse_metadata.py` splits a context's `doc_id` path into the citing
  paper's scholar id and version. It keeps, for every citing paper, the
  version with the most contexts. It scores a cited title against the
  metadata title with a case-folded edit distance and a similarity
  `1 - dist / len`.
- `scripts/merge.py` builds two last-write-wins dictionaries (scholar id to
  DOI, DOI to metadata row). It writes the annotated contexts overlaid with
  their metadata and counts the annotated contexts it cannot match. It then
  extends every context with five metadata fields.
- `scripts/main.py` reads the contexts (drops `citing_id`, renames `cited_id`).
  It renames the metadata and scholar-id columns and performs three inner
  joins. It scores titles, keeps the rows whose similarity is strictly above
  0.6, and projects ten columns.

Layout:

- `errors.dfy` (module `Errors`): the Python exceptions the scripts can raise,
  and `Result`.
- `levenshtein.dfy` (module `Levenshtein`): the recursive edit distance and
  ASCII lower-casing.
- `frames.dfy` (module `Frames`): the pandas operations the scripts use, over
  `Frame(columns, rows)` with rows as maps from column name to `Cell`. Drop,
  rename, projection, boolean filtering, column assignment, inner join and
  row-wise apply are functions. The class `DataFrame` is the object whose
  columns are assigned in place.
- `versions.dfy` (module `Versions`): the theory of the version choice, over
  the sequence of parsed doc_ids.
- `parse_metadata.dfy` (module `ParseMetadata`): the five functions of
  `parse_metadata.py`. `add_scholar_id` and `get_version_with_max_refs` are
  methods that change a `DataFrame` in place.
- `merge.dfy` (module `Merge`): `merge.py`. Each loop is a method proved equal
  to a specification function, and the script as a whole is `RunMerge`.
- `linking.dfy` (module `Linking`): `read_citation_contexts` and
  `link_citation_contexts_and_metadata`. The latter is a method that rebinds
  frames, calls the two in-place operations and assigns the score columns
  in place.

A Python exception is an `Err` carrying the exception's kind (and, for
`KeyError`, the missing key). A NaN cell is `Missing`, and only `Str` cells
pass `isinstance(x, str)`.

## Model

| member | source | states |
|---|---|---|
| Levenshtein.DistanceSelf | scripts/parse_metadata.py:9 | a title is at distance 0 from itself |
| Levenshtein.DistanceZeroIff | scripts/parse_metadata.py:9 | distance 0 holds exactly for equal strings |
| Levenshtein.Distance | scripts/parse_metadata.py:9 | the edit distance is at most the longer string's length and at least the difference of the lengths |
| Levenshtein.DistanceSymmetric | scripts/parse_metadata.py:9 | the distance does not depend on argument order |
| Levenshtein.Lower | scripts/parse_metadata.py:9 | `.lower()` on ASCII: same length, no upper-case letter remains, every upper-case letter becomes the character 32 code points above it (its lower-case letter), other characters unchanged |
| Levenshtein.LowerIdempotent | scripts/parse_metadata.py:9 | lower-casing twice equals lower-casing once |
| ParseMetadata.PathTail | scripts/parse_metadata.py:24 | the file name `os.path.split` returns: a '/'-free suffix of the path, preceded by '/' when shorter than the path |
| ParseMetadata.PathTailIgnoresDirectory | scripts/parse_metadata.py:24 | the tail of `dir + "/" + name` is `name` for any directory |
| ParseMetadata.Split | scripts/parse_metadata.py:25 | `str.split('.')`: at least one piece, and no piece holds the separator |
| ParseMetadata.JoinSplit | scripts/parse_metadata.py:25 | joining the pieces with the separator gives the input back |
| ParseMetadata.SplitJoin | scripts/parse_metadata.py:25 | splitting a join of separator-free pieces gives the pieces back |
| ParseMetadata.SplitHasTwoPieces | scripts/parse_metadata.py:25 | there are two or more pieces exactly when the separator occurs |
| ParseMetadata.ParseDocId | scripts/parse_metadata.py:23-26 | succeeds exactly when the file name contains '.', and otherwise raises ValueError (the unpacking fails); the id and version hold neither '.' nor '/'; `id + "." + version` begins the file name and is followed by '.' or by nothing |
| ParseMetadata.VersionHead | scripts/parse_metadata.py:25-26 | a '.'-free version followed by nothing or by '.' is the first piece of the split |
| ParseMetadata.FirstTwoPieces | scripts/parse_metadata.py:25-26 | the first two pieces with the separator between them are a prefix of the string, followed by the separator or nothing |
| ParseMetadata.ParseDocIdIgnoresDirectory | scripts/parse_metadata.py:24 | everything up to the last '/' is ignored |
| ParseMetadata.ParseDocIdOfName | scripts/parse_metadata.py:23-26 | `dir/<id>.<version><rest>`, with rest empty or starting with '.', parses to `(id, version)` (e.g. `papers/abc123.v2.pdf`) |
| ParseMetadata.TitleDist | scripts/parse_metadata.py:7-15 | when at least one title is a string: the edit distance of the lower-cased titles, a non-string title counting as empty (so one title alone gives its length); otherwise 200 |
| ParseMetadata.TitleDistIgnoresCase | scripts/parse_metadata.py:8-9 | titles equal up to ASCII case are at distance 0 |
| ParseMetadata.TitleDistZero | scripts/parse_metadata.py:8-9 | two string titles are at distance 0 exactly when they agree up to case |
| ParseMetadata.TitleDistSymmetric | scripts/parse_metadata.py:7-15 | swapping the two titles leaves the distance unchanged |
| ParseMetadata.TitleDistBounded | scripts/parse_metadata.py:8-9 | the distance of two present titles is at most the longer one's length |
| ParseMetadata.GetTitleDist | scripts/parse_metadata.py:7-15 | succeeds exactly when both title columns exist, and then gives TitleDist of the two cells; otherwise a KeyError naming meta_cited_title when that column is absent, else cited_title |
| ParseMetadata.GetTitleSim | scripts/parse_metadata.py:18-20 | succeeds exactly when meta_cited_title is a non-empty string and title_dist an integer; otherwise, in the order Python evaluates: KeyError(meta_cited_title) when it is absent, TypeError when it is not a string, KeyError(title_dist) when that is absent, TypeError when it is not an integer, ZeroDivisionError when the title is empty; `sim * len == len - dist`; sim is 1 exactly when dist is 0; `sim > 0.6` exactly when `5 * dist < 2 * len` |
| ParseMetadata.ThresholdExact | scripts/parse_metadata.py:20 | `1 - d/n > 0.6` holds exactly when `5d < 2n` |
| ParseMetadata.OnlyMetaTitleScoresZero | scripts/parse_metadata.py:10-11 | with only the metadata title present, the similarity is exactly 0 |
| ParseMetadata.CaseOnlyDifferenceScoresOne | scripts/parse_metadata.py:8-9 | titles equal up to case score exactly 1 |
| ParseMetadata.SimAtMostOne | scripts/parse_metadata.py:18-20 | with title_dist from get_title_dist, the similarity is at most 1 |
| ParseMetadata.DocIdOf | scripts/parse_metadata.py:30 | parsing a row's doc_id succeeds exactly when the cell is a string whose file name contains '.' |
| ParseMetadata.AssignScholarIdEffect | scripts/parse_metadata.py:30-32 | after the three assignments every row holds its parsed pair, citing_id and citing_version are the pair's halves, and other cells and well-formedness are kept |
| ParseMetadata.WithScholarIdOk | scripts/parse_metadata.py:29-32 | add_scholar_id succeeds exactly when doc_id is a column and every doc_id parses; otherwise the error is that of a failing row |
| ParseMetadata.WithScholarIdEffect | scripts/parse_metadata.py:29-32 | on success each row's parsed pair is its parsed doc_id, citing_id and citing_version are its halves, and row count and other cells are unchanged |
| ParseMetadata.AddScholarId | scripts/parse_metadata.py:29-32 | the in-place method: on success the frame becomes WithScholarId of the old frame; on error it reports that error and leaves the frame unchanged |
| ParseMetadata.GetVersionWithMaxRefs | scripts/parse_metadata.py:35-39 | the in-place method: the argument gains num_refs (per row, the number of rows with its parsed doc_id); the result is the rows whose parsed doc_id is in max_versions |
| ParseMetadata.NumRefsKeepsIds | scripts/parse_metadata.py:36 | adding num_refs keeps every row's ids |
| ParseMetadata.MaxRefVersionsChosen | scripts/parse_metadata.py:37-39 | every surviving row carries a parsed doc_id that the version choice keeps |
| ParseMetadata.MaxRefVersionsSound | scripts/parse_metadata.py:35-39 | the result is an order-preserving subsequence of the input rows, and its parsed doc_ids are exactly those the version choice keeps |
| Versions.ChosenIndexBefore | scripts/parse_metadata.py:38 | a chosen version has a row before any row of an equally counted rival version of the same id |
| Versions.IdxMax | scripts/parse_metadata.py:38 | idxmax within one citing id: a row of that id whose count is maximal, and the first such row |
| Versions.InMaxVersions | scripts/parse_metadata.py:37-38 | a doc_id is in max_versions exactly when it is the chosen version of its citing id |
| Versions.KeepMembers | scripts/parse_metadata.py:39 | `isin` filtering keeps every occurrence of a member and none of a non-member |
| Versions.SelectionIsSubsequence | scripts/parse_metadata.py:39 | the surviving rows are an order-preserving subsequence of the input |
| Versions.OneVersionPerId | scripts/parse_metadata.py:35-39 | at most one version of each citing id survives |
| Versions.EveryIdSurvives | scripts/parse_metadata.py:35-39 | every citing id of the input keeps at least one row |
| Versions.SurvivorHasMostRefs | scripts/parse_metadata.py:36-38 | the surviving version has at least as many rows as any other version of its id |
| Versions.AllRowsOfSurvivorKept | scripts/parse_metadata.py:39 | all rows of a chosen version survive and none of another |
| Versions.TieGoesToFirst | scripts/parse_metadata.py:38 | between versions with equal counts, the one whose first row comes earlier wins |
| Frames.Drop | scripts/main.py:16 | KeyError exactly when the column is absent; otherwise that column goes and every other cell stays |
| Frames.Rename | scripts/main.py:17 | a renamed present column appears under its new name; the row count is kept |
| Frames.RenameRowEffect | scripts/main.py:17 | in one row the value moves to the new name, the old name goes and other cells stay |
| Frames.Project | scripts/main.py:103 | KeyError exactly when a listed column is absent; otherwise exactly the listed columns in order, with the same cells |
| Frames.Where | scripts/main.py:103 | boolean filtering keeps the columns and never adds rows |
| Frames.KeepIsSubsequence | scripts/main.py:103 | boolean filtering keeps exactly the selected rows, in order |
| Frames.KeepCount | scripts/parse_metadata.py:39 | when all occurrences of a value are selected alike, filtering keeps all of them or none |
| Frames.KeepContains | scripts/parse_metadata.py:39 | an element survives a filter exactly when it sits at a selected position |
| Frames.WithColumn | scripts/main.py:89-90 | column assignment sets that column in every row and changes no other cell |
| Frames.JoinSource | scripts/main.py:67 | every joined row is a left row and a right row with equal keys |
| Frames.JoinComplete | scripts/main.py:67 | every pair of left and right rows with equal keys appears in the join |
| Frames.InnerJoin | scripts/main.py:67 | KeyError exactly when a key column is absent; the columns are those of both sides |
| Frames.MatchesPicks | scripts/main.py:67 | one left row gives exactly one joined row per right row with an equal key, in right-frame order |
| Frames.JoinPairs | scripts/main.py:67 | the join has exactly one row per pair of a left and a right row with equal keys, in order (left index first), each row the union of its pair |
| Frames.JoinKeepsRight | scripts/main.py:84 | every joined row carries all cells of some right-hand row |
| Frames.Apply | scripts/main.py:89-90 | a successful row-wise apply gives one result per row |
| Frames.ApplySound | scripts/main.py:89-90 | a row-wise apply succeeds exactly when every row does, and gives each row's result in order; otherwise it fails with the first failing row's error |
| Frames.DataFrame.SetColumn | scripts/main.py:89-90 | `df[name] = values` in place: the frame becomes WithColumn of the old one |
| Merge.IndexOk | scripts/merge.py:14-15 | building a dictionary succeeds exactly when every line can be read |
| Merge.IndexKeys | scripts/merge.py:14-15 | the dictionary's keys are exactly the lines' keys |
| Merge.IndexLastWins | scripts/merge.py:23-24 | a key maps to the value of the last line carrying it |
| Merge.BuildIdMappings | scripts/merge.py:11-15 | the loop builds exactly the id_mappings index, or its first KeyError |
| Merge.BuildAllData | scripts/merge.py:18-24 | the loop builds exactly the all_data index, or its first KeyError |
| Merge.IdMappingsSound | scripts/merge.py:14-15 | id_mappings is built exactly when every row has doi and result_id, and its keys are the rows' result_ids |
| Merge.IdMappingsLastWriteWins | scripts/merge.py:15 | a result_id maps to the doi of its last row |
| Merge.AllDataSound | scripts/merge.py:23-24 | all_data is built exactly when every row has DOI, and its keys are the rows' DOIs |
| Merge.AllDataLastWriteWins | scripts/merge.py:24 | a DOI maps to its last row |
| Merge.AnnotatedBy | scripts/merge.py:34-38 | an error is a KeyError for a category the line lacks |
| Merge.AnnotatedByIff | scripts/merge.py:34-38 | true exactly when some category equals "1" and every category before it is present; false exactly when all are present and none equals "1" |
| Merge.AnnotatedByTotal | scripts/merge.py:34-38 | with all categories present the test cannot raise |
| Merge.IsAnnotated | scripts/merge.py:34-38 | the flag loop with break computes AnnotatedBy over the ten categories |
| Merge.Overlay | scripts/merge.py:41-43 | the merged line holds the line's fields and the non-dropped metadata fields; metadata wins on shared names; other line fields are unchanged |
| Merge.OverlayFields | scripts/merge.py:41-43 | the field-by-field loop, in any iteration order, computes Overlay |
| Merge.MergeLine | scripts/merge.py:34-47 | a line raises exactly when its category test raises or it is annotated without a mapped cited_id; it is skipped exactly when unannotated; it is written exactly when annotated and matched, as the Overlay with its metadata row |
| Merge.MergeRowsOk | scripts/merge.py:33-47 | the merge loop finishes exactly when no line raises |
| Merge.MergeRowsCounts | scripts/merge.py:39-47 | written = annotated and matched lines; dropped = annotated lines − written lines |
| Merge.MergeRowsWritten | scripts/merge.py:39-44 | the written rows are exactly the overlays of the annotated, matched lines, in input order |
| Merge.UnmappedIdIsFatal | scripts/merge.py:40 | an annotated line whose cited_id id_mappings lacks stops the merge |
| Merge.MergeOne | scripts/merge.py:34-47 | one pass of the loop body (category loop, the two lookups, the field overlay) computes MergeLine |
| Merge.MergeContexts | scripts/merge.py:33-47 | the loop with its running dropped counter computes MergeRows |
| Merge.MergedHeader | scripts/merge.py:31 | the header begins with the context field names |
| Merge.MergedHeaderSound | scripts/merge.py:31 | the added names are exactly the metadata field names outside DROP_FIELDNAMES, in their order |
| Merge.MergedRowFitsHeader | scripts/merge.py:31-44 | every field of a merged row is in the header, so DictWriter accepts it |
| Merge.CopyFieldsSound | scripts/merge.py:58-62 | copying listed fields succeeds exactly when the metadata row has them all (otherwise KeyError on one it lacks); the result has the line's fields and the listed ones, with listed values from the metadata |
| Merge.ExtendLine | scripts/merge.py:58-62 | extending succeeds exactly when the line is matched and its metadata row has all five fields |
| Merge.ExtendLineEffect | scripts/merge.py:58-62 | an extended line has its own fields plus exactly the five, copied from its metadata row; its other fields are unchanged |
| Merge.ExtendSound | scripts/merge.py:57-63 | the extended output has every input line in order, whatever its annotation, and is produced exactly when every line can be extended |
| Merge.ExtendedRowFitsHeader | scripts/merge.py:55-63 | every field of an extended row is in the extended header |
| Merge.CopyExtensionFields | scripts/merge.py:58-62 | the five assignments compute CopyFields over the five fields |
| Merge.ExtendOne | scripts/merge.py:58-62 | the loop body computes ExtendLine, with the lookups in order |
| Merge.ExtendContexts | scripts/merge.py:57-63 | the loop computes the row-wise application of ExtendLine |
| Merge.MergeScriptOk | scripts/merge.py:11-63 | the merged output exists exactly when both indexes are built and the merge loop finishes; the extended output then exists exactly when every line can be extended |
| Merge.RunMerge | scripts/merge.py:11-63 | the whole script computes MergeScript |
| Linking.ReadCitationContexts | scripts/main.py:13-18 | succeeds exactly when citing_id is a column, and otherwise raises KeyError("citing_id") |
| Linking.ReadCitationContextsEffect | scripts/main.py:16-17 | rows keep their count; citing_id and cited_id are gone; cited_bibl_id holds the old cited_id; every other cell is unchanged |
| Linking.RenameScholarIds | scripts/main.py:54 | the scholar-id renames keep every row |
| Linking.RenameScholarIdsRow | scripts/main.py:54 | in each row cited_id and scholar_title take the old result_id and title cells, the old names are gone, every other cell stays |
| Linking.RenameMetadata | scripts/main.py:59-64 | the metadata renames keep every row |
| Linking.RenameMetadataRow | scripts/main.py:59-64 | in each row meta_cited_doi, meta_cited_title and meta_cited_authors take the old DOI, title and authors cells, the old names are gone, every other cell stays |
| Linking.LinkedMetadata | scripts/main.py:54-67 | the renames and then the join on meta_cited_doi = doi: it fails exactly when metadata has neither DOI nor meta_cited_doi, or the scholar ids lack doi |
| Linking.RenamedJoinKeys | scripts/main.py:54-64 | the join keys survive the renames: meta_cited_doi comes from DOI; doi is untouched |
| Linking.CitationsWithMetadata | scripts/main.py:74 | the join on cited_id brings only cited_id, meta_cited_authors and meta_cited_title from the metadata |
| Linking.PreparedContextsOk | scripts/main.py:78-80 | preparing the contexts succeeds only by reading them, parsing every doc_id, and then keeping the max-reference version of each citing paper |
| Linking.JoinKeepsScholarId | scripts/main.py:84 | a join with a frame whose rows all carry a chosen parsed doc_id gives rows that carry one too |
| Linking.JoinedFromMaxVersion | scripts/main.py:79-84 | every row of the contexts join carries a parsed doc_id that is in max_versions, the chosen version of its citing paper |
| Linking.Scored | scripts/main.py:89-90 | scoring keeps the row count |
| Linking.ScoredSound | scripts/main.py:89-103 | a scored row has its title distance and a real similarity, is above the threshold exactly when `5 * dist < 2 * len(meta_cited_title)`, and keeps every other cell |
| Linking.LinkShape | scripts/main.py:92-105 | the output columns are the ten select_cols in order, and the printed count is its number of rows |
| Linking.ThresholdRows | scripts/main.py:103-105 | the written rows are exactly the scored rows strictly above 0.6, in order, with their selected cells |
| Linking.LinkCitationContextsAndMetadata | scripts/main.py:45-105 | the method, which rebinds frames and changes them in place, computes Link |

## Left out

- The GROBID PDF-to-TEI conversion (`scripts/main.py:21-30`) is an external service call. The extraction and validation of contexts from TEI (`scripts/main.py:33-42`) live in the `parse` and `validate` modules, which are not part of this model.
- File I/O (reading and writing TSV/CSV), the printing, and the hard-coded paths and flags of `main()` are left out. Inputs are frames or sequences of records; outputs are returned values.
- Only the edit distance's standard recursive definition is modelled, not the internals of the Levenshtein C library.
- `str.lower()` is modelled for ASCII letters only, without Unicode case folding.
- ParseMetadata.GetTitleSim: `title_dist` is modelled only as the integer that get_title_dist writes. A float `title_dist`, which Python would divide, gives TypeError in the model.
- The similarity is exact real arithmetic, not IEEE floats. Near the 0.6 boundary, float rounding of `1 - dist/len` might decide differently from the exact `5 * dist < 2 * len`.
- pandas row order within a merge, the index labels, and `_x`/`_y` suffixing of clashing column names are left out. A joined row is `left + right`, so the right side's cell wins on a clash.
- In joins, NaN keys compare equal to each other, as pandas merges them. Duplicate column names, which a rename onto an existing name would create, are not modelled: the renamed cell overwrites the old one.
- A missing `doc_id` column is pandas' AttributeError; the model reports it as `KeyError("doc_id")`.
- csv.DictReader fills short rows with `None` and puts surplus values under a `None` key. Records are plain maps, so neither case arises.
- pandas' special handling of a row-wise `apply` on an empty frame is not modelled; the model assigns empty score columns.
- When merge.py raises midway, the rows already written stay in the output file. The model returns only the error.
- Python's interpreter limits are left out (recursion depth, memory).
