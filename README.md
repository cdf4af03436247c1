# sock-validator, modelled in Dafny

sock-validator checks the completeness of knowledge-graph entities with SHACL
shapes, in three steps:

- `generate_shapes.py` writes a shapes graph as Turtle text. The graph has one
  NodeShape with a `sh:targetClass` or `sh:targetNode` target and one
  PropertyShape (`sh:path`, `sh:minCount`) per required property. The
  properties come from the class's `rdfs:domain` (each with cardinality 1), from
  the ten properties the class's entities use most, or from a spreadsheet (one
  shape file per row).
- `prepare_data.py` fetches the entities' property values from a SPARQL
  endpoint. For each property it sends the entity column in windows of 50, in a
  `VALUES` block.
- `validate_completeness.py` collects the `sh:path` properties of the shapes
  graph. It turns the SHACL validation report into a table with one 0/1 score
  per property and a `complete_all` ratio per entity. It also fills missing
  language tags.

The model has six modules:

- `Common`: Python slice semantics, decimal formatting, `str.join`, concatenation
  and the exceptions the scripts raise.
- `Table`: a pandas frame as a class with mutable columns.
- `ShapeBuilder` and `PropertySelection`: `generate_shapes.py`.
- `Completeness`: `validate_completeness.py`.
- `DataPreparation`: `prepare_data.py`.

Python's imperative functions are methods. Each method is proved equal to a
specification function, and the properties are proved about that function, or
is characterised directly by its ensures. The
SPARQL endpoint, the SHACL report query and the prefix block are parameters.

Where the model follows the code rather than what it evidently intends:

- The fetch loop queries `[idx-50:idx]` as written. A corrected window is proved
  alongside it only as a contrast (see Findings).
- The fetch reads its windows from the module-level `data`, not from its `df`
  parameter. The model uses one entity column for both.
- The columns of the report follow the order of first occurrence in
  `prop_list`, because a repeated property only overwrites its entry in
  `incomplete_dict`. `complete_all` still divides by the whole list's length.

## Model

| member | source | states |
|---|---|---|
| ShapeBuilder.NodeShape | generate_shapes.py:53-63 | the node shape starts with `\nex:` and its name, then the NodeShape line, then `sh:targetClass` or `sh:targetNode` (by the flag) and the target, and ends with ` ;\n    ` |
| ShapeBuilder.NodeShapeDecodes | generate_shapes.py:53-63 | the node shape text determines its target and whether the target is a class (a decoder reads both back) |
| ShapeBuilder.Entry | generate_shapes.py:88-93 | what is appended per row is the template without its leading newline, with the path in angle brackets and the decimal minimum count, ending ` ];\n` |
| ShapeBuilder.EntryAt | generate_shapes.py:85-93 | the accumulated text starts with the entries of the rows before row i followed by row i's entry: one entry per row, in row order, none skipped |
| ShapeBuilder.EntriesStep | generate_shapes.py:87-93 | one more row appends exactly that row's entry |
| ShapeBuilder.EntriesPrefix | generate_shapes.py:87-93 | the text accumulated after a prefix of the rows is a prefix of the full text |
| ShapeBuilder.PropertyShapeText | generate_shapes.py:96 | no rows give exactly `.`; otherwise the text ends ` ].` and is the accumulated entries with the final `;\n` replaced by `.` |
| ShapeBuilder.ConstructPropertyShape | generate_shapes.py:85-98 | the loop's result is `PropertyShapeText(rows)`: `.` for no rows, ending ` ].` otherwise |
| ShapeBuilder.ShapesGraph | generate_shapes.py:127-135 | the document is the prefix block without its leading newline, the node header, `sh:targetClass` or `sh:targetNode`, the target, ` ;\n   `, then (with rows) the accumulated entries as `[1:-2]` followed by `.`; so with rows it ends ` ].`, and with no rows it ends ` ;\n   ` with no period |
| ShapeBuilder.TerminatedShapesGraph | generate_shapes.py:133 | the corrected document always ends with a period; with rows it equals the original; with no rows it is the prefix block, the node header, the selector, the target and ` .` |
| ShapeBuilder.ShapeFilePathInjective | generate_shapes.py:289 | different shape names are written to different files |
| ShapeBuilder.SpreadsheetShape | generate_shapes.py:278-290 | a row's file text starts with the prefix block without its leading newline, followed by the node shape `ex:{name}Shape` (with `sh:targetNode` and `sh:property ex:{name}PropertyShape`); it ends with that property shape, whose `sh:path` is prop and whose `sh:minCount` is the row's cardinality, and nothing stands between the two shapes |
| ShapeBuilder.KeptAfterWrite | generate_shapes.py:289-290 | writing a row's file keeps the text of every earlier row that it does not overwrite |
| ShapeBuilder.GenerateBySpreadsheet | generate_shapes.py:273-290 | one file per distinct shape name; each row that no later row overwrites leaves its own text in its file |
| PropertySelection.PropertyByOntology | generate_shapes.py:195-200 | one row per answered property, in order, each with cardinality 1 |
| PropertySelection.InsertPermutes | generate_shapes.py:261 | inserting a row into the ranking keeps every row |
| PropertySelection.InsertKeepsOrder | generate_shapes.py:261 | inserting into a non-increasing ranking keeps it non-increasing |
| PropertySelection.SortByFreqPermutes | generate_shapes.py:261 | sorting by `rel_freq` keeps every row: the result is a permutation of the input |
| PropertySelection.SortByFreqOrders | generate_shapes.py:261 | sorting by `rel_freq` gives rows in non-increasing order of `rel_freq` |
| PropertySelection.TopRankedIsTop | generate_shapes.py:261-264 | `head(10)` keeps min(10, n) rows in non-increasing order; with the rows left out they are the whole ranking, and no row left out ranks above a kept one |
| PropertySelection.RankedRows | generate_shapes.py:254-260 | every ranked row is a candidate with cardinality 1 and relative frequency `num_of_union / num_of_entities` |
| PropertySelection.PropertyByStatistics | generate_shapes.py:240-264 | raises ZeroDivisionError exactly when there are candidates and no entity; otherwise returns min(10, n) rows, non-increasing in `rel_freq`, each a candidate with cardinality 1 and its frequency, namely the top of the sorted ranking |
| Completeness.MatchesOfIncomplete | validate_completeness.py:59-69 | an entity matches a property's table once per time it is listed as a focus node, always with score 0 |
| Completeness.MergeRowOfIncomplete | validate_completeness.py:73 | a left row becomes one row per match (score 0), or one row with score 1 from `fillna(1)` when unmatched |
| Completeness.LeftMergeInOrder | validate_completeness.py:73 | a left merge keeps the left table's order: it is the rows made from each left row, concatenated in order |
| Completeness.LeftMergeScored | validate_completeness.py:72-73 | a merge step keeps every row scored and adds the new property's score |
| Completeness.MergeAllScored | validate_completeness.py:66-73 | after all merges every row is an entity of the column and has score 0 for a property that lists it and 1 otherwise, so unknown focus nodes add no row |
| Completeness.UnknownFocusNodesIgnored | validate_completeness.py:73 | focus nodes that are not entities do not change a merge |
| Completeness.MergeRowSingle | validate_completeness.py:73 | an entity listed at most once makes exactly one row, with its score appended |
| Completeness.LeftMergeKeepsKeys | validate_completeness.py:73 | merging a property whose focus nodes do not repeat keeps exactly the rows, in order |
| Completeness.MergeAllKeepsEntities | validate_completeness.py:66-73 | with no focus node repeated within a property, the table has exactly the entity column's rows, in order |
| Completeness.SumOfScores | validate_completeness.py:75 | a row's score sum is the number of merged properties less the number that list the entity |
| Completeness.ReportRows | validate_completeness.py:75 | every report row is an entity with its 0/1 score per merged property and `complete_all` = (D - k) / P, where D properties are merged, k of them list the entity and P is the list's length; NaN when P = 0 |
| Completeness.ListIncomplete | validate_completeness.py:45-63 | per property, in order, the table of its focus nodes with score 0 |
| Completeness.IncompleteDict | validate_completeness.py:67-69 | the keys are the properties in first-occurrence order, each mapped to its table, and the dictionary holds no other key |
| Completeness.MergeIncomplete | validate_completeness.py:66-73 | the merge loop's result is the entity column left-joined with every table in key order |
| Completeness.CreateReportValidation | validate_completeness.py:44-76 | the columns are `use_col`, the distinct properties in `prop_list` order, and `complete_all`; each row is an entity with score 0 where a property lists it and 1 otherwise, and `complete_all` = (D - k) / P, which is (P - k) / P for a list without repeats; for a list without repeats the columns are `use_col`, the list and `complete_all`, and the rows are the report over the list; with no repeated focus node there is one row per entity, in order |
| Completeness.ShareOfPassed | validate_completeness.py:75 | when every listed property is merged, `complete_all` is the share (P - k) / P of properties that do not list the entity, NaN for P = 0 |
| Completeness.ReportShares | validate_completeness.py:66-75 | every row of the report over the list's own tables has `complete_all` = (P - k) / P, NaN for an empty list |
| Completeness.CollectPaths | validate_completeness.py:117-121 | the property list has no duplicates and holds exactly the N3 forms of the objects of `sh:path` triples |
| Completeness.FillLanguage | validate_completeness.py:108 | a missing tag becomes `not specified`; a present one is unchanged |
| Completeness.FillLanguageColumn | validate_completeness.py:108 | the fill is idempotent and leaves no missing tag |
| Completeness.FillMissingLanguage | validate_completeness.py:107-108 | when the frame has `o.xml:lang`, that column is filled in place and nothing else changes; otherwise the frame is unchanged |
| DataPreparation.WindowCount | prepare_data.py:69 | `range(0, size, 50)` visits `50*j` exactly for the j below ceil(size/50) |
| DataPreparation.WindowPositions | prepare_data.py:74 | window j is positions [50(j-1), 50j) (empty for j = 0), 50 entities for j > 0, and windows do not overlap |
| DataPreparation.WindowsCoverPrefix | prepare_data.py:69-74 | the windows concatenated are exactly the entities before `50*(ceil(size/50)-1)`, each once |
| DataPreparation.TailNeverQueried | prepare_data.py:69-74 | for a non-empty column, 1 to 50 trailing entities are in no window |
| DataPreparation.CorrectedWindowsPartition | prepare_data.py:74 | with `[idx:idx+50]` the windows concatenated are the whole column |
| DataPreparation.ValuesBlock | prepare_data.py:74 | an empty window gives exactly `VALUES ?s {}` |
| DataPreparation.ValuesBlockLists | prepare_data.py:74 | the block is `VALUES ?s {`, a text and `}`; split on spaces, that text is the window, in order, when no entity holds a space |
| DataPreparation.ValuesBlockAppend | prepare_data.py:74 | one more entity in the window adds a space and that entity before the closing `}` |
| DataPreparation.Query | prepare_data.py:71-78 | the query is the fixed `SELECT ?s ?p ?o WHERE {` head, the window's `VALUES` block, then `BIND(` with the property and the fixed `AS ?p)` and `?s ?p ?o .` tail |
| DataPreparation.QueryDecodes | prepare_data.py:71-78 | the query text determines its property and its window, in order (a decoder reads both back), for entities that are non-empty and hold no space or `}` |
| DataPreparation.QueryInjective | prepare_data.py:71-78 | different properties or windows give different query texts |
| DataPreparation.Outcomes | prepare_data.py:69-79 | one endpoint answer per window the loop visits, in loop order, for the query built on that window |
| DataPreparation.AnsweredStopsAtFirstFailure | prepare_data.py:70-84 | the kept answers are the windows' answers in order, up to but not including the first failure; there is no failure before them, and a failure right after them when they are fewer than the windows |
| DataPreparation.ResultsStopAtFirstFailure | prepare_data.py:69-84 | a property's answers are those of its windows' queries in loop order, up to the first query that raises, and one per window when none raises |
| DataPreparation.FetchProperty | prepare_data.py:69-84 | the inner loop appends exactly the property's answers to the list |
| DataPreparation.CollectedAppend | prepare_data.py:66-84 | answers come property by property, and a failure in one property does not affect the later ones |
| DataPreparation.NothingToCollect | prepare_data.py:68-86 | with no property or no entity nothing is collected |
| DataPreparation.GetDataProp | prepare_data.py:65-86 | the result is the concatenation of all collected answers, or the `pd.concat` error when nothing was collected |
| DataPreparation.Bracketed | prepare_data.py:95 | a present cell `x` becomes `<x>`, a missing one `<nan>`; either way a value in angle brackets |
| DataPreparation.BracketedRoundTrip | prepare_data.py:95 | stripping the brackets gives the entity value back |
| DataPreparation.AddEntityColumn | prepare_data.py:95 | the `entity` column is `entity.value` bracketed, and nothing else changes; a missing `entity.value` is a KeyError and leaves the frame unchanged |
| Common.Slice | generate_shapes.py:133 | Python slicing: in-range bounds give the plain subsequence; crossed bounds give the empty one |
| Common.DecimalRoundTrip | generate_shapes.py:91 | the decimal text of a count reads back as the count |
| Common.DistinctFacts | validate_completeness.py:67-72 | taking each element once keeps every element, repeats none, and leaves a list without repeats unchanged |
| Common.JoinAppend | prepare_data.py:74 | `str.join` of a list with one more element adds the separator and that element |
| Common.SplitJoin | prepare_data.py:74 | splitting a join on its one-character separator gives the list back when no element holds the separator |
| Common.FlattenAppend | prepare_data.py:86 | concatenating the tables of two lists is concatenating the two results |

## Left out

- `query_sparql` in both scripts, with its endless retry loop: network I/O. The
  endpoint is a function parameter. `None` stands for an exception in the `try`
  block.
- `DataPreparation.QueryDecodes`: the query is read back only for entities that
  are non-empty and hold no space or `}`. In SPARQL such an entity is an IRI,
  and an IRI never holds either character. The text of other entities is not
  shown to determine the window.
- The exact text of every query except the fetch query, whose `VALUES` block and
  `BIND` line are modelled. The domain, candidate and count queries are reduced
  to their answers.
- pyshacl validation, rdflib parsing and querying: foreign libraries. The report
  query is the parameter `reportQuery`. The shapes graph is a sequence of triples.
- rdflib's escaping of literals in `n3()`: `Completeness.N3` quotes a literal's
  lexical form without escaping, datatype or language tag.
- The content of the `prefixes` constant: a parameter, used only as `prefixes[1:]`.
- File and CLI plumbing: `open`/`write`, `to_csv`, `read_csv`, `os.makedirs`,
  `argparse`, `input()`, `sys.argv`, `tqdm` and `print`.
- `ShapeBuilder.GenerateBySpreadsheet` returns the final content of each written
  file instead of writing it.
- IEEE floating point: `rel_freq` and `complete_all` are exact reals.
- `PropertySelection.PropertyByStatistics`: pandas' default sort is not
  stable, so the source fixes no order among rows of equal `rel_freq`. The
  model fixes one tie order, a stable insertion sort; only non-increasing order
  holds of the source.
- `ShapeBuilder.SpreadsheetShape`: a cardinality is a natural number. A
  spreadsheet column read as floats would print as `1.0`.
- `Completeness.CreateReportValidation`: a property equal to `use_col`, and
  pandas' column suffixes for clashing names, are not modelled.
- `Table.Frame`: the columns are a map, so pandas' column order is not kept.
  In particular `DataPreparation.AddEntityColumn` appending `entity` as the last
  column is not modelled.
- `fillna(1)` fills every missing cell of the merged frame. The model fills only
  the new score column, because the entity column has no missing cells.
- The fetch's row type is generic. The `s`, `p` and `o` columns and
  `sort=False` are not modelled.
- Declared but empty functions: `generated_by_automatic` and the `automatic`
  branch.

## Findings

| source | as written | input that shows it | evidently intended | confidence | as-written member | corrected member |
|---|---|---|---|---|---|---|
| generate_shapes.py:96, 133 | with zero property rows, `property_shape[1:]` of `"."` is empty, so the document ends on ` ;\n   ` with no period, an unterminated Turtle statement | a domain query with no answer (`rows == []`) | the node shape's statement closed by ` .` | not executed | ShapeBuilder.ShapesGraph | ShapeBuilder.TerminatedShapesGraph |
| prepare_data.py:69-74 | the window `[idx-50:idx]` over `range(0, size, 50)` makes the first query empty and never queries the last 1 to 50 entities | any non-empty entity column, e.g. 1 entity: the only window is empty | `[idx:idx+50]`, covering the whole column | not executed | DataPreparation.TailNeverQueried | DataPreparation.CorrectedWindowsPartition |
