# Verified models of Moonbox components

Models in Dafny of the parts of Moonbox where data is transformed, buffered or exchanged under
rules that are easy to break, with proofs of what they promise. Each component is modelled twice
where the program works in place: as functions on values, about which the theorems are stated, and
as classes and loops shaped like the program, proved to compute those functions.

- **Elasticsearch aggregation** (`Aggregations`, `AggregationEnumerators`, `GroupBy`). SQL grouping
  is compiled to nested terms aggregations, and the tree of buckets that comes back is flattened
  into rows by cloning the last row over and over. The heap argument (rows are distinct arrays, a
  finished row is never written again) is in the class; that stale cells never show, and that the
  whole way preserves the meaning of GROUP BY, is in the lemmas.
- **Exception chains** (`JavaText`, `ExceptionLines`, `ExceptionChain`). A chain of exceptions is
  printed as lines without the frames each trace shares with the enclosing one, and parsed back.
- **Filters** (`LikePatterns`, `Conditions`, `FilterTranslators`, `BoundMerging`,
  `FilterMeaning`, `FieldExactness`). An OR of ANDs of
  comparisons is compiled to bool queries, merging the conditions of each field.
- **Result buffers** (`BitMasks`, `Columns`, `RowSets`, `RowSetObjects`). Growable columns with a null
  mask, drained in chunks, against sets of rows.
- **RPC** (`Rpc`). The table of outstanding requests, duplicate replies, failed writes and loss of
  the channel, as a state machine over all runs of one event loop.
- **Services** (`Services`, `ServiceObjects`). Starting a tree of services with rollback, and
  stopping it in reverse.
- **Smaller parts**: cursors over pages (`Paging`), the splitter of SQL scripts (`SqlSplitter`), the
  wire codec (`Codec`) and the conversion of units of size (`ByteUnits`).

## Where the code falls short

The code is modelled as it is. Where a promise does not hold, there is an exact condition, or an
example that breaks it:

- An empty bucket list leaves a row that belongs to no leaf, so an empty table shows one blank row
  (`FlattenUniform`, `EmptyTableShowsBlankRow`).
- The mask kept by `Column.extractSubset` is taken from the start of the extracted range instead of
  its end, so nulls move (`RemainingCells`, `RemainingRowsShow`); and a fixed-width column drained
  to the end cannot grow again, because doubling length zero gives zero (`Column.AddValue`).
- A composite service in the wrong state starts all its children before it throws, outside the
  rollback (`FailureAfterChildrenIsNotRolledBack`, `StartIsAllOrNothing`).
- An equality erases other conditions on its field, of several `<>` one is kept, bounds of different
  types under one operator erase each other, and LIKE patterns with escapes or wildcards of the other
  language change their meaning; `FieldExactness` has the exact condition for each, and `KeptIsDecided` for
  the texts an escape loses. Casts are dropped, also those that matter (`CallMeansCond`). A `<>` over a
  missing field selects the row (`FilterIsExact`, `NotIsExact`), a mix of `<>` with bounds loses every
  row (`MixedFieldLosesRows`), and a LIKE with the field as its pattern is compiled the wrong way
  round (`ReversedLikeKeepsRows`).
- A callback is invoked a second time when the write of its request fails after the request was
  completed (`WriteErrorFiresAgain`, `FiredTwiceAfterLateFailure`, `LateFailureHappens`), and a
  request whose id is used again while outstanding is lost (`SendLosesNoRequest`); used again later, its
  request can be completed by a late duplicate of another's reply (`RunStaysTruthful`,
  `DuplicateCompletesAnother`).
- Converting a large negative number to a finer unit wraps around without an exception
  (`ConversionIsExact`).
- The splitter drops a last statement of one character (`JoinRestores`).
- Past an empty page the scroll enumerator asks the server again (`FalseIsFinal`).

## Model

| member | source | states |
|---|---|---|
| `Aggregations.HandleIsLocal` | external/calcite-elasticsearch5-adapter/src/main/java/edp/elasticsearch/ElasticsearchAggregationEnumerator.java:57-112 | A call works on the last row alone: whatever rows precede it stay as they are, and the rows and the outcome are those it gives without them |
| `Aggregations.WriteAllAt` | external/calcite-elasticsearch5-adapter/src/main/java/edp/elasticsearch/ElasticsearchAggregationEnumerator.java:103-105 | After the writes of one path, a cell that the path names depends on the path alone; any other cell is what the row held before |
| `Aggregations.StaleCellsVanish` | external/calcite-elasticsearch5-adapter/src/main/java/edp/elasticsearch/ElasticsearchAggregationEnumerator.java:91-105 | A row cloned from a finished one and written by a path with the same names shows nothing of the old path |
| `Aggregations.RowCount` | external/calcite-elasticsearch5-adapter/src/main/java/edp/elasticsearch/ElasticsearchAggregationEnumerator.java:57-112 | On a uniform tree nothing throws, and there is one row for each leaf and one for each empty bucket list |
| `Aggregations.RowsOfLeaves` | external/calcite-elasticsearch5-adapter/src/main/java/edp/elasticsearch/ElasticsearchAggregationEnumerator.java:57-112 | In the middle of the recursion, the row under construction is replaced by the rows of the leaves in depth-first order, although each is cloned from the one before |
| `Aggregations.FlattenUniform` | external/calcite-elasticsearch5-adapter/src/main/java/edp/elasticsearch/ElasticsearchAggregationEnumerator.java:57-112 | The rows of a uniform tree are those of its leaves, each made from the blank row, if and only if no bucket list in it is empty |
| `AggregationEnumerators.AggregationEnumerator.constructor` | external/calcite-elasticsearch5-adapter/src/main/java/edp/elasticsearch/ElasticsearchAggregationEnumerator.java:34-55 | The enumerator holds the rows of the functional flattening of the response, begun with one blank row; an exception there is swallowed and the rows made so far stay |
| `AggregationEnumerators.AggregationEnumerator.HandleAggregations` | external/calcite-elasticsearch5-adapter/src/main/java/edp/elasticsearch/ElasticsearchAggregationEnumerator.java:57-112 | On the shared list of arrays: the contents become those of the functional flattening, the old arrays stay in their places and only the last of them is written, added arrays are new, the arrays are pairwise distinct and `currentLineIndex` is the last index |
| `AggregationEnumerators.AggregationEnumerator.HandleMultiBuckets` | external/calcite-elasticsearch5-adapter/src/main/java/edp/elasticsearch/ElasticsearchAggregationEnumerator.java:83-111 | The same for the loop over the buckets of one terms aggregation |
| `AggregationEnumerators.AggregationEnumerator.HandleBucket` | external/calcite-elasticsearch5-adapter/src/main/java/edp/elasticsearch/ElasticsearchAggregationEnumerator.java:90-108 | The same for one bucket: key, then sub-aggregations |
| `AggregationEnumerators.AggregationEnumerator.BeginLine` | external/calcite-elasticsearch5-adapter/src/main/java/edp/elasticsearch/ElasticsearchAggregationEnumerator.java:91-105 | The first bucket of a list writes its key into the row under construction, any other into a clone that becomes the last row; the finished row is not written again |
| `AggregationEnumerators.AggregationEnumerator.AllNumericAggregations` | external/calcite-elasticsearch5-adapter/src/main/java/edp/elasticsearch/ElasticsearchAggregationEnumerator.java:114-122 | True exactly when every aggregation in the list is a numeric metric |
| `AggregationEnumerators.AggregationEnumerator.CreateLineForNumericAggregations` | external/calcite-elasticsearch5-adapter/src/main/java/edp/elasticsearch/ElasticsearchAggregationEnumerator.java:124-139 | Each single-valued metric goes to the cell of its name; a name that was not selected throws |
| `AggregationEnumerators.AggregationEnumerator.MoveNext` | external/calcite-elasticsearch5-adapter/src/main/java/edp/elasticsearch/ElasticsearchAggregationEnumerator.java:147-164 | Hands out the rows in order, up to the limit; once false, nothing changes and the current row is null |
| `GroupBy.Implement` | external/calcite-elasticsearch5-adapter/src/main/java/edp/elasticsearch/ElasticsearchAggregate.java:49-74 | The request nests the groups in order around the metrics of the calls; it throws only if some call cannot be compiled |
| `GroupBy.MetricMeansCall` | external/calcite-elasticsearch5-adapter/src/main/java/edp/elasticsearch/ElasticsearchAggregate.java:99-145 | A compiled metric evaluated by the server is the value of the SQL aggregate over the same documents if and only if, for anything but a count, some document has a value |
| `GroupBy.AnswerShowsGroups` | external/calcite-elasticsearch5-adapter/src/main/java/edp/elasticsearch/ElasticsearchAggregate.java:76-88 | Every answer to the nested request is a uniform tree without empty bucket lists, whose paths are the distinct key tuples of the table, each with the metrics of exactly the documents having that tuple |
| `GroupBy.GroupByPreserved` | external/calcite-elasticsearch5-adapter/src/main/java/edp/elasticsearch/ElasticsearchAggregate.java:49-88 | End to end, for a table that is not empty: flattening any answer to the request gives exactly one row per distinct key tuple, showing its keys and the metrics of its documents |
| `GroupBy.QueryAnswersSql` | external/calcite-elasticsearch5-adapter/src/main/java/edp/elasticsearch/ElasticsearchAggregate.java:49-145 | From the compiled request through any answer to the rows of the enumerator: one row per SQL group, with its keys, and in the cell of each call SQL's value over the group exactly when that is not NULL |
| `GroupBy.EmptyTableShowsBlankRow` | external/calcite-elasticsearch5-adapter/src/main/java/edp/elasticsearch/ElasticsearchAggregationEnumerator.java:48-52 | On an empty table grouping yields one blank row although there is no group |
| `GroupBy.EmptyListsOfAnswer` | external/calcite-elasticsearch5-adapter/src/main/java/edp/elasticsearch/ElasticsearchAggregate.java:76-88 | Whatever group fields are missing from the documents, the answer is uniform, and it has no empty bucket list if and only if every tuple of first keys that some document has is also had by a document with the next field |
| `GroupBy.AnswerIsFlattened` | external/calcite-elasticsearch5-adapter/src/main/java/edp/elasticsearch/ElasticsearchAggregationEnumerator.java:57-112 | Flattening that answer gives exactly the rows of its leaves under the same condition on the documents |
| `JavaText.SplitJoined` | thriftserver/src/main/java/org/apache/hive/service/cli/HiveSQLException.java:225-244 | Fields joined by colons and cut at the first, second and last colon come back if the outer ones hold no colon, whatever the middle one holds |
| `JavaText.ParsePrintedInt` | thriftserver/src/main/java/org/apache/hive/service/cli/HiveSQLException.java:195-248 | A printed 32-bit number reads back, the extreme ones included |
| `ExceptionLines.HeadRoundTrip` | thriftserver/src/main/java/org/apache/hive/service/cli/HiveSQLException.java:192-233 | A printed head reads back its two numbers always, its class name if and only if that has no colon, and then its message, a missing one as the text `null` |
| `ExceptionLines.FrameRoundTrip` | thriftserver/src/main/java/org/apache/hive/service/cli/HiveSQLException.java:197-249 | A printed frame always reads as a frame, and reads back equal if and only if class and file name hold no colon and the file name is not empty |
| `ExceptionChain.LastOwnFrame` | thriftserver/src/main/java/org/apache/hive/service/cli/HiveSQLException.java:174-181 | The two indices stop at the last frame outside the suffix shared with the enclosing trace |
| `ExceptionChain.CommonSuffixIsLongest` | thriftserver/src/main/java/org/apache/hive/service/cli/HiveSQLException.java:174-181 | What is left out is a common suffix of the two traces, and the longest one |
| `ExceptionChain.Enroll` | thriftserver/src/main/java/org/apache/hive/service/cli/HiveSQLException.java:190-207 | The lines of one level: its head, then its own frames in order |
| `ExceptionChain.ToLines` | thriftserver/src/main/java/org/apache/hive/service/cli/HiveSQLException.java:172-188 | The lines of a level, then those of its cause with this trace as the enclosing one |
| `ExceptionChain.ToStackTrace` | thriftserver/src/main/java/org/apache/hive/service/cli/HiveSQLException.java:220-260 | The loops over lines and colon positions compute the functional parser, failures included |
| `ExceptionChain.ReadFrames` | thriftserver/src/main/java/org/apache/hive/service/cli/HiveSQLException.java:235-250 | The loop that fills the array reads frames up to the declared number and never leaves the lines or the array |
| `ExceptionChain.CopyShared` | thriftserver/src/main/java/org/apache/hive/service/cli/HiveSQLException.java:251-254 | The loop that copies the elided frames takes them from the same distance to the end of the enclosing trace |
| `ExceptionChain.LevelRoundTrip` | thriftserver/src/main/java/org/apache/hive/service/cli/HiveSQLException.java:220-260 | Parsing one printed level consumes exactly its lines, whatever follows, and yields its class, message and full trace, elided frames included, under the exact conditions on names |
| `ExceptionChain.PrintedChainParses` | thriftserver/src/main/java/org/apache/hive/service/cli/HiveSQLException.java:172-260 | Parsing a printed chain never fails and gives a chain of the same length, whatever names and messages hold |
| `ExceptionChain.ChainRoundTrip` | thriftserver/src/main/java/org/apache/hive/service/cli/HiveSQLException.java:168-260 | Parsing a printed chain gives the same chain if and only if no message is null, no class name holds a colon, and every frame is readable |
| `LikePatterns.LikeIsKept` | external/calcite-elasticsearch5-adapter/src/main/java/edp/elasticsearch/ElasticsearchFilter.java:182-191 | A text that LIKE accepts is accepted by the wildcard query, for patterns with no backslash before another character |
| `LikePatterns.LikeIsExact` | external/calcite-elasticsearch5-adapter/src/main/java/edp/elasticsearch/ElasticsearchFilter.java:182-191 | The wildcard query accepts exactly the texts LIKE accepts if and only if the pattern has no `*`, no `?` and no backslash before another character |
| `LikePatterns.EscapeLosesTexts` | external/calcite-elasticsearch5-adapter/src/main/java/edp/elasticsearch/ElasticsearchFilter.java:182-191 | For a pattern without `%` and `*`, the wildcard query accepts every text LIKE accepts if and only if no backslash stands before another character; otherwise it accepts none of them |
| `LikePatterns.KeptIsDecided` | external/calcite-elasticsearch5-adapter/src/main/java/edp/elasticsearch/ElasticsearchFilter.java:182-191 | For any pattern, whether the wildcard query accepts every text LIKE accepts is decided by finitely many texts: the pattern with one character it does not hold for each `_`, and a bounded run of it for each `%` |
| `LikePatterns.ReversedLikeIsKept` | external/calcite-elasticsearch5-adapter/src/main/java/edp/elasticsearch/ElasticsearchFilter.java:182-191 | With pattern and text exchanged, the query accepts every text for which LIKE holds if and only if the pattern is only wildcards, with one for any text and at most one for a single character |
| `FilterTranslators.Translator.TranslateOp2` | external/calcite-elasticsearch5-adapter/src/main/java/edp/elasticsearch/ElasticsearchFilter.java:305-311 | Records one condition: in the equality map, or as one more pair of the field |
| `FilterTranslators.Translator.TranslateBinary2` | external/calcite-elasticsearch5-adapter/src/main/java/edp/elasticsearch/ElasticsearchFilter.java:270-303 | Records the condition when the left operand is a field, under casts or not, or a literal, and the right one a literal; otherwise records nothing and returns false |
| `FilterTranslators.Translator.TranslateMatch2` | external/calcite-elasticsearch5-adapter/src/main/java/edp/elasticsearch/ElasticsearchFilter.java:228-265 | Records the normal form of the comparison, with the operator reversed when the operands are, or throws |
| `FilterTranslators.Translator.TranslateAnd` | external/calcite-elasticsearch5-adapter/src/main/java/edp/elasticsearch/ElasticsearchFilter.java:144-207 | The clauses are those of a correct compilation of all conditions of the conjunction: per field the last equality, or else the merged pairs in some order |
| `FilterTranslators.Translator.EqualityClauses` | external/calcite-elasticsearch5-adapter/src/main/java/edp/elasticsearch/ElasticsearchFilter.java:151-165 | One term per field with an equality, and all its other conditions dropped |
| `FilterTranslators.Translator.RangeClauses` | external/calcite-elasticsearch5-adapter/src/main/java/edp/elasticsearch/ElasticsearchFilter.java:167-204 | One merged clause for each field left, in any order of the hash map |
| `FilterTranslators.Translator.MergePairs` | external/calcite-elasticsearch5-adapter/src/main/java/edp/elasticsearch/ElasticsearchFilter.java:172-202 | The pairs of one field folded in some order, each exactly once |
| `FilterTranslators.Translator.TranslateOr` | external/calcite-elasticsearch5-adapter/src/main/java/edp/elasticsearch/ElasticsearchFilter.java:94-131 | One compiled conjunction per disjunct, or the conjunction alone; throws only on an empty list or a call it cannot translate |
| `BoundMerging.FoldKeepsStrongest` | external/calcite-elasticsearch5-adapter/src/main/java/edp/elasticsearch/ElasticsearchFilter.java:133-138 | When the bounds agree, merging keeps the least bound for `lt` and `lte` and the greatest for `gt` and `gte`, in any order |
| `BoundMerging.MergeIsOrderIndependent` | external/calcite-elasticsearch5-adapter/src/main/java/edp/elasticsearch/ElasticsearchFilter.java:167-222 | All iteration orders of the pairs of a field give the same bounds if and only if any two bounds under one operator have one value or are both numbers or both texts |
| `BoundMerging.LastIsKept` | external/calcite-elasticsearch5-adapter/src/main/java/edp/elasticsearch/ElasticsearchFilter.java:133-222 | Of two bounds under one operator that do not agree, the one met last is kept |
| `FilterMeaning.CallMeansCond` | external/calcite-elasticsearch5-adapter/src/main/java/edp/elasticsearch/ElasticsearchFilter.java:228-303 | The recorded condition means what the comparison means on every row, reversed operands included, if and only if the casts that were dropped make no difference to the comparison |
| `FilterMeaning.WellFormedIffUnmixed` | external/calcite-elasticsearch5-adapter/src/main/java/edp/elasticsearch/ElasticsearchFilter.java:167-204 | The body of a merged clause is well formed if and only if its field does not mix `<>` with bounds |
| `FilterMeaning.FilterKeepsRows` | external/calcite-elasticsearch5-adapter/src/main/java/edp/elasticsearch/ElasticsearchFilter.java:94-207 | A row that satisfies the condition is selected by the compiled query, although equalities erase and repeated `<>` and LIKE overwrite, unless a field mixes `<>` with bounds, is itself the pattern of a LIKE, meets a pattern whose rewriting loses a text, or stands under a cast that changes the comparison |
| `FilterMeaning.ClausesMeanLenient` | external/calcite-elasticsearch5-adapter/src/main/java/edp/elasticsearch/ElasticsearchFilter.java:144-207 | The clauses of a simple conjunction select exactly the rows on which every condition holds, or is a `<>` whose field is missing |
| `FilterMeaning.FilterIsExact` | external/calcite-elasticsearch5-adapter/src/main/java/edp/elasticsearch/ElasticsearchFilter.java:94-303 | For simple conjunctions the query selects a row if and only if the row passes one of them, a missing field passing `<>`; it is exact on a row if and only if the row passes none, or passes one whose `<>` fields it all has |
| `FilterMeaning.ConjunctionIsExact` | external/calcite-elasticsearch5-adapter/src/main/java/edp/elasticsearch/ElasticsearchFilter.java:144-207 | A simple conjunction is compiled exactly, for every row, if and only if each field under a `<>` also has an equality or a LIKE, or no row passes at all |
| `FilterMeaning.MixedFieldLosesRows` | external/calcite-elasticsearch5-adapter/src/main/java/edp/elasticsearch/ElasticsearchFilter.java:167-204 | A field that mixes `<>` with bounds selects no row at all |
| `FieldExactness.EqualityIsExact` | external/calcite-elasticsearch5-adapter/src/main/java/edp/elasticsearch/ElasticsearchFilter.java:151-165 | The term of a field with an equality selects exactly the rows on which all its conditions hold if and only if all hold at the value of the last equality |
| `FieldExactness.NotIsExact` | external/calcite-elasticsearch5-adapter/src/main/java/edp/elasticsearch/ElasticsearchFilter.java:172-181 | The clause of a field with nothing but `<>` is right about a row if and only if the row has the field and none of the dropped values |
| `FieldExactness.NotIsExactInAnyOrder` | external/calcite-elasticsearch5-adapter/src/main/java/edp/elasticsearch/ElasticsearchFilter.java:172-181 | Whichever `<>` the hash map lets be kept, the clause is right about a row if and only if the row has the field, and its value is none of the values named or the only one |
| `FieldExactness.NotIsLenient` | external/calcite-elasticsearch5-adapter/src/main/java/edp/elasticsearch/ElasticsearchFilter.java:172-181 | Counting a missing field as passing, that clause is right about every row if and only if all its `<>` have one value |
| `FieldExactness.BoundsAreExact` | external/calcite-elasticsearch5-adapter/src/main/java/edp/elasticsearch/ElasticsearchFilter.java:192-200 | The clause of a field with nothing but bounds is right about every row if and only if the bounds agree, or those kept leave room for no value |
| `FieldExactness.BoundsAreExactInAnyOrder` | external/calcite-elasticsearch5-adapter/src/main/java/edp/elasticsearch/ElasticsearchFilter.java:192-200 | Whatever the order of the hash map, the clause is right about every row if and only if the bounds agree, or no order of them leaves room for a value |
| `FieldExactness.RoomForValue` | external/calcite-elasticsearch5-adapter/src/main/java/edp/elasticsearch/ElasticsearchFilter.java:192-200 | Whether bounds leave room for a value is decided by finitely many candidates: the bounds, the values next to them and between them |
| `FieldExactness.LikeClauseIsExact` | external/calcite-elasticsearch5-adapter/src/main/java/edp/elasticsearch/ElasticsearchFilter.java:182-191 | The clause of a single LIKE is right about every row if and only if its pattern is a text with no `*`, no `?` and no escape |
| `FieldExactness.ReversedLikeKeepsRows` | external/calcite-elasticsearch5-adapter/src/main/java/edp/elasticsearch/ElasticsearchFilter.java:253-265 | A LIKE with the field as its pattern, under no cast that matters, keeps every row on which it holds if and only if its text is only wildcards, with one for any text and at most one for a single character |
| `BitMasks.ToBinary` | thriftserver/src/main/java/org/apache/hive/service/cli/Column.java:233-239 | The bytes pack the bits, eight to a byte from the lowest, in one byte more than the length divided by eight |
| `BitMasks.ToBitset` | thriftserver/src/main/java/org/apache/hive/service/cli/Column.java:224-231 | The bits read from bytes are those whose mask is set |
| `BitMasks.UnpackPacked` | thriftserver/src/main/java/org/apache/hive/service/cli/Column.java:224-239 | Reading the packed bytes gives the bit set back, and only one sequence of bytes packs it |
| `Columns.AddedCells` | thriftserver/src/main/java/org/apache/hive/service/cli/Column.java:311-351 | Adding leaves all cells and appends the added value or null, whatever the mask held at its place |
| `Columns.AddedInOrder` | thriftserver/src/main/java/org/apache/hive/service/cli/Column.java:311-351 | After any sequence of additions the i-th cell is the i-th value added |
| `Columns.ExtractedCells` | thriftserver/src/main/java/org/apache/hive/service/cli/Column.java:159-218 | The extracted column shows exactly the rows from start to end |
| `Columns.RemainingCells` | thriftserver/src/main/java/org/apache/hive/service/cli/Column.java:159-218 | What stays behind shows the rows from the end on if and only if mask bit start + k equals mask bit end + k for every row left, because the mask kept is taken from the start |
| `Columns.WireRoundTrip` | thriftserver/src/main/java/org/apache/hive/service/cli/Column.java:113-306 | A column rebuilt from its wire form has the same type, values and mask, so the same cells |
| `Columns.Column.constructor` | thriftserver/src/main/java/org/apache/hive/service/cli/Column.java:80-111 | A new column is empty, has the default capacity, and nothing was copied |
| `Columns.Column.FromParts` | thriftserver/src/main/java/org/apache/hive/service/cli/Column.java:48-78 | The column of the given values and mask, its array exactly full |
| `Columns.Column.FromTColumn` | thriftserver/src/main/java/org/apache/hive/service/cli/Column.java:113-157 | The column that the wire form describes |
| `Columns.Column.Grow` | thriftserver/src/main/java/org/apache/hive/service/cli/Column.java:353-405 | A full array is doubled, its elements kept; it fails where the doubled length overflows |
| `Columns.Column.Append` | thriftserver/src/main/java/org/apache/hive/service/cli/Column.java:311-351 | The store takes the value, or keeps its contents where it is stuck, and the size follows; doublings from empty copy at most twice the size |
| `Columns.Column.AddValue` | thriftserver/src/main/java/org/apache/hive/service/cli/Column.java:311-351 | Appends the value or a filler with its mask bit; throws exactly when the array is full and of length zero or too long to double; a column that grew from empty never throws below 2^30 rows, and all doublings together copied at most twice its size |
| `Columns.Column.ExtractSubset` | thriftserver/src/main/java/org/apache/hive/service/cli/Column.java:159-218 | Returns the rows from start to end, keeps the rest, shares no array of a fixed-width column, and leaves a fixed-width column stuck exactly when nothing is left or too much |
| `Columns.Column.Get` | thriftserver/src/main/java/org/apache/hive/service/cli/Column.java:246-269 | The cell at an index: null where the mask says so |
| `Columns.Column.ToTColumn` | thriftserver/src/main/java/org/apache/hive/service/cli/Column.java:276-306 | The wire form holds the type, the values and the packed mask |
| `RowSets.AddedRowShows` | thriftserver/src/main/java/org/apache/hive/service/cli/ColumnBasedSet.java:83-88 | Adding a row to all columns appends that row, each field as the row-based set would read it |
| `RowSets.ExtractedRowsShow` | thriftserver/src/main/java/org/apache/hive/service/cli/ColumnBasedSet.java:105-115 | Extraction hands out the first rows |
| `RowSets.RemainingRowsShow` | thriftserver/src/main/java/org/apache/hive/service/cli/ColumnBasedSet.java:105-115 | The rows left are the other rows if and only if the mask of every column repeats itself at the distance extracted |
| `RowSets.DrainsAgree` | thriftserver/src/main/java/org/apache/hive/service/cli/ColumnBasedSet.java:105-115 | Draining the columnar and the row-based set in the same chunk sizes gives the same chunks and start offsets if and only if every chunk repeats the mask of the first rows, as it does without nulls |
| `RowSets.DrainPartitions` | thriftserver/src/main/java/org/apache/hive/service/cli/RowBasedSet.java:96-102 | Chunks partition the rows in order, each at the offset where the ones before it end |
| `RowSets.UnionShowsField` | thriftserver/src/main/java/org/apache/hive/service/cli/ColumnValue.java:174-217 | A field read back from the union value is the field read back from a column; what throws is exactly the bytes of a binary field and the object of an array, map, struct, union or user-defined type that is not a string |
| `RowSetObjects.ColumnBasedSet.constructor` | thriftserver/src/main/java/org/apache/hive/service/cli/ColumnBasedSet.java:59-65 | One new empty column per type, none shared |
| `RowSetObjects.ColumnBasedSet.FromColumns` | thriftserver/src/main/java/org/apache/hive/service/cli/ColumnBasedSet.java:76-80 | The set over the given columns |
| `RowSetObjects.ColumnBasedSet.AddRow` | thriftserver/src/main/java/org/apache/hive/service/cli/ColumnBasedSet.java:83-88 | Appends the row, or throws exactly when some column is stuck; then the columns before the first such one have taken their fields, and that one its mask bit |
| `RowSetObjects.ColumnBasedSet.ExtractSubset` | thriftserver/src/main/java/org/apache/hive/service/cli/ColumnBasedSet.java:105-115 | Returns the first rows at the present offset, keeps the rest, and moves the offset by as many |
| `RowSetObjects.ColumnBasedSet.ExtractColumns` | thriftserver/src/main/java/org/apache/hive/service/cli/ColumnBasedSet.java:107-111 | The loop takes the same rows from every column, and the columns returned share no array |
| `RowSetObjects.ColumnBasedSet.Fill` | thriftserver/src/main/java/org/apache/hive/service/cli/ColumnBasedSet.java:163-168 | The array the iterator hands out again and again holds exactly the row asked for |
| `RowSetObjects.RowBasedSet.AddRow` | thriftserver/src/main/java/org/apache/hive/service/cli/RowBasedSet.java:77-84 | Appends the row as the columnar set would read it back; throws, and leaves the set as it was, exactly when the cast of some field to a string fails |
| `RowSetObjects.RowBasedSet.ExtractSubset` | thriftserver/src/main/java/org/apache/hive/service/cli/RowBasedSet.java:96-102 | Returns the first rows at the present offset, keeps the rest, and moves the offset by as many |
| `RowSetObjects.RowBasedSet.Fill` | thriftserver/src/main/java/org/apache/hive/service/cli/RowBasedSet.java:124-150 | The array the iterator hands out again and again holds exactly the row asked for |
| `Rpc.TransportResponseHandler.AddRpcRequest` | network/src/main/java/moonbox/network/client/TransportResponseHandler.java:32-35 | Puts the callback under its id |
| `Rpc.TransportResponseHandler.RemoveRpcRequest` | network/src/main/java/moonbox/network/client/TransportResponseHandler.java:37-39 | Removes the callback of an id |
| `Rpc.TransportResponseHandler.Handle` | network/src/main/java/moonbox/network/client/TransportResponseHandler.java:52-86 | A reply to an outstanding request removes its callback and invokes it once; any other is ignored |
| `Rpc.TransportResponseHandler.ChannelInactive` | network/src/main/java/moonbox/network/client/TransportResponseHandler.java:42-49 | Fails every outstanding request |
| `Rpc.TransportResponseHandler.ExceptionCaught` | network/src/main/java/moonbox/network/client/TransportResponseHandler.java:93-100 | Fails every outstanding request |
| `Rpc.TransportResponseHandler.FailOutstandingRequests` | network/src/main/java/moonbox/network/client/TransportResponseHandler.java:102-111 | Invokes the failure of every outstanding callback exactly once, in some order, and leaves none |
| `Rpc.TransportClient.Send` | network/src/main/java/moonbox/network/client/TransportClient.java:40-57 | The callback is outstanding under the id that is returned |
| `Rpc.TransportClient.WriteCompleted` | network/src/main/java/moonbox/network/client/TransportClient.java:44-55 | A failed write removes the callback, invokes its failure even if it was invoked before, and closes the channel; a successful one changes nothing |
| `Rpc.TransportRequestHandler.Handle` | network/src/main/java/moonbox/network/server/TransportRequestHandler.java:34-57 | Every reply written, and the failure for an exception, carries the id of the request |
| `Rpc.StepKeepsInv` | network/src/main/java/moonbox/network/client/TransportResponseHandler.java:32-111 | Every step of the protocol keeps the invariant that ties table, callbacks, writes and replies together, if ids are fresh |
| `Rpc.OutstandingOrCompleted` | network/src/main/java/moonbox/network/client/TransportResponseHandler.java:32-111 | In every state of every run each request is outstanding or completed and not both, its callback was invoked at most once, or twice if and only if its write failed when it was no longer outstanding, and a success carries a body the server replied for that request |
| `Rpc.WriteErrorFiresAgain` | network/src/main/java/moonbox/network/client/TransportClient.java:44-55 | A write error invokes the callback for the second time if and only if the request was no longer outstanding |
| `Rpc.FiredTwiceAfterLateFailure` | network/src/main/java/moonbox/network/client/TransportClient.java:44-55 | Over whole runs: more than one invocation if and only if there was such a write error, and then two |
| `Rpc.LateFailureHappens` | network/src/main/java/moonbox/network/client/TransportClient.java:44-55 | There is such a run: the channel fails after a request is sent, then its write fails |
| `Rpc.FutureIsFinal` | network/src/main/java/moonbox/network/client/TransportClient.java:59-81 | The first outcome of a future is its outcome in every later state |
| `Rpc.NothingOutstandingAfterLoss` | network/src/main/java/moonbox/network/client/TransportResponseHandler.java:42-49 | After the loss or failure of the channel every request has an outcome |
| `Rpc.SendLosesNoRequest` | network/src/main/java/moonbox/network/client/TransportResponseHandler.java:32-35 | Sending loses no earlier request if and only if the new id is not outstanding |
| `Rpc.RunStaysTruthful` | network/src/main/java/moonbox/network/client/TransportResponseHandler.java:52-86 | However ids are used again: callbacks are given only bodies the server replied for their requests, at all times, if and only if no reply is ever taken for another request to which the server has not replied the same body |
| `Rpc.DuplicateCompletesAnother` | network/src/main/java/moonbox/network/client/TransportResponseHandler.java:52-86 | That happens although no id is used while outstanding: a late duplicate of the first reply completes the second request under the same id |
| `Services.StartedMeansAll` | thriftserver/src/main/java/org/apache/hive/service/CompositeService.java:85-103 | A normal return of start means the whole tree is started |
| `Services.StopUndoesStart` | thriftserver/src/main/java/org/apache/hive/service/CompositeService.java:106-127 | A stop after a start, complete or not, leaves nothing started |
| `Services.FailedChildIsRolledBack` | thriftserver/src/main/java/org/apache/hive/service/CompositeService.java:85-127 | If child f fails to start, children 0 to f were started in order, then f down to 0 stopped once each whatever they throw; the others and the state of the composite are untouched |
| `Services.FailureAfterChildrenIsNotRolledBack` | thriftserver/src/main/java/org/apache/hive/service/CompositeService.java:85-103 | If the children start and the composite is in the wrong state, start throws and every child stays started |
| `Services.StartIsAllOrNothing` | thriftserver/src/main/java/org/apache/hive/service/CompositeService.java:85-127 | Start leaves all started or nothing started if and only if the composite is in state INITED, has no children, or some child fails |
| `Services.StoppedCompositeHidesStarted` | thriftserver/src/main/java/org/apache/hive/service/CompositeService.java:106-115 | A composite marked stopped does not stop what is below it: without coherence, any service that starts below it stays started after a rollback |
| `Services.RunsAreCoherent` | thriftserver/src/main/java/org/apache/hive/service/CompositeService.java:77-127 | Whatever is called on whichever services of a new tree in any order, a composite once started has nothing below it that was never started |
| `ServiceObjects.ServiceNode.Change` | thriftserver/src/main/java/org/apache/hive/service/AbstractService.java:105-146 | A change from the expected state, or an exception and no change |
| `ServiceObjects.ServiceNode.Init` | thriftserver/src/main/java/org/apache/hive/service/CompositeService.java:77-82 | The objects go through the functional `Init` |
| `ServiceObjects.ServiceNode.Start` | thriftserver/src/main/java/org/apache/hive/service/CompositeService.java:85-103 | The objects go through the functional `Start`, with the same calls in the same order |
| `ServiceObjects.ServiceNode.Stop` | thriftserver/src/main/java/org/apache/hive/service/CompositeService.java:106-115 | The objects go through the functional `Stop` |
| `ServiceObjects.ServiceNode.StopFrom` | thriftserver/src/main/java/org/apache/hive/service/CompositeService.java:117-127 | The loop stops the services from the given one down to the first, once each, and swallows what they throw |
| `Paging.MoveTakesFirst` | external/calcite-elasticsearch5-adapter/src/main/java/edp/elasticsearch/ElasticsearchEnumerator.java:76-113 | A call makes the first of the remaining rows current and leaves the others, and returns false exactly when none remains |
| `Paging.EmitsUpToLimit` | external/calcite-elasticsearch5-adapter/src/main/java/edp/elasticsearch/ElasticsearchEnumerator.java:76-113 | Up to its first false, the scroll emits the rows of the pages before the first empty one, cut at the limit |
| `Paging.PageSizesDoNotShow` | external/calcite-elasticsearch5-adapter/src/main/java/edp/elasticsearch/ElasticsearchEnumerator.java:76-113 | The same rows cut into other non-empty pages are emitted the same |
| `Paging.FalseIsFinal` | external/calcite-elasticsearch5-adapter/src/main/java/edp/elasticsearch/ElasticsearchEnumerator.java:76-113 | A false is followed by another false if and only if the limit was reached or the page after the empty one is empty as well |
| `Paging.ScrollEnumerator.constructor` | external/calcite-elasticsearch5-adapter/src/main/java/edp/elasticsearch/ElasticsearchEnumerator.java:51-58 | The first page, no row passed and none current |
| `Paging.ScrollEnumerator.MoveNext` | external/calcite-elasticsearch5-adapter/src/main/java/edp/elasticsearch/ElasticsearchEnumerator.java:76-113 | The object goes through the functional step, and takes the first of the remaining rows |
| `Paging.NextTakesFirst` | jdbc/src/main/java/moonbox/jdbc/MoonboxResult.java:43-62 | One call takes the first unread row however many empty pages lie before it; with none left it reports the end, or throws if the stream broke off |
| `Paging.ReadsEveryPage` | jdbc/src/main/java/moonbox/jdbc/MoonboxResult.java:43-62 | The result shows all pages up to the first with no more data and then false, or throws if and only if there is no such page |
| `Paging.DoneIsFinal` | jdbc/src/main/java/moonbox/jdbc/MoonboxResult.java:43-54 | A reported end stays |
| `Paging.MoonboxResult.constructor` | jdbc/src/main/java/moonbox/jdbc/MoonboxResult.java:27-41 | The result stands before the first row of the first page |
| `Paging.MoonboxResult.Next` | jdbc/src/main/java/moonbox/jdbc/MoonboxResult.java:43-54 | The recursion terminates on any finite stream and goes through the functional step; the current row is the row taken, or the one before |
| `Paging.MoonboxResult.FetchMoreData` | jdbc/src/main/java/moonbox/jdbc/MoonboxResult.java:56-62 | Replaces the page by the next one, or throws and changes nothing |
| `SqlSplitter.SplitSQLs` | jdbc/src/main/java/moonbox/jdbc/util/Utils.java:59-77 | Throws exactly on an unmatched closing parenthesis; otherwise the cuts are all semicolons outside parentheses but one at the very end |
| `SqlSplitter.Split` | jdbc/src/main/java/moonbox/jdbc/util/Utils.java:79-97 | The pieces are the stretches between the cuts, and the last unless it is blank or one character |
| `SqlSplitter.PiecesAreBalanced` | jdbc/src/main/java/moonbox/jdbc/util/Utils.java:59-97 | Every piece that ends at a cut is balanced and holds no semicolon outside its parentheses |
| `SqlSplitter.JoinRestores` | jdbc/src/main/java/moonbox/jdbc/util/Utils.java:59-97 | Joining the pieces gives the text back if and only if no last piece was dropped; otherwise all that is missing is a semicolon and that piece |
| `Codec.FromDigitsRoundTrip` | network/src/main/java/moonbox/network/protocol/RpcRequest.java:26-33 | Any bytes are the digits of the number they read as |
| `Codec.SignedRoundTrip` | network/src/main/java/moonbox/network/protocol/RpcRequest.java:26-33 | A signed number in two's complement reads back |
| `Codec.FrameRoundTrip` | network/src/main/java/moonbox/network/protocol/MessageDecoder.java:17-35 | Decoding an encoded message gives it back, type, id, body and error text, if and only if the character set gives the error text back |
| `Codec.FramesAreDistinct` | network/src/main/java/moonbox/network/protocol/MessageEncoder.java:18-33 | No two messages share a frame |
| `Codec.DecodedRoundTrip` | network/src/main/java/moonbox/network/protocol/MessageDecoder.java:17-35 | Encoding a decoded frame gives the frame back; for a failure if and only if nothing follows its text and the text survives the character set |
| `Codec.Header` | network/src/main/java/moonbox/network/protocol/RpcFailure.java:20-29 | The header has exactly the declared length |
| `Codec.EncodeString` | network/src/main/java/moonbox/network/protocol/Encoders.java:13-17 | Appends the length in four bytes and the text |
| `Codec.DecodeString` | network/src/main/java/moonbox/network/protocol/Encoders.java:19-24 | Reads a text back, or throws on a missing prefix, a negative length or missing bytes |
| `Codec.EncodeFields` | network/src/main/java/moonbox/network/protocol/RpcFailure.java:20-29 | Appends exactly as many bytes as the message declares |
| `Codec.Encode` | network/src/main/java/moonbox/network/protocol/MessageEncoder.java:18-33 | Adds one frame, header then body; a length beyond 32 bits throws |
| `Codec.Decode` | network/src/main/java/moonbox/network/protocol/MessageDecoder.java:17-35 | Adds the one message that the frame stands for, of the type its first byte names, or throws with nothing added |
| `ByteUnits.ConversionIsExact` | network/src/main/java/moonbox/network/util/ByteUnit.java:38-51 | Conversion throws if and only if the true value exceeds 2^63 - 1, and gives the true value rounded towards zero if and only if it is neither above that nor below -2^63 |
| `ByteUnits.GuardIsExact` | network/src/main/java/moonbox/network/util/ByteUnit.java:40-44 | The guard by a rounded division holds exactly when the product overflows upwards |
| `ByteUnits.FinerAndBack` | network/src/main/java/moonbox/network/util/ByteUnit.java:33-51 | To a finer unit and back is the identity if and only if the product did not wrap around below |
| `ByteUnits.CoarserTwice` | network/src/main/java/moonbox/network/util/ByteUnit.java:46-50 | Two conversions to coarser units are one |
| `ByteUnits.ThroughFiner` | network/src/main/java/moonbox/network/util/ByteUnit.java:38-51 | Unless the first step wraps around, going through a finer unit gives what the direct conversion gives if and only if the first step is not refused or the direct one is refused too |
| `ByteUnits.ThroughWrapped` | network/src/main/java/moonbox/network/util/ByteUnit.java:38-51 | Where the first step wraps around and the second goes to no coarser unit, the two ways agree if and only if the second step is not refused |
| `ByteUnits.ThroughWrappedBack` | network/src/main/java/moonbox/network/util/ByteUnit.java:38-51 | Where the first step wraps around and the second goes back to a coarser unit, the two ways agree if and only if the direct conversion is to a finer unit too, and its result converts to the unit between without wrapping around or an exception |

## Left out

- BitMasks.ToBinary: the bit set is a finite set of naturals; the 32-bit bound on its indices is not modelled.
- FilterMeaning.FilterIsExact: asks that each field is simple. For fields with one kind of condition `FieldExactness` has the converse; for a field that combines `<>` or bounds with LIKE, or has several LIKE patterns, there is none.
- FilterMeaning.FilterKeepsRows: asks that no field without an equality mixes `<>` with bounds or has a LIKE pattern whose rewriting loses a text, that no field is a LIKE pattern, and that casts make no difference to the comparisons.
- LikePatterns.KeptIsDecided: asks for a character that the pattern does not hold; a pattern that holds every character is left out.
- GroupBy.GroupByPreserved: asks for a table that is not empty, one value of each group field in each document (where fields are missing, `EmptyListsOfAnswer` and `AnswerIsFlattened` have the exact condition for the flattening), distinct selected names and no more groups than the bucket cap; the empty table is `EmptyTableShowsBlankRow`.
- Columns.Column.ExtractSubset: that the extracted column and what stays behind are independent is claimed for fixed-width columns only. For string and binary columns the source makes both of them views of one list, and a later addition to what stays behind makes reading the extracted column throw; here their lists are values. The same goes for `ColumnBasedSet.ExtractSubset` and the methods below it, `ExtractColumns`, `ExtractAll`, `ExtractNext` and `ExtractColumn`, and for `AddValue` and `AddRow` after them.
- Codec.FramesAreDistinct: asks that the error texts survive the character set.
- ByteUnits.ThroughFiner: leaves out a first step that wraps around, for which `ThroughWrapped` and `ThroughWrappedBack` have the condition.
- The rendering of queries as JSON text, the removal of white space from it, and the strings with `;` that carry aggregates from `toElasticsearch` to `implement`: queries are values here.
- The Elasticsearch server: a specification of what terms, metric, range, term and wildcard queries answer; a clause with several keys means their conjunction, and a malformed clause selects nothing. Documents with several values for a group field, and answers cut at the bucket cap, are not modelled.
- Calcite: planning, rules, cost, and the flattening of conditions by `disjunctions` and `conjunctions`; nested OR and comparisons between two literals.
- Rounding of doubles: numbers in filters and metrics are reals.
- The getters and conversions of single fields in the enumerators, in `MoonboxResult` and in `ColumnBasedSet.toTRowSet`.
- The Elasticsearch 2 adapter, which repeats the filter and differs in how it clones rows.
- `HiveSQLException.newInstance`: an exception is its class name, message, trace and cause, and is not created by reflection. Digits outside ASCII in numbers.
- The typed arrays of `Column` are one array of a union type. Columns of the type of NULL, whose union value is null, are not modelled.
- Iterator objects of the row sets other than what they fill in, their row counters and `remove`; overflow of the 64-bit start offset.
- Listeners, start times, configuration and logging of services, and adding or removing a service after construction.
- Rpc.TransportResponseHandler.FailOutstandingRequests: leaves out a callback that sends a new request from within its failure, which the source would clear without an outcome; no callback of the repository sends one. For the same reason `NothingOutstandingAfterLoss` takes the failing of all requests as one step.
- Threads: RPC events are serialised as one event loop does, and the timeout of `sendSync` is not modelled. Netty, the release of buffers, UTF-8 itself (any pair of functions) and the generation of request ids (assumed fresh where a theorem says so).
- The response of a failed scroll, which is null in the source and throws on the next line.
- `ByteUnit.toBytes` and the wrappers of `convertTo` for each unit.
- JDBC stubs, the Spring wizard, authentication, the launcher and the vendored JavaScript: plumbing.
