/**
  Result sets kept by column and by row. The columnar set refines the row-based one as long as
  nothing is drained from it; for chunked draining there is an exact condition on the null masks.
 */
module RowSets {
  import opened Columns
  import opened Results

  /** A row handed in or out. */
  type Fields = seq<Cell>

  predicate AcceptsAll(types: seq<Type>, fields: Fields) {
    |fields| == |types| && forall i | 0 <= i < |types| :: Accepts(types[i], fields[i])
  }

  function ShownRow(types: seq<Type>, fields: Fields): Fields
    requires AcceptsAll(types, fields)
  {
    seq(|fields|, i requires 0 <= i < |fields| => Shown(types[i], fields[i]))
  }

  // ----- A set of columns as a value

  ghost predicate Rectangular(views: seq<View>) {
    forall c | 0 <= c < |views| :: |views[c].data| == NumRows(views)
  }

  function NumRows(views: seq<View>): nat {
    if views == [] then 0 else |views[0].data|
  }

  ghost function RowAt(views: seq<View>, i: nat): Fields
    requires Rectangular(views) && i < NumRows(views)
  {
    seq(|views|, c requires 0 <= c < |views| => CellAt(views[c], i))
  }

  ghost function RowsOf(views: seq<View>): seq<Fields>
    requires Rectangular(views)
  {
    seq(NumRows(views), i requires 0 <= i < NumRows(views) => RowAt(views, i))
  }

  ghost function AddedRow(views: seq<View>, types: seq<Type>, fields: Fields): seq<View>
    requires AcceptsAll(types, fields) && |views| == |types|
  {
    seq(|views|, c requires 0 <= c < |views| => Added(views[c], types[c], fields[c]))
  }

  /** A column after an addition that may have thrown: the mask is changed first. */
  function AddedOrMarked(thrown: bool, v: View, t: Type, field: Cell): View
    requires Accepts(t, field)
  {
    if thrown then v.(nulls := Added(v, t, field).nulls) else Added(v, t, field)
  }

  /** The loop over the columns, after `n` of them. */
  ghost function AddedUpTo(views: seq<View>, types: seq<Type>, fields: Fields, n: nat): seq<View>
    requires AcceptsAll(types, fields) && |views| == |types|
  {
    seq(|views|, c requires 0 <= c < |views| => if c < n then Added(views[c], types[c], fields[c]) else views[c])
  }

  ghost function RemainingUpTo(views: seq<View>, n: nat, k: nat): seq<View>
    requires Rectangular(views) && n <= NumRows(views)
  {
    seq(|views|, c requires 0 <= c < |views| => if c < k then Remaining(views[c], 0, n) else views[c])
  }

  ghost function ExtractedRows(views: seq<View>, n: nat): seq<View>
    requires Rectangular(views) && n <= NumRows(views)
  {
    seq(|views|, c requires 0 <= c < |views| => Extracted(views[c], 0, n))
  }

  ghost function RemainingRows(views: seq<View>, n: nat): seq<View>
    requires Rectangular(views) && n <= NumRows(views)
  {
    seq(|views|, c requires 0 <= c < |views| => Remaining(views[c], 0, n))
  }

  ghost function ExtractedUpTo(views: seq<View>, n: nat, k: nat): seq<View>
    requires Rectangular(views) && n <= NumRows(views) && k <= |views|
  {
    seq(k, c requires 0 <= c < k => Extracted(views[c], 0, n))
  }

  lemma ExtractionStep(views: seq<View>, n: nat, i: nat)
    requires Rectangular(views) && n <= NumRows(views) && i < |views|
    ensures RemainingUpTo(views, n, i)[i] == views[i]
    ensures RemainingUpTo(views, n, i + 1) == RemainingUpTo(views, n, i)[i := Remaining(views[i], 0, n)]
    ensures ExtractedUpTo(views, n, i + 1) == ExtractedUpTo(views, n, i) + [Extracted(views[i], 0, n)]
  {
  }

  lemma ExtractionIsRectangular(views: seq<View>, n: nat)
    requires Rectangular(views) && n <= NumRows(views)
    ensures Rectangular(ExtractedRows(views, n)) && Rectangular(RemainingRows(views, n))
  {
  }

  lemma ExtractionEnd(views: seq<View>, n: nat)
    requires Rectangular(views) && n <= NumRows(views)
    ensures RemainingUpTo(views, n, 0) == views
    ensures RemainingUpTo(views, n, |views|) == RemainingRows(views, n)
    ensures ExtractedUpTo(views, n, |views|) == ExtractedRows(views, n)
  {
  }

  /** Adding a row to every column adds that row, each field read back as the row-based set reads it back. */
  lemma AddedRowShows(views: seq<View>, types: seq<Type>, fields: Fields)
    requires views != [] && Rectangular(views) && AcceptsAll(types, fields) && |views| == |types|
    ensures Rectangular(AddedRow(views, types, fields))
    ensures RowsOf(AddedRow(views, types, fields)) == RowsOf(views) + [ShownRow(types, fields)]
  {
    var after, n := AddedRow(views, types, fields), NumRows(views);
    forall c | 0 <= c < |views|
      ensures |after[c].data| == n + 1
      ensures CellAt(after[c], n) == Shown(types[c], fields[c])
      ensures forall i | 0 <= i < n :: CellAt(after[c], i) == CellAt(views[c], i)
    {
      AddedCells(views[c], types[c], fields[c]);
      assert Cells(after[c])[n] == Shown(types[c], fields[c]);
      forall i | 0 <= i < n ensures CellAt(after[c], i) == CellAt(views[c], i) {
        assert Cells(after[c])[i] == Cells(views[c])[i];
      }
    }
    assert NumRows(after) == n + 1;
    forall i | 0 <= i < n ensures RowAt(after, i) == RowAt(views, i) {
    }
    assert RowAt(after, n) == ShownRow(types, fields);
  }

  /** Extraction hands out the first rows, whatever the mask. */
  lemma ExtractedRowsShow(views: seq<View>, n: nat)
    requires Rectangular(views) && n <= NumRows(views)
    ensures Rectangular(ExtractedRows(views, n)) && RowsOf(ExtractedRows(views, n)) == RowsOf(views)[..n]
  {
    var chunk := ExtractedRows(views, n);
    forall c, i | 0 <= c < |views| && 0 <= i < n ensures CellAt(chunk[c], i) == CellAt(views[c], i) {
      ExtractedCells(views[c], 0, n);
      assert Cells(chunk[c])[i] == Cells(views[c])[i];
    }
    assert NumRows(chunk) == n;
    forall i | 0 <= i < n ensures RowAt(chunk, i) == RowAt(views, i) {
    }
  }

  ghost predicate NoNulls(views: seq<View>) {
    forall c | 0 <= c < |views| :: views[c].nulls == {}
  }

  /** The mask of every column repeats itself after `n` rows. */
  ghost predicate Repeats(views: seq<View>, n: nat)
    requires Rectangular(views) && n <= NumRows(views)
  {
    forall c, k: nat | 0 <= c < |views| && k < NumRows(views) - n ::
      BitAt(views[c].nulls, 0, k) <==> BitAt(views[c].nulls, n, k)
  }

  /** What stays behind are the other rows if and only if every column's mask repeats itself. */
  lemma RemainingRowsShow(views: seq<View>, n: nat)
    requires Rectangular(views) && n <= NumRows(views)
    ensures Rectangular(RemainingRows(views, n)) && NumRows(RemainingRows(views, n)) == NumRows(views) - n
    ensures RowsOf(RemainingRows(views, n)) == RowsOf(views)[n..] <==> Repeats(views, n)
  {
    var rest, m := RemainingRows(views, n), NumRows(views) - n;
    forall c, k: nat | 0 <= c < |views| && k < m
      ensures CellAt(rest[c], k) == CellAt(views[c], n + k)
              <==> (BitAt(views[c].nulls, 0, k) <==> BitAt(views[c].nulls, n, k))
    {
      assert k in SubBits(views[c].nulls, 0, |views[c].data|) <==> BitAt(views[c].nulls, 0, k);
    }
    if Repeats(views, n) {
      forall k: nat | k < m ensures RowAt(rest, k) == RowAt(views, n + k) {
      }
      assert RowsOf(rest) == RowsOf(views)[n..];
    }
    if RowsOf(rest) == RowsOf(views)[n..] {
      forall c, k: nat | 0 <= c < |views| && k < m
        ensures BitAt(views[c].nulls, 0, k) <==> BitAt(views[c].nulls, n, k)
      {
        assert RowsOf(rest)[k] == RowsOf(views)[n..][k];
        assert RowAt(rest, k)[c] == RowAt(views, n + k)[c];
      }
    }
  }

  // ----- Draining in chunks

  datatype Chunk = Chunk(startOffset: int, rows: seq<Fields>)

  function Min(a: nat, b: nat): nat {
    if a < b then a else b
  }

  /** What is left in a columnar set after `k` extractions, and its start offset. */
  ghost function ColumnsAfter(views: seq<View>, offset: int, sizes: seq<nat>, k: nat): (s: (seq<View>, int))
    requires Rectangular(views) && k <= |sizes|
    ensures Rectangular(s.0)
    decreases k
  {
    if k == 0 then (views, offset)
    else
      var (left, start) := ColumnsAfter(views, offset, sizes, k - 1);
      var n := Min(NumRows(left), sizes[k - 1]);
      ExtractionIsRectangular(left, n);
      (RemainingRows(left, n), start + n)
  }

  ghost function ColumnChunk(views: seq<View>, offset: int, sizes: seq<nat>, k: nat): Chunk
    requires Rectangular(views) && k < |sizes|
  {
    var (left, start) := ColumnsAfter(views, offset, sizes, k);
    var n := Min(NumRows(left), sizes[k]);
    ExtractionIsRectangular(left, n);
    Chunk(start, RowsOf(ExtractedRows(left, n)))
  }

  /** The chunks handed out one after the other, with their start offsets. */
  ghost function DrainColumns(views: seq<View>, offset: int, sizes: seq<nat>): seq<Chunk>
    requires Rectangular(views)
  {
    seq(|sizes|, k requires 0 <= k < |sizes| => ColumnChunk(views, offset, sizes, k))
  }

  function RowsAfter(rows: seq<Fields>, offset: int, sizes: seq<nat>, k: nat): (seq<Fields>, int)
    requires k <= |sizes|
    decreases k
  {
    if k == 0 then (rows, offset)
    else
      var (left, start) := RowsAfter(rows, offset, sizes, k - 1);
      var n := Min(|left|, sizes[k - 1]);
      (left[n..], start + n)
  }

  function RowChunk(rows: seq<Fields>, offset: int, sizes: seq<nat>, k: nat): Chunk
    requires k < |sizes|
  {
    var (left, start) := RowsAfter(rows, offset, sizes, k);
    Chunk(start, left[..Min(|left|, sizes[k])])
  }

  function DrainRows(rows: seq<Fields>, offset: int, sizes: seq<nat>): seq<Chunk> {
    seq(|sizes|, k requires 0 <= k < |sizes| => RowChunk(rows, offset, sizes, k))
  }

  function Total(sizes: seq<nat>, k: nat): nat
    requires k <= |sizes|
  {
    if k == 0 then 0 else Total(sizes, k - 1) + sizes[k - 1]
  }

  /** How many of `rows` rows the first `k` chunks hold. */
  function Taken(rows: nat, sizes: seq<nat>, k: nat): (n: nat)
    requires k <= |sizes|
    ensures n <= rows
  {
    Min(rows, Total(sizes, k))
  }

  /** The rows due in the k-th chunk. */
  function Due(rows: seq<Fields>, sizes: seq<nat>, k: nat): seq<Fields>
    requires k < |sizes|
  {
    assert Total(sizes, k + 1) == Total(sizes, k) + sizes[k];
    rows[Taken(|rows|, sizes, k)..Taken(|rows|, sizes, k + 1)]
  }

  lemma {:induction false} RowsLeft(rows: seq<Fields>, offset: int, sizes: seq<nat>, k: nat)
    requires k <= |sizes|
    ensures var taken := Taken(|rows|, sizes, k);
            RowsAfter(rows, offset, sizes, k) == (rows[taken..], offset + taken)
  {
    if k > 0 {
      RowsLeft(rows, offset, sizes, k - 1);
    }
  }

  /** The columns after some draining hold the data from there on, under the mask of the first rows. */
  ghost predicate LeftOf(left: seq<View>, whole: seq<View>, at: nat) {
    && |left| == |whole| && Rectangular(whole) && at <= NumRows(whole) && NumRows(left) == NumRows(whole) - at
    && forall c | 0 <= c < |whole| ::
         && |left[c].data| == NumRows(left) && left[c].data == whole[c].data[at..]
         && forall k: nat | k < NumRows(left) :: BitAt(left[c].nulls, 0, k) <==> BitAt(whole[c].nulls, 0, k)
  }

  lemma LeftAfterExtraction(left: seq<View>, whole: seq<View>, at: nat, n: nat)
    requires LeftOf(left, whole, at) && Rectangular(left) && n <= NumRows(left)
    ensures LeftOf(RemainingRows(left, n), whole, at + n)
  {
    forall c, k: nat | 0 <= c < |whole| && k < NumRows(whole) - at - n
      ensures BitAt(RemainingRows(left, n)[c].nulls, 0, k) <==> BitAt(whole[c].nulls, 0, k)
    {
      assert k in SubBits(left[c].nulls, 0, |left[c].data|) <==> BitAt(left[c].nulls, 0, k);
    }
    forall c | 0 <= c < |whole| ensures left[c].data[n..] == whole[c].data[at + n..] {
    }
  }

  lemma {:induction false} ColumnsLeft(views: seq<View>, offset: int, sizes: seq<nat>, k: nat)
    requires Rectangular(views) && k <= |sizes|
    ensures var (left, start) := ColumnsAfter(views, offset, sizes, k);
            var taken := Taken(NumRows(views), sizes, k);
            LeftOf(left, views, taken) && start == offset + taken
  {
    if k == 0 {
      forall c | 0 <= c < |views| ensures views[c].data == views[c].data[0..] {
      }
    } else {
      ColumnsLeft(views, offset, sizes, k - 1);
      var left, taken := ColumnsAfter(views, offset, sizes, k - 1).0, Taken(NumRows(views), sizes, k - 1);
      LeftAfterExtraction(left, views, taken, Min(NumRows(left), sizes[k - 1]));
    }
  }

  /** The chunk repeats the mask of the first rows. */
  ghost predicate ChunkRepeats(whole: seq<View>, at: nat, n: nat) {
    forall c, i: nat | 0 <= c < |whole| && i < n :: BitAt(whole[c].nulls, 0, i) <==> BitAt(whole[c].nulls, at, i)
  }

  /** A chunk holds the rows that are due if and only if it repeats the mask of the first rows. */
  lemma ChunkShows(left: seq<View>, whole: seq<View>, at: nat, n: nat)
    requires LeftOf(left, whole, at) && Rectangular(left) && n <= NumRows(left)
    ensures Rectangular(ExtractedRows(left, n))
    ensures RowsOf(ExtractedRows(left, n)) == RowsOf(whole)[at..at + n] <==> ChunkRepeats(whole, at, n)
  {
    ExtractedRowsShow(left, n);
    forall c, i: nat | 0 <= c < |whole| && i < n
      ensures CellAt(left[c], i) == CellAt(whole[c], at + i)
              <==> (BitAt(whole[c].nulls, 0, i) <==> BitAt(whole[c].nulls, at, i))
    {
      assert BitAt(left[c].nulls, 0, i) <==> BitAt(whole[c].nulls, 0, i);
      assert left[c].data[i] == whole[c].data[at + i];
    }
    SameRows(left, whole, at, n);
  }

  lemma SameRows(left: seq<View>, whole: seq<View>, at: nat, n: nat)
    requires Rectangular(left) && Rectangular(whole) && |left| == |whole|
    requires n <= NumRows(left) && at + n <= NumRows(whole)
    ensures RowsOf(left)[..n] == RowsOf(whole)[at..at + n] <==>
            forall c, i: nat | 0 <= c < |whole| && i < n :: CellAt(left[c], i) == CellAt(whole[c], at + i)
  {
    var a, b := RowsOf(left)[..n], RowsOf(whole)[at..at + n];
    if a == b {
      forall c, i: nat | 0 <= c < |whole| && i < n ensures CellAt(left[c], i) == CellAt(whole[c], at + i) {
        assert a[i] == b[i] && RowAt(left, i)[c] == RowAt(whole, at + i)[c];
      }
    }
    if forall c, i: nat | 0 <= c < |whole| && i < n :: CellAt(left[c], i) == CellAt(whole[c], at + i) {
      forall i: nat | i < n ensures a[i] == b[i] {
        assert RowAt(left, i) == RowAt(whole, at + i);
      }
    }
  }

  /** All chunks of a drain repeat the mask of the first rows. */
  ghost predicate ChunksRepeat(whole: seq<View>, sizes: seq<nat>) {
    forall k | 0 <= k < |sizes| :: RepeatsAt(whole, sizes, k)
  }

  ghost predicate RepeatsAt(whole: seq<View>, sizes: seq<nat>, k: nat)
    requires k < |sizes|
  {
    var at := Taken(NumRows(whole), sizes, k);
    ChunkRepeats(whole, at, Min(NumRows(whole) - at, sizes[k]))
  }

  lemma ColumnChunkShows(views: seq<View>, offset: int, sizes: seq<nat>, k: nat)
    requires Rectangular(views) && k < |sizes|
    ensures ColumnChunk(views, offset, sizes, k)
            == Chunk(offset + Taken(NumRows(views), sizes, k), Due(RowsOf(views), sizes, k))
            <==> RepeatsAt(views, sizes, k)
  {
    var left, at := ColumnsAfter(views, offset, sizes, k).0, Taken(NumRows(views), sizes, k);
    ColumnsLeft(views, offset, sizes, k);
    var n := Min(NumRows(left), sizes[k]);
    ChunkShows(left, views, at, n);
    assert Due(RowsOf(views), sizes, k) == RowsOf(views)[at..at + n];
  }

  lemma RowChunkShows(rows: seq<Fields>, offset: int, sizes: seq<nat>, k: nat)
    requires k < |sizes|
    ensures RowChunk(rows, offset, sizes, k) == Chunk(offset + Taken(|rows|, sizes, k), Due(rows, sizes, k))
  {
    RowsLeft(rows, offset, sizes, k);
  }

  /**
    Draining by column and by row in the same chunk sizes gives the same chunks and offsets if and
    only if every chunk repeats the mask of the first rows, as it does when no cell is null.
   */
  lemma DrainsAgree(views: seq<View>, offset: int, sizes: seq<nat>)
    requires Rectangular(views)
    ensures DrainColumns(views, offset, sizes) == DrainRows(RowsOf(views), offset, sizes)
            <==> ChunksRepeat(views, sizes)
    ensures NoNulls(views) ==> ChunksRepeat(views, sizes)
  {
    var ours, theirs := DrainColumns(views, offset, sizes), DrainRows(RowsOf(views), offset, sizes);
    forall k | 0 <= k < |sizes| ensures ours[k] == theirs[k] <==> RepeatsAt(views, sizes, k) {
      ColumnChunkShows(views, offset, sizes, k);
      RowChunkShows(RowsOf(views), offset, sizes, k);
    }
    if ours == theirs {
      forall k | 0 <= k < |sizes| ensures RepeatsAt(views, sizes, k) {
        assert ours[k] == theirs[k];
      }
    }
  }

  function Joined(chunks: seq<Chunk>): seq<Fields> {
    if chunks == [] then [] else Joined(chunks[..|chunks| - 1]) + chunks[|chunks| - 1].rows
  }

  /** Row-based chunks partition the rows in order: each starts at the offset where the ones before it end. */
  lemma DrainPartitions(rows: seq<Fields>, offset: int, sizes: seq<nat>)
    ensures var chunks := DrainRows(rows, offset, sizes);
            && |chunks| == |sizes| && Joined(chunks) == rows[..Min(|rows|, Total(sizes, |sizes|))]
            && forall k | 0 <= k < |sizes| :: chunks[k].startOffset == offset + Min(|rows|, Total(sizes, k))
  {
    var chunks := DrainRows(rows, offset, sizes);
    forall k | 0 <= k < |sizes| ensures chunks[k] == Chunk(offset + Taken(|rows|, sizes, k), Due(rows, sizes, k)) {
      RowChunkShows(rows, offset, sizes, k);
    }
    DueJoin(chunks, rows, sizes);
  }

  lemma {:induction false} DueJoin(chunks: seq<Chunk>, rows: seq<Fields>, sizes: seq<nat>)
    requires |chunks| <= |sizes| && forall k | 0 <= k < |chunks| :: chunks[k].rows == Due(rows, sizes, k)
    ensures Joined(chunks) == rows[..Taken(|rows|, sizes, |chunks|)]
  {
    if chunks != [] {
      var n := |chunks| - 1;
      DueJoin(chunks[..n], rows, sizes);
      DueExtends(rows, sizes, n);
      assert chunks[n].rows == Due(rows, sizes, n);
    }
  }

  lemma DueExtends(rows: seq<Fields>, sizes: seq<nat>, k: nat)
    requires k < |sizes|
    ensures rows[..Taken(|rows|, sizes, k)] + Due(rows, sizes, k) == rows[..Taken(|rows|, sizes, k + 1)]
  {
  }

  // ----- The row-based form of a cell

  /** The union value of the older protocol: its field, set or not. */
  datatype TColumnValue = BoolVal(v: Cell) | ByteVal(v: Cell) | I16Val(v: Cell) | I32Val(v: Cell) | I64Val(v: Cell)
                        | DoubleVal(v: Cell) | StringVal(v: Cell)

  /** The original casts to a string what should be one; bytes are not, and objects of a complex type are not. */
  predicate CastFails(t: Type, field: Cell) {
    field.Some? && (t == BINARY || (t == COMPLEX && field.value.VObject?))
  }

  /** None where the original throws. */
  function ToTColumnValue(t: Type, field: Cell): Option<TColumnValue>
    requires Accepts(t, field)
  {
    match t
    case BOOLEAN => Some(BoolVal(field))
    case TINYINT => Some(ByteVal(field))
    case SMALLINT => Some(I16Val(field))
    case INT => Some(I32Val(field))
    case BIGINT => Some(I64Val(field))
    case FLOAT => Some(DoubleVal(if field.Some? then Some(VDouble(field.value.r)) else None))
    case DOUBLE => Some(DoubleVal(field))
    case STRING => Some(StringVal(field))
    case BINARY => CastToString(field)
    case RENDERED => Some(StringVal(if field.Some? then Some(VString(field.value.image)) else None))
    case COMPLEX => CastToString(field)
  }

  function CastToString(field: Cell): Option<TColumnValue> {
    if field.None? || field.value.VString? then Some(StringVal(field)) else None
  }

  function ToColumnValue(value: TColumnValue): Cell {
    match value
    case BoolVal(v) => v
    case ByteVal(v) => v
    case I16Val(v) => v
    case I32Val(v) => v
    case I64Val(v) => v
    case DoubleVal(v) => v
    case StringVal(v) => v
  }

  /** Every field whose cast does not fail goes through the union value as it goes through a column. */
  lemma UnionShowsField(t: Type, field: Cell)
    requires Accepts(t, field)
    ensures ToTColumnValue(t, field).None? <==> CastFails(t, field)
    ensures ToTColumnValue(t, field).Some? ==> ToColumnValue(ToTColumnValue(t, field).value) == Shown(t, field)
  {
  }

  /** A row the row-based set can hold. */
  predicate CastsSucceed(types: seq<Type>, fields: Fields)
    requires |types| == |fields|
  {
    forall i | 0 <= i < |types| :: !CastFails(types[i], fields[i])
  }
}
