/** The two result sets as objects, proved to compute the functions of `RowSets`. */
module RowSetObjects {
  import opened Columns
  import opened Results
  import opened RowSets

  ghost function ArraysOf(columns: seq<Column>): set<object>
    reads columns
  {
    set i | 0 <= i < |columns| :: columns[i].vars
  }

  /** A valid column of its kind that shares neither itself nor its array with one before it. */
  ghost predicate Fits(columns: seq<Column>, kinds: seq<Type>, i: nat)
    requires |columns| == |kinds| && i < |columns|
    reads columns, ArraysOf(columns)
  {
    && columns[i].Valid() && columns[i].kind == kinds[i]
    && forall k | 0 <= k < i :: columns[k] != columns[i] && columns[k].vars != columns[i].vars
  }

  ghost function Misfits(columns: seq<Column>, kinds: seq<Type>): set<nat>
    requires |columns| == |kinds|
    reads columns, ArraysOf(columns)
  {
    set i: nat | i < |columns| && !Fits(columns, kinds, i)
  }

  /** Columns of these kinds; neither they nor their arrays are shared. */
  ghost predicate SeparateColumns(columns: seq<Column>, kinds: seq<Type>)
    reads columns, ArraysOf(columns)
  {
    |columns| == |kinds| && Misfits(columns, kinds) == {}
  }

  lemma AllFit(columns: seq<Column>, kinds: seq<Type>)
    requires |columns| == |kinds|
    ensures SeparateColumns(columns, kinds) <==> forall i: nat | i < |columns| :: Fits(columns, kinds, i)
  {
    if i: nat :| i < |columns| && !Fits(columns, kinds, i) {
      assert i in Misfits(columns, kinds);
    }
  }

  lemma OneFits(columns: seq<Column>, kinds: seq<Type>, i: nat)
    requires SeparateColumns(columns, kinds) && i < |columns|
    ensures columns[i].Valid() && columns[i].kind == kinds[i]
    ensures forall k | 0 <= k < |columns| && k != i :: columns[k] != columns[i] && columns[k].vars != columns[i].vars
  {
    AllFit(columns, kinds);
    assert Fits(columns, kinds, i);
    forall k: nat | k < |columns| && k != i ensures columns[k] != columns[i] && columns[k].vars != columns[i].vars {
      assert Fits(columns, kinds, k) && Fits(columns, kinds, i);
    }
  }

  ghost function ModelsOf(columns: seq<Column>): seq<View>
    reads columns
  {
    seq(|columns|, i requires 0 <= i < |columns| reads columns => columns[i].model)
  }

  lemma SnocColumn(columns: seq<Column>, kinds: seq<Type>, column: Column)
    requires SeparateColumns(columns, kinds) && column.Valid()
    requires forall k | 0 <= k < |columns| :: columns[k] != column && columns[k].vars != column.vars
    ensures SeparateColumns(columns + [column], kinds + [column.kind])
    ensures ModelsOf(columns + [column]) == ModelsOf(columns) + [column.model]
  {
    var all, allKinds := columns + [column], kinds + [column.kind];
    AllFit(columns, kinds);
    AllFit(all, allKinds);
    forall i: nat | i < |all| ensures Fits(all, allKinds, i) {
      if i < |columns| {
        assert Fits(columns, kinds, i);
      }
    }
  }

  /** Columns stay separate when one of them changes, together with an array of its own or a new one. */
  twostate lemma OneChanged(columns: seq<Column>, new kinds: seq<Type>, new i: nat)
    requires i < |columns| && old(SeparateColumns(columns, kinds))
    requires columns[i].Valid() && (columns[i].vars == old(columns[i].vars) || fresh(columns[i].vars))
    requires forall k | 0 <= k < |columns| && k != i :: unchanged(columns[k]) && unchanged(columns[k].vars)
    ensures SeparateColumns(columns, kinds) && ModelsOf(columns) == old(ModelsOf(columns))[i := columns[i].model]
  {
    AllFit(columns, kinds);
    forall k: nat | k < |columns| ensures old(Fits(columns, kinds, k)) {
      assert k !in old(Misfits(columns, kinds));
    }
    forall k: nat | k < |columns| ensures Fits(columns, kinds, k) {
      assert old(Fits(columns, kinds, k) && Fits(columns, kinds, i));
    }
  }

  /** Columns that have not changed are still separate. */
  twostate lemma StillSeparate(columns: seq<Column>, new kinds: seq<Type>)
    requires old(SeparateColumns(columns, kinds))
    requires forall k | 0 <= k < |columns| :: unchanged(columns[k]) && unchanged(columns[k].vars)
    ensures SeparateColumns(columns, kinds) && ModelsOf(columns) == old(ModelsOf(columns))
  {
    AllFit(columns, kinds);
    forall k: nat | k < |columns| ensures Fits(columns, kinds, k) {
      assert k !in old(Misfits(columns, kinds));
      assert old(Fits(columns, kinds, k));
    }
  }

  function KindsOf(types: seq<Type>): seq<Type> {
    seq(|types|, i requires 0 <= i < |types| => KindOf(types[i]))
  }

  class ColumnBasedSet {
    const types: seq<Type>
    const columns: seq<Column>
    var startOffset: int
    ghost const kinds: seq<Type>   // how the columns are kept
    ghost var views: seq<View>     // the columns as values

    ghost predicate Separate()
      reads `views, columns, ArraysOf(columns)
    {
      SeparateColumns(columns, kinds) && ModelsOf(columns) == views
    }

    ghost predicate Valid()
      reads `views, columns, ArraysOf(columns)
    {
      Separate() && Rectangular(views) && kinds == KindsOf(types)
    }

    constructor (types: seq<Type>)
      ensures Valid() && fresh(columns) && fresh(ArraysOf(columns)) && this.types == types && startOffset == 0
      ensures views == seq(|types|, i requires 0 <= i < |types| => View(KindOf(types[i]), [], {}))
    {
      ghost var kinds' := KindsOf(types);
      ghost var empty := seq(|types|, i requires 0 <= i < |types| => View(KindOf(types[i]), [], {}));
      var list: seq<Column> := [];
      AllFit(list, kinds'[..0]);
      for i := 0 to |types|
        invariant |list| == i && SeparateColumns(list, kinds'[..i]) && ModelsOf(list) == empty[..i]
        invariant forall k | 0 <= k < i :: fresh(list[k]) && fresh(list[k].vars)
      {
        var column := new Column(types[i]);
        SnocColumn(list, kinds'[..i], column);
        assert kinds'[..i + 1] == kinds'[..i] + [column.kind] && empty[..i + 1] == empty[..i] + [column.model];
        list := list + [column];
      }
      assert kinds'[..|types|] == kinds' && empty[..|types|] == empty;
      this.types, columns, startOffset, kinds, views := types, list, 0, kinds', empty;
    }

    constructor FromColumns(types: seq<Type>, columns: seq<Column>, startOffset: int,
                            ghost kinds: seq<Type>, ghost views: seq<View>)
      requires SeparateColumns(columns, kinds) && kinds == KindsOf(types)
      requires ModelsOf(columns) == views && Rectangular(views)
      ensures Valid() && this.types == types && this.columns == columns && this.startOffset == startOffset
      ensures this.views == views
    {
      this.types, this.columns, this.startOffset, this.kinds, this.views := types, columns, startOffset, kinds, views;
    }

    /** The columns before the i-th took their fields of the row, and the i-th only its mask bit. */
    ghost predicate FailedAt(before: seq<View>, after: seq<View>, fields: Fields, i: nat) {
      && AcceptsAll(types, fields) && |before| == |types| && i < |types|
      && after == AddedUpTo(before, types, fields, i)[i := AddedOrMarked(true, before[i], types[i], fields[i])]
    }

    /** Returns true where the original throws: some column can neither hold the field nor grow. */
    method AddRow(fields: Fields) returns (thrown: bool)
      requires Valid() && AcceptsAll(types, fields)
      modifies this`views, columns, ArraysOf(columns)
      ensures Separate()
      ensures thrown <==> exists i | 0 <= i < |columns| :: old(columns[i].Stuck())
      ensures thrown ==> exists i | 0 <= i < |columns| :: FailedAt(old(views), views, fields, i)
      ensures !thrown && columns != [] ==> Valid() && RowsOf(views) == old(RowsOf(views)) + [ShownRow(types, fields)]
    {
      for i := 0 to |fields|
        invariant Separate()
        invariant views == AddedUpTo(old(views), types, fields, i)
        invariant forall k | i <= k < |columns| ::
                    columns[k].vars == old(columns[k].vars) && columns[k].Stuck() == old(columns[k].Stuck())
        invariant forall k | 0 <= k < i :: !old(columns[k].Stuck())
      {
        thrown := AddField(i, fields[i]);
        if thrown {
          assert FailedAt(old(views), views, fields, i);
          return;
        }
      }
      assert views == AddedRow(old(views), types, fields);
      if columns != [] {
        AddedRowShows(old(views), types, fields);
      }
      return false;
    }

    /** One column of the loop; the others stay as they are. */
    method AddField(i: nat, field: Cell) returns (thrown: bool)
      requires Separate() && kinds == KindsOf(types)
      requires i < |columns| && Accepts(types[i], field)
      modifies this`views, columns[i], columns[i].vars
      ensures Separate() && thrown == old(columns[i].Stuck())
      ensures views == old(views)[i := AddedOrMarked(thrown, old(views)[i], types[i], field)]
      ensures forall k | 0 <= k < |columns| && k != i ::
                columns[k].vars == old(columns[k].vars) && columns[k].Stuck() == old(columns[k].Stuck())
    {
      OneFits(columns, kinds, i);
      assert columns[i].model == views[i];
      thrown := columns[i].AddValue(types[i], field);
      OneChanged(columns, kinds, i);
      views := views[i := columns[i].model];
    }

    method ExtractSubset(maxRows: nat) returns (result: ColumnBasedSet)
      requires Valid()
      modifies this`startOffset, this`views, columns
      ensures Valid() && result.Valid() && fresh(result)
      ensures var n := Min(NumRows(old(views)), maxRows);
              && result.views == ExtractedRows(old(views), n) && views == RemainingRows(old(views), n)
              && result.startOffset == old(startOffset) && startOffset == old(startOffset) + n
    {
      if columns != [] {
        OneFits(columns, kinds, 0);
        assert columns[0].model == views[0];
      }
      var numRows := Min(if columns == [] then 0 else columns[0].size, maxRows);
      result := TakeRows(numRows);
      startOffset := startOffset + numRows;
    }

    method TakeRows(n: nat) returns (result: ColumnBasedSet)
      requires Valid() && n <= NumRows(views)
      modifies this`views, columns
      ensures Valid() && result.Valid() && fresh(result)
      ensures result.views == ExtractedRows(old(views), n) && views == RemainingRows(old(views), n)
      ensures result.startOffset == startOffset
    {
      ghost var parts := ExtractedRows(views, n);
      assert Rectangular(parts) by { ExtractionIsRectangular(views, n); }
      var subset := ExtractColumns(n);
      result := new ColumnBasedSet.FromColumns(types, subset, startOffset, kinds, parts);
    }

    /** The same number of rows from every column. */
    method ExtractColumns(n: nat) returns (subset: seq<Column>)
      requires Valid() && n <= NumRows(views)
      modifies this`views, columns
      ensures Valid() && views == RemainingRows(old(views), n)
      ensures SeparateColumns(subset, kinds) && ModelsOf(subset) == ExtractedRows(old(views), n)
      ensures forall k | 0 <= k < |subset| :: fresh(subset[k])
    {
      ExtractionEnd(views, n);
      ExtractionIsRectangular(views, n);
      subset := ExtractAll(n);
    }

    method ExtractAll(n: nat) returns (subset: seq<Column>)
      requires Separate() && Rectangular(views) && n <= NumRows(views)
      modifies this`views, columns
      ensures Separate() && views == RemainingUpTo(old(views), n, |columns|)
      ensures SeparateColumns(subset, kinds) && ModelsOf(subset) == ExtractedUpTo(old(views), n, |columns|)
      ensures forall k | 0 <= k < |subset| :: fresh(subset[k])
    {
      subset := [];
      AllFit(subset, []);
      ghost var taken: seq<Type> := [];
      for i := 0 to |columns|
        invariant Separate() && views == RemainingUpTo(old(views), n, i)
        invariant taken == kinds[..i] && SeparateColumns(subset, taken)
        invariant ModelsOf(subset) == ExtractedUpTo(old(views), n, i)
        invariant fresh(set c | c in subset)
      {
        ExtractionStep(old(views), n, i);
        var column := ExtractNext(i, n, subset, taken);
        subset, taken := subset + [column], taken + [kinds[i]];
      }
      assert taken == kinds;
    }

    /** One step of the loop: the columns extracted so far stay as they are. */
    method ExtractNext(i: nat, n: nat, before: seq<Column>, ghost taken: seq<Type>) returns (column: Column)
      requires Separate() && i < |columns| && n <= |views[i].data|
      requires SeparateColumns(before, taken) && columns[i] !in before
      modifies this`views, columns[i]
      ensures Separate() && views == old(views)[i := Remaining(old(views)[i], 0, n)]
      ensures fresh(column) && SeparateColumns(before + [column], taken + [kinds[i]])
      ensures ModelsOf(before + [column]) == old(ModelsOf(before)) + [Extracted(old(views)[i], 0, n)]
    {
      column := ExtractColumn(i, n);
      StillSeparate(before, taken);
      SnocColumn(before, taken, column);
    }

    /** One column; the others stay as they are. */
    method ExtractColumn(i: nat, n: nat) returns (column: Column)
      requires Separate() && i < |columns| && n <= |views[i].data|
      modifies this`views, columns[i]
      ensures Separate() && views == old(views)[i := Remaining(old(views)[i], 0, n)]
      ensures column.Valid() && fresh(column) && fresh(column.vars) && column.kind == kinds[i]
      ensures column.model == Extracted(old(views)[i], 0, n)
    {
      OneFits(columns, kinds, i);
      assert columns[i].model == views[i];
      column := columns[i].ExtractSubset(0, n);
      OneChanged(columns, kinds, i);
      views := views[i := columns[i].model];
    }

    /** The iterator's step: every call overwrites the same array. */
    method Fill(index: nat, convey: array<Cell>)
      requires Valid() && index < NumRows(views) && convey.Length == |columns|
      modifies convey
      ensures convey[..] == RowsOf(views)[index]
    {
      ghost var row := RowAt(views, index);
      for i := 0 to |columns|
        invariant forall k | 0 <= k < i :: convey[k] == row[k]
        invariant Valid()
      {
        OneFits(columns, kinds, i);
        assert columns[i].model == views[i];
        convey[i] := columns[i].Get(index);
      }
      assert convey[..] == row;
    }
  }

  class RowBasedSet {
    const types: seq<Type>
    var rows: seq<seq<TColumnValue>>
    var startOffset: int

    ghost function Rows(): seq<Fields>
      reads this
    {
      seq(|rows|, i requires 0 <= i < |rows| reads this => ReadBack(rows[i]))
    }

    static function ReadBack(row: seq<TColumnValue>): Fields {
      seq(|row|, i requires 0 <= i < |row| => ToColumnValue(row[i]))
    }

    constructor (types: seq<Type>, rows: seq<seq<TColumnValue>>, startOffset: int)
      ensures this.types == types && this.rows == rows && this.startOffset == startOffset
    {
      this.types, this.rows, this.startOffset := types, rows, startOffset;
    }

    /** A row is read back exactly as the columnar set reads it back; a cast that fails throws. */
    method AddRow(fields: Fields) returns (thrown: bool)
      requires AcceptsAll(types, fields)
      modifies this
      ensures thrown <==> !CastsSucceed(types, fields)
      ensures Rows() == old(Rows()) + (if thrown then [] else [ShownRow(types, fields)])
      ensures startOffset == old(startOffset)
    {
      var tRow: seq<TColumnValue> := [];
      for i := 0 to |fields|
        invariant |tRow| == i && rows == old(rows) && startOffset == old(startOffset)
        invariant forall k | 0 <= k < i :: !CastFails(types[k], fields[k])
        invariant forall k | 0 <= k < i :: ToColumnValue(tRow[k]) == Shown(types[k], fields[k])
      {
        UnionShowsField(types[i], fields[i]);
        var value := ToTColumnValue(types[i], fields[i]);
        if value.None? {
          return true;
        }
        tRow := tRow + [value.value];
      }
      assert ReadBack(tRow) == ShownRow(types, fields);
      rows := rows + [tRow];
      return false;
    }

    method ExtractSubset(maxRows: nat) returns (result: RowBasedSet)
      modifies this
      ensures var n := Min(|old(rows)|, maxRows);
              && fresh(result) && result.Rows() == old(Rows())[..n] && Rows() == old(Rows())[n..]
              && result.startOffset == old(startOffset) && startOffset == old(startOffset) + n
    {
      var numRows := Min(|rows|, maxRows);
      result := new RowBasedSet(types, rows[..numRows], startOffset);
      rows := rows[numRows..];
      startOffset := startOffset + numRows;
    }

    method Fill(index: nat, convey: array<Cell>)
      requires index < |rows| && convey.Length == |rows[index]|
      modifies convey
      ensures convey[..] == Rows()[index]
    {
      var values := rows[index];
      for i := 0 to |values|
        invariant forall k | 0 <= k < i :: convey[k] == ToColumnValue(values[k])
      {
        convey[i] := ToColumnValue(values[i]);
      }
      assert convey[..] == ReadBack(values);
    }
  }
}
