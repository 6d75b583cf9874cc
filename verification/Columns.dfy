/**
  Result columns: growable arrays of one type with a null mask. The functions on `View` say what the
  operations compute; the class keeps the typed array and is proved to compute it.
 */
module Columns {
  import opened BitMasks
  import opened Results

  datatype Type =
    | BOOLEAN | TINYINT | SMALLINT | INT | BIGINT | FLOAT | DOUBLE | STRING | BINARY
    | RENDERED   // CHAR, VARCHAR, DATE, TIMESTAMP, DECIMAL and the intervals: objects shown as strings
    | COMPLEX    // ARRAY, MAP, STRUCT, UNIONTYPE and USER_DEFINED: objects, or strings already

  datatype Value =
    | VBool(b: bool)
    | VByte(n: int)
    | VShort(n: int)
    | VInt(n: int)
    | VLong(n: int)
    | VFloat(r: real)
    | VDouble(r: real)
    | VString(s: string)
    | VBinary(bytes: seq<bv8>)
    | VObject(image: string)      // any other object, with its string form

  /** A field of a row handed in, or a cell handed out: None is null. */
  type Cell = Option<Value>

  const DEFAULT_SIZE: nat := 100

  /** The size at which doubling overflows a 32-bit integer. */
  const DOUBLING_LIMIT: nat := 0x4000_0000

  /** The type a column is kept as. */
  function KindOf(t: Type): Type {
    match t
    case FLOAT => DOUBLE
    case RENDERED => STRING
    case COMPLEX => STRING
    case _ => t
  }

  /** Kept in a fixed-width array, not in a list. */
  predicate Fixed(kind: Type) {
    kind != STRING && kind != BINARY
  }

  predicate HasType(t: Type, v: Value) {
    match t
    case BOOLEAN => v.VBool?
    case TINYINT => v.VByte?
    case SMALLINT => v.VShort?
    case INT => v.VInt?
    case BIGINT => v.VLong?
    case FLOAT => v.VFloat?
    case DOUBLE => v.VDouble?
    case STRING => v.VString?
    case BINARY => v.VBinary?
    case RENDERED => v.VObject?
    case COMPLEX => v.VObject? || v.VString?
  }

  /** How a value of a type is stored: floats widened, other objects as strings. */
  function Stored(t: Type, v: Value): Value
    requires HasType(t, v)
  {
    match t
    case FLOAT => VDouble(v.r)
    case RENDERED => VString(v.image)
    case COMPLEX => if v.VObject? then VString(v.image) else v
    case _ => v
  }

  /** What is stored under a null. */
  function Filler(t: Type): Value {
    match t
    case BOOLEAN => VBool(true)
    case TINYINT => VByte(0)
    case SMALLINT => VShort(0)
    case INT => VInt(0)
    case BIGINT => VLong(0)
    case FLOAT => VDouble(0.0)
    case DOUBLE => VDouble(0.0)
    case STRING => VString("")
    case BINARY => VBinary([])
    case RENDERED => VString("")
    case COMPLEX => VString("")
  }

  // ----- Columns as values

  datatype View = View(kind: Type, data: seq<Value>, nulls: set<nat>)

  function CellAt(v: View, i: nat): Cell
    requires i < |v.data|
  {
    if i in v.nulls then None else Some(v.data[i])
  }

  function Cells(v: View): seq<Cell> {
    seq(|v.data|, i requires 0 <= i < |v.data| => CellAt(v, i))
  }

  predicate Accepts(t: Type, field: Cell) {
    field.Some? ==> HasType(t, field.value)
  }

  /** The cell a field is read back as. */
  function Shown(t: Type, field: Cell): Cell
    requires Accepts(t, field)
  {
    if field.None? then None else Some(Stored(t, field.value))
  }

  function Added(v: View, t: Type, field: Cell): View
    requires Accepts(t, field)
  {
    var n := |v.data|;
    View(v.kind, v.data + [if field.None? then Filler(t) else Stored(t, field.value)],
         if field.None? then v.nulls + {n} else v.nulls - {n})
  }

  /** Bit `i` of the mask that starts at `from`. */
  predicate BitAt(bits: set<nat>, from: nat, i: nat) {
    from + i in bits
  }

  /** `BitSet.get(from, to)` */
  function SubBits(bits: set<nat>, from: nat, to: nat): set<nat> {
    set i: nat | i < to && from + i < to && BitAt(bits, from, i)
  }

  function Extracted(v: View, start: nat, end: nat): View
    requires start <= end <= |v.data|
  {
    View(v.kind, v.data[start..end], SubBits(v.nulls, start, end))
  }

  /** What stays behind. The mask is taken from `start`, the data from `end`. */
  function Remaining(v: View, start: nat, end: nat): View
    requires start <= end <= |v.data|
  {
    View(v.kind, v.data[end..], SubBits(v.nulls, start, |v.data|))
  }

  /** The wire form. */
  datatype TColumn = TColumn(kind: Type, values: seq<Value>, nulls: seq<bv8>)

  ghost predicate OnWire(v: View, t: TColumn) {
    t.kind == v.kind && t.values == v.data && Packs(t.nulls, v.nulls)
  }

  function FromWire(t: TColumn): View {
    View(t.kind, t.values, Unpack(t.nulls))
  }

  // ----- Theorems

  /** Adding a row leaves the cells before it and shows the added field, whatever the mask held at its place. */
  lemma AddedCells(v: View, t: Type, field: Cell)
    requires Accepts(t, field)
    ensures Cells(Added(v, t, field)) == Cells(v) + [Shown(t, field)]
  {
  }

  function AddedAll(v: View, t: Type, fields: seq<Cell>): View
    requires forall i | 0 <= i < |fields| :: Accepts(t, fields[i])
    decreases |fields|
  {
    if fields == [] then v else AddedAll(Added(v, t, fields[0]), t, fields[1..])
  }

  /** After any sequence of additions, the i-th cell is the i-th field. */
  lemma {:induction false} AddedInOrder(v: View, t: Type, fields: seq<Cell>)
    requires forall i | 0 <= i < |fields| :: Accepts(t, fields[i])
    ensures Cells(AddedAll(v, t, fields))
         == Cells(v) + seq(|fields|, i requires 0 <= i < |fields| => Shown(t, fields[i]))
    decreases |fields|
  {
    if fields != [] {
      AddedCells(v, t, fields[0]);
      AddedInOrder(Added(v, t, fields[0]), t, fields[1..]);
    }
  }

  lemma ExtractedCells(v: View, start: nat, end: nat)
    requires start <= end <= |v.data|
    ensures Cells(Extracted(v, start, end)) == Cells(v)[start..end]
  {
    forall k: nat | k < end - start ensures CellAt(Extracted(v, start, end), k) == CellAt(v, start + k) {
      assert k in SubBits(v.nulls, start, end) <==> BitAt(v.nulls, start, k);
    }
  }

  /**
    The remainder shows the rows that were not extracted if and only if the mask repeats itself:
    the rows from `start` are null exactly where the rows from `end` are.
   */
  lemma RemainingCells(v: View, start: nat, end: nat)
    requires start <= end <= |v.data|
    ensures Cells(Remaining(v, start, end)) == Cells(v)[end..]
            <==> forall k: nat | k < |v.data| - end :: BitAt(v.nulls, start, k) <==> BitAt(v.nulls, end, k)
  {
    var rest, want := Cells(Remaining(v, start, end)), Cells(v)[end..];
    forall k: nat | k < |v.data| - end
      ensures rest[k] == want[k] <==> (BitAt(v.nulls, start, k) <==> BitAt(v.nulls, end, k))
    {
      assert k in SubBits(v.nulls, start, |v.data|) <==> BitAt(v.nulls, start, k);
    }
  }

  /** Rebuilding a column from its wire form gives the column back, mask and all. */
  lemma WireRoundTrip(v: View, t: TColumn)
    requires OnWire(v, t)
    ensures FromWire(t) == v && Cells(FromWire(t)) == Cells(v)
  {
    UnpackPacked(t.nulls, v.nulls);
  }

  lemma SlicesOfTake(all: seq<Value>, n: nat, start: nat, end: nat)
    requires start <= end <= n <= |all|
    ensures all[..n][start..end] == all[start..end] && all[..n][end..] == all[end..n]
  {
  }

  // ----- The class

  class Column {
    const kind: Type
    var nulls: set<nat>
    var size: nat
    var vars: array<Value>       // the array of a fixed-width column
    var list: seq<Value>         // the list of a string or binary column
    ghost var copied: nat        // elements moved by doubling, since construction

    ghost var model: View        // the column as a value

    ghost predicate Valid()
      reads this, vars
    {
      && (if Fixed(kind) then size <= vars.Length else size == |list|)
      && model == View(kind, Data(), nulls)
    }

    ghost function Data(): seq<Value>
      requires Fixed(kind) ==> size <= vars.Length
      reads this, vars
    {
      if Fixed(kind) then vars[..size] else list
    }

    /** The growth of a column that started empty: no more moved than twice its size, and never stuck. */
    ghost predicate Grown()
      reads this
    {
      Fixed(kind) && copied + DEFAULT_SIZE == vars.Length && (copied == 0 || vars.Length <= 2 * size)
    }

    /** Adding would fail: the array is full and cannot be doubled. */
    predicate Stuck()
      reads this
    {
      Fixed(kind) && vars.Length == size && (size == 0 || size >= DOUBLING_LIMIT)
    }

    constructor (t: Type)
      ensures Valid() && fresh(vars) && model == View(KindOf(t), [], {})
      ensures Fixed(kind) ==> Grown()
    {
      kind, nulls, size, list, copied := KindOf(t), {}, 0, [], 0;
      vars := new Value[if Fixed(KindOf(t)) then DEFAULT_SIZE else 0](_ => Filler(t));
      model := View(KindOf(t), [], {});
    }

    constructor FromParts(kind: Type, nulls: set<nat>, values: seq<Value>)
      ensures Valid() && fresh(vars) && model == View(kind, values, nulls)
      ensures Fixed(kind) ==> vars.Length == size
    {
      this.kind, this.nulls, size, copied := kind, nulls, |values|, 0;
      vars := new Value[if Fixed(kind) then |values| else 0](i requires 0 <= i < |values| => values[i]);
      list := if Fixed(kind) then [] else values;
      model := View(kind, values, nulls);
      new;
      assert Fixed(kind) ==> vars[..size] == values;
    }

    constructor FromTColumn(t: TColumn)
      ensures Valid() && fresh(vars) && model == FromWire(t)
    {
      kind, size, copied := t.kind, |t.values|, 0;
      nulls := {};
      vars := new Value[if Fixed(t.kind) then |t.values| else 0](i requires 0 <= i < |t.values| => t.values[i]);
      list := if Fixed(t.kind) then [] else t.values;
      model := FromWire(t);
      new;
      nulls := ToBitset(t.nulls);
      assert Fixed(kind) ==> vars[..size] == t.values;
    }

    /** Doubles a full array. Fails where the doubled size overflows. */
    method Grow() returns (ok: bool)
      requires Fixed(kind) && size <= vars.Length
      modifies this`vars, this`copied
      ensures size <= vars.Length && vars[..size] == old(vars[..size]) && (vars == old(vars) || fresh(vars))
      ensures ok == !(old(vars.Length) == size && size >= DOUBLING_LIMIT)
      ensures ok && !old(Stuck()) ==> size < vars.Length
      ensures old(vars.Length) > size ==> vars == old(vars) && copied == old(copied)
      ensures ok && old(vars.Length) == size ==> vars.Length == 2 * size && copied == old(copied) + size
      ensures !ok ==> vars == old(vars) && copied == old(copied)
    {
      if vars.Length == size {
        if size >= DOUBLING_LIMIT {
          return false;
        }
        var newVars := new Value[2 * size](_ => Filler(kind));
        forall i | 0 <= i < size {
          newVars[i] := vars[i];
        }
        assert newVars[..size] == vars[..size];
        vars := newVars;
        copied := copied + size;
      }
      return true;
    }

    /** Returns true where the original throws; the mask has been changed by then. */
    method AddValue(t: Type, field: Cell) returns (thrown: bool)
      requires Valid() && KindOf(t) == kind && Accepts(t, field)
      modifies this, vars
      ensures Valid() && (vars == old(vars) || fresh(vars))
      ensures thrown == old(Stuck())
      ensures !thrown ==> model == Added(old(model), t, field)
      ensures thrown ==> model == old(model).(nulls := Added(old(model), t, field).nulls)
      ensures old(Grown()) && old(size) < DOUBLING_LIMIT ==> !thrown && Grown() && copied <= 2 * size
    {
      nulls := if field.None? then nulls + {size} else nulls - {size};
      thrown := Append(if field.None? then Filler(t) else Stored(t, field.value));
      model := if thrown then model.(nulls := nulls) else Added(model, t, field);
    }

    /** The store, and the counter that follows it. */
    method Append(value: Value) returns (thrown: bool)
      requires if Fixed(kind) then size <= vars.Length else size == |list|
      modifies this`vars, this`list, this`size, this`copied, vars
      ensures if Fixed(kind) then size <= vars.Length else size == |list|
      ensures vars == old(vars) || fresh(vars)
      ensures thrown == old(Stuck())
      ensures Data() == old(Data()) + if thrown then [] else [value]
      ensures size == old(size) + if thrown then 0 else 1
      ensures old(Grown()) && old(size) < DOUBLING_LIMIT ==> !thrown && Grown() && copied <= 2 * size
    {
      if Fixed(kind) {
        var ok := Grow();
        if !ok || size >= vars.Length {
          return true;
        }
        vars[size] := value;
      } else {
        list := list + [value];
      }
      size := size + 1;
      return false;
    }

    /** For a string or binary column the original makes both lists views of the one there was; here they are values. */
    method ExtractSubset(start: nat, end: nat) returns (subset: Column)
      requires Valid() && start <= end <= size
      modifies this
      ensures Valid() && (vars == old(vars) || fresh(vars))
      ensures subset.Valid() && fresh(subset) && fresh(subset.vars) && vars != subset.vars
      ensures subset.model == Extracted(old(model), start, end)
      ensures model == Remaining(old(model), start, end)
      ensures Stuck() <==> Fixed(kind) && (size == 0 || size >= DOUBLING_LIMIT)
    {
      var subNulls := SubBits(nulls, start, end);
      if Fixed(kind) {
        subset := new Column.FromParts(kind, subNulls, vars[start..end]);
        var rest := new Value[size - end](i requires 0 <= i < size - end && Valid() reads this, vars => vars[end + i]);
        ghost var all := vars[..];
        assert rest[..] == all[end..size];
        SlicesOfTake(all, size, start, end);
        nulls := SubBits(nulls, start, size);
        vars := rest;
        size := vars.Length;
      } else {
        subset := new Column.FromParts(kind, subNulls, list[start..end]);
        list := list[end..];
        nulls := SubBits(nulls, start, size);
        size := |list|;
      }
      model := Remaining(model, start, end);
    }

    function Get(index: nat): (cell: Cell)
      requires Valid() && index < size
      reads this, vars
      ensures cell == Cells(model)[index]
    {
      if index in nulls then None
      else if Fixed(kind) then Some(vars[index])
      else Some(list[index])
    }

    method ToTColumn() returns (t: TColumn)
      requires Valid()
      ensures OnWire(model, t)
    {
      var nullMasks := ToBinary(nulls);
      t := TColumn(kind, if Fixed(kind) then vars[..size] else list, nullMasks[..]);
    }
  }
}
