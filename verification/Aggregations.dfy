/**
  Elasticsearch aggregation responses and, as a function on values, how they are
  flattened into rows. `Handle` says what one call of `handleAggregations` does to
  the list of rows, error paths included; the class `AggregationEnumerator` is
  proved to do exactly this on the heap.
 */
module Aggregations {

  /** A Java `double`, as the metrics of an empty set need the special values. */
  datatype Number = Finite(r: real) | PosInf | NegInf | NaN

  datatype Cell = Null | Key(text: string) | Num(value: Number)

  type Row = seq<Cell>

  datatype Aggregation =
    | SingleValue(name: string, value: Number)           // numeric metric, one value
    | MultiValue(name: string)                           // numeric metric, several values
    | SingleBucket(name: string, sub: seq<Aggregation>)
    | MultiBuckets(name: string, buckets: seq<Bucket>)
    | Unflattened(name: string)                          // GeoBounds, TopHits or anything else

  datatype Bucket = Bucket(key: string, sub: seq<Aggregation>)

  /** The rows after a call, and whether it returned normally (false: it threw). */
  datatype Outcome = Outcome(lines: seq<Row>, ok: bool)

  predicate AllNumeric(aggs: seq<Aggregation>) {
    forall a | a in aggs :: a.SingleValue? || a.MultiValue?
  }

  function Last<T>(s: seq<T>): T
    requires |s| > 0
  {
    s[|s| - 1]
  }

  function SetLast<T>(s: seq<T>, x: T): seq<T>
    requires |s| > 0
  {
    s[..|s| - 1] + [x]
  }

  function Blank(width: nat): Row {
    seq(width, _ => Null)
  }

  /** Writes a cell under its field name; a name that is not selected is skipped. */
  function Write(row: Row, order: map<string, nat>, name: string, cell: Cell): Row {
    if name in order && order[name] < |row| then row[order[name] := cell] else row
  }

  /** The metrics of one leaf, written in order. The first one that is not selected throws. */
  function WriteMetrics(aggs: seq<Aggregation>, row: Row, order: map<string, nat>): (Row, bool) {
    if aggs == [] then (row, true)
    else if !aggs[0].SingleValue? then WriteMetrics(aggs[1..], row, order)
    else if aggs[0].name !in order then (row, false)
    else WriteMetrics(aggs[1..], Write(row, order, aggs[0].name, Num(aggs[0].value)), order)
  }

  /** The effect of `handleAggregations`; the row under construction is the last one. */
  function Handle(aggs: seq<Aggregation>, lines: seq<Row>, order: map<string, nat>): (o: Outcome)
    requires |lines| > 0
    ensures |o.lines| >= |lines|
    decreases aggs
  {
    if AllNumeric(aggs) then
      var (row, ok) := WriteMetrics(aggs, Last(lines), order);
      Outcome(SetLast(lines, row), ok)
    else if |aggs| > 1 then
      Outcome(lines, false)
    else
      match aggs[0]
      case SingleBucket(_, sub) => Handle(sub, lines, order)
      case MultiBuckets(name, buckets) => HandleBuckets(name, buckets, true, lines, order)
      case _ => Outcome(lines, true)
  }

  /** The loop over the buckets; `first` is the local `firstLine`. */
  function HandleBuckets(
    name: string, buckets: seq<Bucket>, first: bool, lines: seq<Row>, order: map<string, nat>): (o: Outcome)
    requires |lines| > 0
    ensures |o.lines| >= |lines|
    decreases buckets
  {
    if buckets == [] then
      Outcome(lines, true)
    else
      var o := Handle(buckets[0].sub, BeginBucket(name, buckets[0].key, first, lines, order), order);
      if o.ok then HandleBuckets(name, buckets[1..], false, o.lines, order) else o
  }

  /** Every bucket but the first starts a new row, a copy of the last one; then its key is written. */
  function BeginBucket(name: string, key: string, first: bool, lines: seq<Row>, order: map<string, nat>): (r: seq<Row>)
    requires |lines| > 0
    ensures |r| >= |lines|
  {
    Kept(first, lines) + [Write(Last(lines), order, name, Key(key))]
  }

  /** The rows a bucket leaves alone: all of them, unless it continues the last one. */
  function Kept(first: bool, lines: seq<Row>): seq<Row>
    requires |lines| > 0
  {
    if first then lines[..|lines| - 1] else lines
  }

  // ----- What every call keeps, for any tree and any failure

  /** Only the last row matters to a call, and the rows before it never change. */
  lemma {:induction false} HandleIsLocal(
    aggs: seq<Aggregation>, pre: seq<Row>, lines: seq<Row>, order: map<string, nat>)
    requires |lines| > 0
    ensures var o := Handle(aggs, lines, order);
            Handle(aggs, pre + lines, order) == Outcome(pre + o.lines, o.ok)
    decreases aggs
  {
    assert (pre + lines)[..|pre + lines| - 1] == pre + lines[..|lines| - 1];
    if AllNumeric(aggs) {
      var row := WriteMetrics(aggs, Last(lines), order).0;
      assert SetLast(pre + lines, row) == pre + SetLast(lines, row);
    } else if |aggs| == 1 {
      match aggs[0]
      case SingleBucket(_, sub) => HandleIsLocal(sub, pre, lines, order);
      case MultiBuckets(name, buckets) => HandleBucketsIsLocal(name, buckets, true, pre, lines, order);
      case _ =>
    }
  }

  lemma {:induction false} HandleBucketsIsLocal(
    name: string, buckets: seq<Bucket>, first: bool, pre: seq<Row>, lines: seq<Row>, order: map<string, nat>)
    requires |lines| > 0
    ensures var o := HandleBuckets(name, buckets, first, lines, order);
            HandleBuckets(name, buckets, first, pre + lines, order) == Outcome(pre + o.lines, o.ok)
    decreases buckets
  {
    if buckets != [] {
      var sub, begun := buckets[0].sub, BeginBucket(name, buckets[0].key, first, lines, order);
      assert BeginBucket(name, buckets[0].key, first, pre + lines, order) == pre + begun;
      HandleIsLocal(sub, pre, begun, order);
      HandleBucketsIsLocal(name, buckets[1..], false, pre, Handle(sub, begun, order).lines, order);
    }
  }

  // ----- The leaves of a uniform tree

  /** One nested `terms` level per group name, then the same metrics at every leaf. */
  ghost predicate Uniform(aggs: seq<Aggregation>, groups: seq<string>, metrics: seq<string>)
    decreases aggs
  {
    if groups == [] then
      |aggs| == |metrics| && forall i | 0 <= i < |aggs| :: aggs[i].SingleValue? && aggs[i].name == metrics[i]
    else
      |aggs| == 1 && aggs[0].MultiBuckets? && aggs[0].name == groups[0]
      && UniformBuckets(aggs[0].buckets, groups[1..], metrics)
  }

  ghost predicate UniformBuckets(buckets: seq<Bucket>, groups: seq<string>, metrics: seq<string>)
    decreases buckets
  {
    buckets != [] ==> Uniform(buckets[0].sub, groups, metrics) && UniformBuckets(buckets[1..], groups, metrics)
  }

  datatype Entry = Entry(name: string, cell: Cell)

  function MetricEntries(aggs: seq<Aggregation>): seq<Entry>
    requires forall a | a in aggs :: a.SingleValue?
  {
    seq(|aggs|, i requires 0 <= i < |aggs| => Entry(aggs[i].name, Num(aggs[i].value)))
  }

  /** For each leaf, depth first: the keys on its path, then its metrics. */
  ghost function Paths(aggs: seq<Aggregation>, groups: seq<string>, metrics: seq<string>): seq<seq<Entry>>
    requires Uniform(aggs, groups, metrics)
    decreases aggs
  {
    if groups == [] then [MetricEntries(aggs)] else BucketPaths(groups[0], aggs[0].buckets, groups[1..], metrics)
  }

  ghost function BucketPaths(
    name: string, buckets: seq<Bucket>, groups: seq<string>, metrics: seq<string>): seq<seq<Entry>>
    requires UniformBuckets(buckets, groups, metrics)
    decreases buckets
  {
    if buckets == [] then []
    else
      Prepend(Entry(name, Key(buckets[0].key)), Paths(buckets[0].sub, groups, metrics))
      + BucketPaths(name, buckets[1..], groups, metrics)
  }

  function Prepend(e: Entry, paths: seq<seq<Entry>>): seq<seq<Entry>> {
    seq(|paths|, i requires 0 <= i < |paths| => [e] + paths[i])
  }

  function WriteAll(row: Row, order: map<string, nat>, path: seq<Entry>): Row
    decreases |path|
  {
    if path == [] then row else WriteAll(Write(row, order, path[0].name, path[0].cell), order, path[1..])
  }

  function LeafRows(row: Row, order: map<string, nat>, paths: seq<seq<Entry>>): seq<Row> {
    seq(|paths|, i requires 0 <= i < |paths| => WriteAll(row, order, paths[i]))
  }

  /** The number of bucket lists without a bucket. */
  ghost function EmptyLists(aggs: seq<Aggregation>, groups: seq<string>, metrics: seq<string>): nat
    requires Uniform(aggs, groups, metrics)
    decreases aggs
  {
    if groups == [] then 0
    else (if |aggs[0].buckets| == 0 then 1 else 0) + EmptyListsBelow(aggs[0].buckets, groups[1..], metrics)
  }

  ghost function EmptyListsBelow(buckets: seq<Bucket>, groups: seq<string>, metrics: seq<string>): nat
    requires UniformBuckets(buckets, groups, metrics)
    decreases buckets
  {
    if buckets == [] then 0
    else EmptyLists(buckets[0].sub, groups, metrics) + EmptyListsBelow(buckets[1..], groups, metrics)
  }

  // ----- Overwriting: stale cells disappear

  ghost predicate Covers(order: map<string, nat>, path: seq<Entry>, c: nat) {
    exists j | 0 <= j < |path| :: path[j].name in order && order[path[j].name] == c
  }

  ghost predicate SameNames(p: seq<Entry>, q: seq<Entry>) {
    |p| == |q| && forall j | 0 <= j < |p| :: p[j].name == q[j].name
  }

  /** A covered column takes its value from the path alone, any other from the row. */
  lemma {:induction false} WriteAllAt(row1: Row, row2: Row, order: map<string, nat>, path: seq<Entry>, c: nat)
    requires |row1| == |row2| && c < |row1|
    requires Covers(order, path, c) || row1[c] == row2[c]
    ensures |WriteAll(row1, order, path)| == |row1| == |WriteAll(row2, order, path)|
    ensures WriteAll(row1, order, path)[c] == WriteAll(row2, order, path)[c]
    ensures !Covers(order, path, c) ==> WriteAll(row1, order, path)[c] == row1[c]
    decreases |path|
  {
    if path != [] {
      CoversSplit(order, path, c);
      var next1 := Write(row1, order, path[0].name, path[0].cell);
      var next2 := Write(row2, order, path[0].name, path[0].cell);
      WriteAllAt(next1, next2, order, path[1..], c);
    }
  }

  lemma CoversSplit(order: map<string, nat>, path: seq<Entry>, c: nat)
    requires path != []
    ensures Covers(order, path, c) <==>
            (path[0].name in order && order[path[0].name] == c) || Covers(order, path[1..], c)
  {
    assert path == [path[0]] + path[1..];
    if Covers(order, path[1..], c) {
      var j :| 0 <= j < |path[1..]| && path[1..][j].name in order && order[path[1..][j].name] == c;
      assert path[j + 1] == path[1..][j];
    }
  }

  /** A row written by one path and then by another with the same names only shows the second. */
  lemma {:induction false} StaleCellsVanish(row: Row, order: map<string, nat>, p: seq<Entry>, q: seq<Entry>)
    requires SameNames(p, q)
    ensures WriteAll(WriteAll(row, order, p), order, q) == WriteAll(row, order, q)
  {
    WriteAllWidth(row, order, p);
    var stale := WriteAll(row, order, p);
    WriteAllWidth(stale, order, q);
    WriteAllWidth(row, order, q);
    forall c: nat | c < |row| ensures WriteAll(stale, order, q)[c] == WriteAll(row, order, q)[c] {
      if !Covers(order, q, c) {
        WriteAllAt(row, row, order, p, c);
      }
      WriteAllAt(stale, row, order, q, c);
    }
  }

  lemma {:induction false} WriteAllWidth(row: Row, order: map<string, nat>, path: seq<Entry>)
    ensures |WriteAll(row, order, path)| == |row|
    decreases |path|
  {
    if path != [] {
      WriteAllWidth(Write(row, order, path[0].name, path[0].cell), order, path[1..]);
    }
  }

  // ----- Flattening a uniform tree

  ghost predicate HasNames(path: seq<Entry>, names: seq<string>) {
    |path| == |names| && forall j | 0 <= j < |path| :: path[j].name == names[j]
  }

  lemma {:induction false} PathNames(aggs: seq<Aggregation>, groups: seq<string>, metrics: seq<string>)
    requires Uniform(aggs, groups, metrics)
    ensures forall p | p in Paths(aggs, groups, metrics) :: HasNames(p, groups + metrics)
    decreases aggs
  {
    if groups != [] {
      BucketPathNames(groups[0], aggs[0].buckets, groups[1..], metrics);
      assert groups + metrics == [groups[0]] + groups[1..] + metrics;
    }
  }

  lemma {:induction false} BucketPathNames(
    name: string, buckets: seq<Bucket>, groups: seq<string>, metrics: seq<string>)
    requires UniformBuckets(buckets, groups, metrics)
    ensures forall p | p in BucketPaths(name, buckets, groups, metrics) :: HasNames(p, [name] + groups + metrics)
    decreases buckets
  {
    if buckets != [] {
      var sub, e := buckets[0].sub, Entry(name, Key(buckets[0].key));
      PathNames(sub, groups, metrics);
      BucketPathNames(name, buckets[1..], groups, metrics);
      assert [name] + groups + metrics == [name] + (groups + metrics);
      PrependNames(e, Paths(sub, groups, metrics), groups + metrics);
    }
  }

  lemma PrependNames(e: Entry, paths: seq<seq<Entry>>, names: seq<string>)
    requires forall p | p in paths :: HasNames(p, names)
    ensures forall p | p in Prepend(e, paths) :: HasNames(p, [e.name] + names)
  {
    forall p | p in Prepend(e, paths) ensures HasNames(p, [e.name] + names) {
      var i :| 0 <= i < |paths| && p == [e] + paths[i];
      assert HasNames(paths[i], names);
    }
  }

  lemma {:induction false} MetricsAreWritten(aggs: seq<Aggregation>, row: Row, order: map<string, nat>)
    requires forall a | a in aggs :: a.SingleValue? && a.name in order
    ensures WriteMetrics(aggs, row, order) == (WriteAll(row, order, MetricEntries(aggs)), true)
  {
    if aggs != [] {
      assert MetricEntries(aggs)[1..] == MetricEntries(aggs[1..]);
      MetricsAreWritten(aggs[1..], Write(row, order, aggs[0].name, Num(aggs[0].value)), order);
    }
  }

  /** A uniform tree never fails, and every leaf and every empty bucket list accounts for one row. */
  lemma {:induction false} RowCount(
    aggs: seq<Aggregation>, groups: seq<string>, metrics: seq<string>, lines: seq<Row>, order: map<string, nat>)
    requires Uniform(aggs, groups, metrics) && |lines| > 0
    requires forall m | m in metrics :: m in order
    ensures var o := Handle(aggs, lines, order);
            o.ok && |o.lines| == |lines| - 1 + |Paths(aggs, groups, metrics)| + EmptyLists(aggs, groups, metrics)
    decreases aggs
  {
    if groups == [] {
      MetricsAreWritten(aggs, Last(lines), order);
    } else {
      BucketRowCount(groups[0], aggs[0].buckets, true, groups[1..], metrics, lines, order);
    }
  }

  lemma {:induction false} BucketRowCount(
    name: string, buckets: seq<Bucket>, first: bool,
    groups: seq<string>, metrics: seq<string>, lines: seq<Row>, order: map<string, nat>)
    requires UniformBuckets(buckets, groups, metrics) && |lines| > 0
    requires forall m | m in metrics :: m in order
    ensures var o := HandleBuckets(name, buckets, first, lines, order);
            o.ok && |o.lines| == (if first && buckets != [] then |lines| - 1 else |lines|)
              + |BucketPaths(name, buckets, groups, metrics)| + EmptyListsBelow(buckets, groups, metrics)
    decreases buckets
  {
    if buckets != [] {
      var sub, begun := buckets[0].sub, BeginBucket(name, buckets[0].key, first, lines, order);
      RowCount(sub, groups, metrics, begun, order);
      BucketRowCount(name, buckets[1..], false, groups, metrics, Handle(sub, begun, order).lines, order);
    }
  }

  /** Whatever stale cells `row` holds, a path with these names makes it the row grown from `base`. */
  ghost predicate Refreshes(row: Row, base: Row, order: map<string, nat>, names: seq<string>) {
    forall path | HasNames(path, names) :: WriteAll(row, order, path) == WriteAll(base, order, path)
  }

  lemma {:induction false} RowsOfLeaves(
    aggs: seq<Aggregation>, groups: seq<string>, metrics: seq<string>,
    lines: seq<Row>, base: Row, order: map<string, nat>)
    requires Uniform(aggs, groups, metrics) && EmptyLists(aggs, groups, metrics) == 0 && |lines| > 0
    requires forall m | m in metrics :: m in order
    requires Refreshes(Last(lines), base, order, groups + metrics)
    ensures Paths(aggs, groups, metrics) != []
    ensures Handle(aggs, lines, order) ==
            Outcome(lines[..|lines| - 1] + LeafRows(base, order, Paths(aggs, groups, metrics)), true)
    decreases aggs
  {
    if groups == [] {
      MetricsAreWritten(aggs, Last(lines), order);
      assert HasNames(MetricEntries(aggs), groups + metrics);
    } else {
      assert groups + metrics == [groups[0]] + groups[1..] + metrics;
      RowsOfBuckets(groups[0], aggs[0].buckets, true, groups[1..], metrics, lines, base, order);
    }
  }

  lemma {:induction false} RowsOfBuckets(
    name: string, buckets: seq<Bucket>, first: bool,
    groups: seq<string>, metrics: seq<string>, lines: seq<Row>, base: Row, order: map<string, nat>)
    requires UniformBuckets(buckets, groups, metrics) && EmptyListsBelow(buckets, groups, metrics) == 0
    requires |lines| > 0 && (first ==> buckets != [])
    requires forall m | m in metrics :: m in order
    requires Refreshes(Last(lines), base, order, [name] + groups + metrics)
    ensures first ==> BucketPaths(name, buckets, groups, metrics) != []
    ensures HandleBuckets(name, buckets, first, lines, order) ==
            Outcome(Kept(first, lines) + LeafRows(base, order, BucketPaths(name, buckets, groups, metrics)), true)
    decreases buckets
  {
    if buckets != [] {
      var paths := Prepend(Entry(name, Key(buckets[0].key)), Paths(buckets[0].sub, groups, metrics));
      var later := BucketPaths(name, buckets[1..], groups, metrics);
      var o := RowsOfOneBucket(name, buckets[0], first, groups, metrics, lines, base, order);
      RowsOfBuckets(name, buckets[1..], false, groups, metrics, o.lines, base, order);
      OneMoreBucket(name, buckets, first, lines, order, o);
      LeafRowsConcat(base, order, paths, later);
      Regroup(Kept(first, lines), LeafRows(base, order, paths), LeafRows(base, order, later));
    }
  }

  lemma Regroup(a: seq<Row>, b: seq<Row>, c: seq<Row>)
    ensures (a + b) + c == a + (b + c)
  {
  }

  lemma OneMoreBucket(
    name: string, buckets: seq<Bucket>, first: bool, lines: seq<Row>, order: map<string, nat>, o: Outcome)
    requires buckets != [] && |lines| > 0 && o.ok && |o.lines| > 0
    requires o == Handle(buckets[0].sub, BeginBucket(name, buckets[0].key, first, lines, order), order)
    ensures HandleBuckets(name, buckets, first, lines, order)
         == HandleBuckets(name, buckets[1..], false, o.lines, order)
  {
  }

  lemma {:induction false} RowsOfOneBucket(
    name: string, bucket: Bucket, first: bool,
    groups: seq<string>, metrics: seq<string>, lines: seq<Row>, base: Row, order: map<string, nat>)
    returns (o: Outcome)
    requires Uniform(bucket.sub, groups, metrics) && EmptyLists(bucket.sub, groups, metrics) == 0 && |lines| > 0
    requires forall m | m in metrics :: m in order
    requires Refreshes(Last(lines), base, order, [name] + groups + metrics)
    ensures o == Handle(bucket.sub, BeginBucket(name, bucket.key, first, lines, order), order)
    ensures var paths := Prepend(Entry(name, Key(bucket.key)), Paths(bucket.sub, groups, metrics));
            paths != [] && o == Outcome(Kept(first, lines) + LeafRows(base, order, paths), true)
    ensures Refreshes(Last(o.lines), base, order, [name] + groups + metrics)
    decreases bucket
  {
    var sub, e := bucket.sub, Entry(name, Key(bucket.key));
    var begun, paths := BeginBucket(name, bucket.key, first, lines, order), Paths(sub, groups, metrics);
    o := Handle(sub, begun, order);
    var names := [name] + groups + metrics;
    assert names == [name] + (groups + metrics);
    RefreshesAfterKey(Last(lines), base, order, e, groups + metrics);
    RowsOfLeaves(sub, groups, metrics, begun, Write(base, order, e.name, e.cell), order);
    LeafRowsPrepend(base, order, e, paths);
    PathNames(sub, groups, metrics);
    var path := [e] + Last(paths);
    assert HasNames(path, names) by {
      assert HasNames(Last(paths), groups + metrics);
    }
    RefreshesAfterPath(base, order, path, names);
    LastLeafRow(base, order, e, paths, Kept(first, lines));
  }

  lemma LastLeafRow(base: Row, order: map<string, nat>, e: Entry, paths: seq<seq<Entry>>, kept: seq<Row>)
    requires paths != []
    ensures LeafRows(base, order, Prepend(e, paths)) != []
    ensures Last(kept + LeafRows(base, order, Prepend(e, paths))) == WriteAll(base, order, [e] + Last(paths))
  {
  }

  lemma LeafRowsConcat(base: Row, order: map<string, nat>, p: seq<seq<Entry>>, q: seq<seq<Entry>>)
    ensures LeafRows(base, order, p + q) == LeafRows(base, order, p) + LeafRows(base, order, q)
  {
  }

  lemma LeafRowsPrepend(base: Row, order: map<string, nat>, e: Entry, paths: seq<seq<Entry>>)
    ensures LeafRows(base, order, Prepend(e, paths)) == LeafRows(Write(base, order, e.name, e.cell), order, paths)
  {
    forall i | 0 <= i < |paths|
      ensures WriteAll(base, order, [e] + paths[i]) == WriteAll(Write(base, order, e.name, e.cell), order, paths[i])
    {
      assert ([e] + paths[i])[1..] == paths[i];
    }
  }

  lemma RefreshesAfterKey(row: Row, base: Row, order: map<string, nat>, e: Entry, names: seq<string>)
    requires Refreshes(row, base, order, [e.name] + names)
    ensures Refreshes(Write(row, order, e.name, e.cell), Write(base, order, e.name, e.cell), order, names)
  {
    forall path | HasNames(path, names)
      ensures WriteAll(Write(row, order, e.name, e.cell), order, path) ==
              WriteAll(Write(base, order, e.name, e.cell), order, path)
    {
      assert HasNames([e] + path, [e.name] + names);
      assert ([e] + path)[1..] == path;
    }
  }

  lemma RefreshesAfterPath(base: Row, order: map<string, nat>, p: seq<Entry>, names: seq<string>)
    requires HasNames(p, names)
    ensures Refreshes(WriteAll(base, order, p), base, order, names)
  {
    forall path | HasNames(path, names)
      ensures WriteAll(WriteAll(base, order, p), order, path) == WriteAll(base, order, path)
    {
      StaleCellsVanish(base, order, p, path);
    }
  }

  /**
    Flattening a uniform tree gives exactly the rows of its leaves, in depth-first order and
    free of stale cells, if and only if none of its bucket lists is empty.
   */
  lemma FlattenUniform(
    aggs: seq<Aggregation>, groups: seq<string>, metrics: seq<string>, base: Row, order: map<string, nat>)
    requires Uniform(aggs, groups, metrics)
    requires forall m | m in metrics :: m in order
    ensures Handle(aggs, [base], order) == Outcome(LeafRows(base, order, Paths(aggs, groups, metrics)), true)
            <==> EmptyLists(aggs, groups, metrics) == 0
  {
    RowCount(aggs, groups, metrics, [base], order);
    if EmptyLists(aggs, groups, metrics) == 0 {
      RowsOfLeaves(aggs, groups, metrics, [base], base, order);
      assert [base][..0] == [];
    }
  }
}
