/**
  GROUP BY pushed down to Elasticsearch: the compilation of an aggregate into a nested
  `terms` request, the server's answer as a specification, and the proof that
  flattening that answer yields the rows SQL asks for.
 */
module GroupBy {
  import opened Aggregations
  import opened AggregationEnumerators
  import opened Results

  // ----- Compilation

  datatype AggKind = COUNT | SUM | SUM0 | MAX | MIN | AVG | OTHER

  datatype AggCall = AggCall(kind: AggKind, args: seq<nat>, name: string)

  datatype MetricKind = ValueCount | Sum | Max | Min | Avg

  datatype Metric = Metric(name: string, kind: MetricKind, field: string)

  datatype Request =
    | Terms(name: string, field: string, size: nat, sub: Request)
    | Metrics(metrics: seq<Metric>)

  const BUCKET_CAP: nat := 10000000

  /** None where the original throws: an unknown aggregate, or an argument that does not exist. */
  function ToElasticsearch(call: AggCall, inNames: seq<string>): Option<Metric> {
    if call.kind == COUNT && call.args == [] then
      Some(Metric(call.name, ValueCount, "_index"))
    else if call.args == [] || call.args[0] >= |inNames| then
      None
    else
      var inName := inNames[call.args[0]];
      match call.kind
      case COUNT => Some(Metric(call.name, ValueCount, inName))
      case SUM => Some(Metric(call.name, Sum, inName))
      case SUM0 => Some(Metric(call.name, Sum, inName))
      case MAX => Some(Metric(call.name, Max, inName))
      case MIN => Some(Metric(call.name, Min, inName))
      case AVG => Some(Metric(call.name, Avg, inName))
      case OTHER => None
  }

  /** The recursion that nests the levels, outermost group first. */
  function AggregateRequest(groups: seq<string>, metrics: seq<Metric>, i: nat): Request
    decreases |groups| - i
  {
    if i < |groups| then Terms(groups[i], groups[i], BUCKET_CAP, AggregateRequest(groups, metrics, i + 1))
    else Metrics(metrics)
  }

  ghost predicate Compiled(calls: seq<AggCall>, inNames: seq<string>, metrics: seq<Metric>) {
    |metrics| == |calls|
    && forall i | 0 <= i < |calls| :: ToElasticsearch(calls[i], inNames) == Some(metrics[i])
  }

  function GroupNames(groupSet: seq<nat>, inNames: seq<string>): seq<string>
    requires forall i | 0 <= i < |groupSet| :: groupSet[i] < |inNames|
  {
    seq(|groupSet|, i requires 0 <= i < |groupSet| => inNames[groupSet[i]])
  }

  method Implement(groupSet: seq<nat>, calls: seq<AggCall>, inNames: seq<string>) returns (r: Option<Request>)
    requires forall i | 0 <= i < |groupSet| :: groupSet[i] < |inNames|
    ensures r.None? ==> exists c | c in calls :: ToElasticsearch(c, inNames).None?
    ensures r.Some? ==> exists metrics | Compiled(calls, inNames, metrics) ::
              r.value == AggregateRequest(GroupNames(groupSet, inNames), metrics, 0)
  {
    var metrics := [];
    for i := 0 to |calls|
      invariant Compiled(calls[..i], inNames, metrics)
    {
      var m := ToElasticsearch(calls[i], inNames);
      if m.None? {
        return None;
      }
      metrics := metrics + [m.value];
    }
    assert calls[..|calls|] == calls;
    var groups := [];
    for i := 0 to |groupSet|
      invariant groups == GroupNames(groupSet[..i], inNames)
    {
      groups := groups + [inNames[groupSet[i]]];
    }
    assert groupSet[..|groupSet|] == groupSet;
    return Some(AggregateRequest(groups, metrics, 0));
  }

  // ----- The server, as a specification

  /** One document: its fields as terms, and the numeric value of its numeric fields. */
  datatype Doc = Doc(terms: map<string, string>, nums: map<string, real>)

  function NumValues(docs: seq<Doc>, field: string): seq<real> {
    if docs == [] then []
    else (if field in docs[0].nums then [docs[0].nums[field]] else []) + NumValues(docs[1..], field)
  }

  function CountOf(docs: seq<Doc>, field: string): nat {
    if docs == [] then 0
    else CountOf(docs[..|docs| - 1], field) + (if field in Last(docs).terms then 1 else 0)
  }

  function SumOf(values: seq<real>): real {
    if values == [] then 0.0 else values[0] + SumOf(values[1..])
  }

  function MaxOf(values: seq<real>): real
    requires values != []
  {
    if |values| == 1 then values[0]
    else var rest := MaxOf(values[1..]); if values[0] < rest then rest else values[0]
  }

  function MinOf(values: seq<real>): real
    requires values != []
  {
    if |values| == 1 then values[0]
    else var rest := MinOf(values[1..]); if values[0] < rest then values[0] else rest
  }

  /** A metric over a set of documents, with the server's values for documents without the field. */
  function EsMetric(m: Metric, docs: seq<Doc>): Number {
    var values := NumValues(docs, m.field);
    match m.kind
    case ValueCount => Finite(CountOf(docs, m.field) as real)
    case Sum => Finite(SumOf(values))
    case Max => if values == [] then NegInf else Finite(MaxOf(values))
    case Min => if values == [] then PosInf else Finite(MinOf(values))
    case Avg => if values == [] then NaN else Finite(SumOf(values) / |values| as real)
  }

  function FieldValues(docs: seq<Doc>, field: string): set<string> {
    set d | d in docs && field in d.terms :: d.terms[field]
  }

  predicate HasTuple(d: Doc, groups: seq<string>, tuple: seq<string>) {
    |tuple| == |groups| && forall i | 0 <= i < |groups| :: groups[i] in d.terms && d.terms[groups[i]] == tuple[i]
  }

  /** The documents of one group, in table order. */
  function MembersOf(docs: seq<Doc>, groups: seq<string>, tuple: seq<string>): seq<Doc> {
    if docs == [] then []
    else (if HasTuple(docs[0], groups, tuple) then [docs[0]] else []) + MembersOf(docs[1..], groups, tuple)
  }

  /**
    `aggs` answers `request` on `docs`: one bucket for each value of the field, in any order and
    up to the size limit, each bucket answering the nested request on its own documents.
   */
  ghost predicate Answers(request: Request, docs: seq<Doc>, aggs: seq<Aggregation>)
    decreases aggs
  {
    match request
    case Metrics(metrics) =>
      |aggs| == |metrics|
      && forall i | 0 <= i < |aggs| :: aggs[i] == SingleValue(metrics[i].name, EsMetric(metrics[i], docs))
    case Terms(name, field, size, sub) =>
      |aggs| == 1 && aggs[0].MultiBuckets? && aggs[0].name == name
      && DistinctKeys(aggs[0].buckets)
      && |aggs[0].buckets| == (if |FieldValues(docs, field)| <= size then |FieldValues(docs, field)| else size)
      && BucketsAnswer(field, sub, docs, aggs[0].buckets)
  }

  ghost predicate BucketsAnswer(field: string, sub: Request, docs: seq<Doc>, buckets: seq<Bucket>)
    decreases buckets
  {
    buckets != [] ==>
      && buckets[0].key in FieldValues(docs, field)
      && Answers(sub, MembersOf(docs, [field], [buckets[0].key]), buckets[0].sub)
      && BucketsAnswer(field, sub, docs, buckets[1..])
  }

  ghost predicate DistinctKeys(buckets: seq<Bucket>) {
    forall i, j | 0 <= i < j < |buckets| :: buckets[i].key != buckets[j].key
  }

  // ----- SQL, as a specification

  /** The groups of a table. Without GROUP BY there is one group, even for an empty table. */
  ghost predicate IsGroup(docs: seq<Doc>, groups: seq<string>, tuple: seq<string>) {
    if groups == [] then tuple == [] else exists d | d in docs :: HasTuple(d, groups, tuple)
  }

  /** SQL's value of an aggregate over a group; false where SQL's value is NULL. */
  ghost predicate SqlValue(call: AggCall, inNames: seq<string>, docs: seq<Doc>, r: Number)
    requires call.args != [] ==> call.args[0] < |inNames|
    requires call.args == [] ==> call.kind == COUNT
  {
    if call.args == [] then
      r == Finite(|docs| as real)
    else
      var field := inNames[call.args[0]];
      var values := NumValues(docs, field);
      match call.kind
      case COUNT => r == Finite(|set i | 0 <= i < |docs| && field in docs[i].terms| as real)
      case SUM => values != [] && r == Finite(SumOf(values))
      case SUM0 => r == Finite(SumOf(values))
      case MAX => r.Finite? && r.r in values && forall v | v in values :: v <= r.r
      case MIN => r.Finite? && r.r in values && forall v | v in values :: r.r <= v
      case AVG => r.Finite? && values != [] && r.r * |values| as real == SumOf(values)
      case OTHER => false
  }

  // ----- Each aggregate call

  /**
    A compiled metric has SQL's value over any set of documents, except that SUM, MAX, MIN and AVG
    over documents that all lack the field give a number where SQL gives NULL.
   */
  lemma MetricMeansCall(call: AggCall, inNames: seq<string>, m: Metric, docs: seq<Doc>)
    requires ToElasticsearch(call, inNames) == Some(m)
    requires forall d | d in docs :: "_index" in d.terms
    ensures m.name == call.name
    ensures SqlValue(call, inNames, docs, EsMetric(m, docs))
            <==> (call.kind in {SUM, MAX, MIN, AVG} ==> NumValues(docs, m.field) != [])
  {
    var values := NumValues(docs, m.field);
    match call.kind
    case COUNT =>
      CountIsCardinality(docs, m.field);
      if call.args == [] {
        CountOfAll(docs, m.field);
      }
    case MAX => if values != [] { MaxIsGreatest(values); }
    case MIN => if values != [] { MinIsLeast(values); }
    case _ =>
  }

  lemma {:induction false} CountIsCardinality(docs: seq<Doc>, field: string)
    ensures CountOf(docs, field) == |set i | 0 <= i < |docs| && field in docs[i].terms|
  {
    var all := set i | 0 <= i < |docs| && field in docs[i].terms;
    if docs != [] {
      var n := |docs| - 1;
      CountIsCardinality(docs[..n], field);
      var before := set i | 0 <= i < |docs[..n]| && field in docs[..n][i].terms;
      assert all == before + if field in docs[n].terms then {n} else {};
    }
  }

  lemma {:induction false} CountOfAll(docs: seq<Doc>, field: string)
    requires forall d | d in docs :: field in d.terms
    ensures CountOf(docs, field) == |docs|
  {
    if docs != [] {
      CountOfAll(docs[..|docs| - 1], field);
    }
  }

  lemma {:induction false} MaxIsGreatest(values: seq<real>)
    requires values != []
    ensures MaxOf(values) in values && forall v | v in values :: v <= MaxOf(values)
  {
    if |values| > 1 {
      MaxIsGreatest(values[1..]);
      assert values == [values[0]] + values[1..];
    }
  }

  lemma {:induction false} MinIsLeast(values: seq<real>)
    requires values != []
    ensures MinOf(values) in values && forall v | v in values :: MinOf(values) <= v
  {
    if |values| > 1 {
      MinIsLeast(values[1..]);
      assert values == [values[0]] + values[1..];
    }
  }

  // ----- Groups and their documents

  lemma {:induction false} MembersSplit(docs: seq<Doc>, g: string, groups: seq<string>, tuple: seq<string>)
    requires tuple != []
    ensures MembersOf(MembersOf(docs, [g], [tuple[0]]), groups, tuple[1..]) == MembersOf(docs, [g] + groups, tuple)
  {
    if docs != [] {
      MembersSplit(docs[1..], g, groups, tuple);
      var inner := MembersOf(docs, [g], [tuple[0]]);
      HasTupleSplit(docs[0], g, groups, tuple);
      if HasTuple(docs[0], [g], [tuple[0]]) {
        assert inner[0] == docs[0] && inner[1..] == MembersOf(docs[1..], [g], [tuple[0]]);
      } else {
        assert inner == MembersOf(docs[1..], [g], [tuple[0]]);
      }
    }
  }

  lemma HasTupleSplit(d: Doc, g: string, groups: seq<string>, tuple: seq<string>)
    requires tuple != []
    ensures HasTuple(d, [g] + groups, tuple) <==> HasTuple(d, [g], [tuple[0]]) && HasTuple(d, groups, tuple[1..])
  {
    if HasTuple(d, [g], [tuple[0]]) && HasTuple(d, groups, tuple[1..]) {
      forall i | 0 <= i < |[g] + groups|
        ensures ([g] + groups)[i] in d.terms && d.terms[([g] + groups)[i]] == tuple[i]
      {
        if i > 0 { assert ([g] + groups)[i] == groups[i - 1] && tuple[i] == tuple[1..][i - 1]; }
      }
    }
    if HasTuple(d, [g] + groups, tuple) {
      assert ([g] + groups)[0] == g;
      forall i | 0 <= i < |groups| ensures groups[i] in d.terms && d.terms[groups[i]] == tuple[1..][i] {
        assert ([g] + groups)[i + 1] == groups[i];
      }
    }
  }

  lemma {:induction false} MembersAre(docs: seq<Doc>, groups: seq<string>, tuple: seq<string>)
    ensures forall d :: d in MembersOf(docs, groups, tuple) <==> d in docs && HasTuple(d, groups, tuple)
  {
    if docs != [] {
      MembersAre(docs[1..], groups, tuple);
    }
  }

  lemma IsGroupSplit(docs: seq<Doc>, g: string, groups: seq<string>, tuple: seq<string>)
    ensures IsGroup(docs, [g] + groups, tuple) <==>
            tuple != [] && tuple[0] in FieldValues(docs, g)
            && IsGroup(MembersOf(docs, [g], [tuple[0]]), groups, tuple[1..])
  {
    if tuple != [] {
      MembersAre(docs, [g], [tuple[0]]);
      forall d ensures HasTuple(d, [g] + groups, tuple)
                   <==> HasTuple(d, [g], [tuple[0]]) && HasTuple(d, groups, tuple[1..]) {
        HasTupleSplit(d, g, groups, tuple);
      }
      if tuple[0] in FieldValues(docs, g) && groups == [] && tuple[1..] == [] {
        var d :| d in docs && g in d.terms && d.terms[g] == tuple[0];
        assert HasTuple(d, [g] + groups, tuple);
      }
      if IsGroup(docs, [g] + groups, tuple) {
        var d :| d in docs && HasTuple(d, [g] + groups, tuple);
        assert HasTuple(d, [g], [tuple[0]]);
        assert [g][0] in d.terms && d.terms[[g][0]] == [tuple[0]][0];
      }
    }
  }

  // ----- The tree the server builds

  function MetricNames(metrics: seq<Metric>): seq<string> {
    seq(|metrics|, i requires 0 <= i < |metrics| => metrics[i].name)
  }

  /** What the row of one group must show: its key tuple and the metrics over its documents. */
  ghost function PathFor(docs: seq<Doc>, groups: seq<string>, metrics: seq<Metric>, tuple: seq<string>): seq<Entry>
    requires |tuple| == |groups|
  {
    seq(|groups|, i requires 0 <= i < |groups| => Entry(groups[i], Key(tuple[i])))
    + seq(|metrics|, i requires 0 <= i < |metrics| =>
        Entry(metrics[i].name, Num(EsMetric(metrics[i], MembersOf(docs, groups, tuple)))))
  }

  /** `tuples` lists the groups of the table, each once, and `paths` shows each of them. */
  ghost predicate ShowsGroups(
    docs: seq<Doc>, groups: seq<string>, metrics: seq<Metric>, tuples: seq<seq<string>>, paths: seq<seq<Entry>>)
  {
    && |paths| == |tuples|
    && (forall i, j | 0 <= i < j < |tuples| :: tuples[i] != tuples[j])
    && (forall t :: t in tuples <==> IsGroup(docs, groups, t))
    && (forall i | 0 <= i < |tuples| ::
          |tuples[i]| == |groups| && paths[i] == PathFor(docs, groups, metrics, tuples[i]))
  }

  ghost predicate BelowCap(docs: seq<Doc>, groups: seq<string>) {
    forall g | g in groups :: |FieldValues(docs, g)| <= BUCKET_CAP
  }

  lemma MembersBelowCap(docs: seq<Doc>, g: string, key: string, groups: seq<string>)
    requires BelowCap(docs, groups)
    ensures BelowCap(MembersOf(docs, [g], [key]), groups)
  {
    MembersAre(docs, [g], [key]);
    forall h | h in groups ensures |FieldValues(MembersOf(docs, [g], [key]), h)| <= BUCKET_CAP {
      SubsetSize(FieldValues(MembersOf(docs, [g], [key]), h), FieldValues(docs, h));
    }
  }

  lemma {:induction false} SubsetSize(a: set<string>, b: set<string>)
    requires a <= b
    ensures |a| <= |b|
    ensures |a| == |b| ==> a == b
  {
    assert b == a + (b - a);
  }

  function KeysOf(buckets: seq<Bucket>): set<string> {
    set i | 0 <= i < |buckets| :: buckets[i].key
  }

  lemma {:induction false} DistinctKeysCount(buckets: seq<Bucket>)
    requires DistinctKeys(buckets)
    ensures |KeysOf(buckets)| == |buckets|
  {
    if buckets != [] {
      DistinctKeysCount(buckets[1..]);
      assert KeysOf(buckets) == {buckets[0].key} + KeysOf(buckets[1..]);
    }
  }

  lemma {:induction false} AnsweredKeys(field: string, sub: Request, docs: seq<Doc>, buckets: seq<Bucket>)
    requires BucketsAnswer(field, sub, docs, buckets)
    ensures KeysOf(buckets) <= FieldValues(docs, field)
  {
    if buckets != [] {
      AnsweredKeys(field, sub, docs, buckets[1..]);
      assert KeysOf(buckets) == {buckets[0].key} + KeysOf(buckets[1..]);
    }
  }

  lemma PathForSplit(docs: seq<Doc>, g: string, groups: seq<string>, metrics: seq<Metric>, tuple: seq<string>)
    requires |tuple| == 1 + |groups|
    ensures PathFor(docs, [g] + groups, metrics, tuple) ==
            [Entry(g, Key(tuple[0]))] + PathFor(MembersOf(docs, [g], [tuple[0]]), groups, metrics, tuple[1..])
  {
    MembersSplit(docs, g, groups, tuple);
  }

  lemma {:induction false} AggregateSuffix(groups: seq<string>, metrics: seq<Metric>, i: nat)
    requires i <= |groups|
    ensures AggregateRequest(groups, metrics, i) == AggregateRequest(groups[i..], metrics, 0)
    decreases |groups| - i
  {
    if i < |groups| {
      AggregateSuffix(groups, metrics, i + 1);
      AggregateSuffix(groups[i..], metrics, 1);
      assert groups[i..][1..] == groups[i + 1..];
    }
  }

  ghost predicate HaveFields(docs: seq<Doc>, groups: seq<string>) {
    forall d, g | d in docs && g in groups :: g in d.terms
  }

  /**
    An answer to the compiled request is a uniform tree without an empty bucket list, and its
    leaves show the groups of the table, each exactly once.
   */
  lemma {:induction false} AnswerShowsGroups(
    groups: seq<string>, metrics: seq<Metric>, docs: seq<Doc>, aggs: seq<Aggregation>)
    returns (tuples: seq<seq<string>>)
    requires Answers(AggregateRequest(groups, metrics, 0), docs, aggs)
    requires BelowCap(docs, groups) && HaveFields(docs, groups)
    requires docs != [] || groups == []
    ensures Uniform(aggs, groups, MetricNames(metrics))
    ensures EmptyLists(aggs, groups, MetricNames(metrics)) == 0
    ensures ShowsGroups(docs, groups, metrics, tuples, Paths(aggs, groups, MetricNames(metrics)))
    decreases aggs
  {
    if groups == [] {
      tuples := [[]];
      NoTuple(docs);
      assert PathFor(docs, [], metrics, []) == MetricEntries(aggs);
    } else {
      var g, buckets := groups[0], aggs[0].buckets;
      assert groups == [g] + groups[1..] && g in groups;
      assert forall h | h in groups[1..] :: h in groups;
      AggregateSuffix(groups, metrics, 1);
      tuples := BucketsShowGroups(g, groups[1..], metrics, docs, buckets);
      AllKeysAnswered(docs, g, AggregateRequest(groups, metrics, 1), buckets);
      forall t ensures t in tuples <==> IsGroup(docs, groups, t) {
        IsGroupSplit(docs, g, groups[1..], t);
      }
    }
  }

  lemma {:induction false} NoTuple(docs: seq<Doc>)
    ensures MembersOf(docs, [], []) == docs
  {
    if docs != [] {
      NoTuple(docs[1..]);
    }
  }

  lemma AllKeysAnswered(docs: seq<Doc>, g: string, sub: Request, buckets: seq<Bucket>)
    requires DistinctKeys(buckets) && BucketsAnswer(g, sub, docs, buckets)
    requires |buckets| == |FieldValues(docs, g)|
    requires docs != [] && g in docs[0].terms
    ensures KeysOf(buckets) == FieldValues(docs, g) && buckets != []
  {
    DistinctKeysCount(buckets);
    AnsweredKeys(g, sub, docs, buckets);
    SubsetSize(KeysOf(buckets), FieldValues(docs, g));
    assert docs[0].terms[g] in FieldValues(docs, g);
  }

  /** `tuples` lists the groups whose first key is one of `keys`. */
  ghost predicate ShowsKeys(
    docs: seq<Doc>, g: string, groups: seq<string>, metrics: seq<Metric>, keys: set<string>,
    tuples: seq<seq<string>>, paths: seq<seq<Entry>>)
  {
    && |paths| == |tuples|
    && (forall i, j | 0 <= i < j < |tuples| :: tuples[i] != tuples[j])
    && (forall t :: t in tuples <==>
          t != [] && t[0] in keys && IsGroup(MembersOf(docs, [g], [t[0]]), groups, t[1..]))
    && (forall i | 0 <= i < |tuples| ::
          |tuples[i]| == 1 + |groups| && paths[i] == PathFor(docs, [g] + groups, metrics, tuples[i]))
  }

  lemma {:induction false} BucketsShowGroups(
    g: string, groups: seq<string>, metrics: seq<Metric>, docs: seq<Doc>, buckets: seq<Bucket>)
    returns (tuples: seq<seq<string>>)
    requires BucketsAnswer(g, AggregateRequest(groups, metrics, 0), docs, buckets) && DistinctKeys(buckets)
    requires BelowCap(docs, groups) && HaveFields(docs, groups)
    ensures UniformBuckets(buckets, groups, MetricNames(metrics))
    ensures EmptyListsBelow(buckets, groups, MetricNames(metrics)) == 0
    ensures ShowsKeys(docs, g, groups, metrics, KeysOf(buckets), tuples,
                      BucketPaths(g, buckets, groups, MetricNames(metrics)))
    decreases buckets
  {
    if buckets == [] {
      tuples := [];
    } else {
      var key := buckets[0].key;
      var members := MembersOf(docs, [g], [key]);
      MembersAre(docs, [g], [key]);
      var d :| d in docs && g in d.terms && d.terms[g] == key;
      assert HasTuple(d, [g], [key]);
      MembersBelowCap(docs, g, key, groups);
      var sub := AnswerShowsGroups(groups, metrics, members, buckets[0].sub);
      var rest := BucketsShowGroups(g, groups, metrics, docs, buckets[1..]);
      tuples := Prefixed(key, sub) + rest;
      assert KeysOf(buckets) == {key} + KeysOf(buckets[1..]);
      OneMoreKey(docs, g, groups, metrics, key, KeysOf(buckets[1..]),
                 sub, Paths(buckets[0].sub, groups, MetricNames(metrics)),
                 rest, BucketPaths(g, buckets[1..], groups, MetricNames(metrics)));
    }
  }

  function Prefixed(key: string, tuples: seq<seq<string>>): seq<seq<string>> {
    seq(|tuples|, i requires 0 <= i < |tuples| => [key] + tuples[i])
  }

  lemma OneMoreKey(
    docs: seq<Doc>, g: string, groups: seq<string>, metrics: seq<Metric>, key: string, keys: set<string>,
    sub: seq<seq<string>>, subPaths: seq<seq<Entry>>, rest: seq<seq<string>>, restPaths: seq<seq<Entry>>)
    requires key !in keys
    requires ShowsGroups(MembersOf(docs, [g], [key]), groups, metrics, sub, subPaths)
    requires ShowsKeys(docs, g, groups, metrics, keys, rest, restPaths)
    ensures ShowsKeys(docs, g, groups, metrics, {key} + keys, Prefixed(key, sub) + rest,
                      Prepend(Entry(g, Key(key)), subPaths) + restPaths)
  {
    var tuples := Prefixed(key, sub) + rest;
    var paths := Prepend(Entry(g, Key(key)), subPaths) + restPaths;
    forall t ensures t in tuples <==>
        t != [] && t[0] in {key} + keys && IsGroup(MembersOf(docs, [g], [t[0]]), groups, t[1..]) {
      InPrefixed(key, sub, t);
    }
    forall i | 0 <= i < |tuples|
      ensures |tuples[i]| == 1 + |groups| && paths[i] == PathFor(docs, [g] + groups, metrics, tuples[i])
    {
      if i < |sub| {
        PathForSplit(docs, g, groups, metrics, tuples[i]);
        assert tuples[i][1..] == sub[i];
      }
    }
    forall i, j | 0 <= i < j < |tuples| ensures tuples[i] != tuples[j] {
      if j < |sub| {
        assert tuples[i][1..] == sub[i] && tuples[j][1..] == sub[j];
      } else if i < |sub| {
        assert tuples[j] in rest;
      }
    }
  }

  lemma InPrefixed(key: string, tuples: seq<seq<string>>, t: seq<string>)
    ensures t in Prefixed(key, tuples) <==> t != [] && t[0] == key && t[1..] in tuples
  {
    if t in Prefixed(key, tuples) {
      var i :| 0 <= i < |tuples| && t == [key] + tuples[i];
      assert t[1..] == tuples[i];
    }
    if t != [] && t[0] == key && t[1..] in tuples {
      var i :| 0 <= i < |tuples| && t[1..] == tuples[i];
      assert Prefixed(key, tuples)[i] == t;
    }
  }

  // ----- Documents without a group field

  ghost predicate SomeHas(docs: seq<Doc>, groups: seq<string>, tuple: seq<string>) {
    exists d | d in docs :: HasTuple(d, groups, tuple)
  }

  ghost predicate SomeGoesOn(docs: seq<Doc>, groups: seq<string>, tuple: seq<string>, g: string) {
    exists d | d in docs :: HasTuple(d, groups, tuple) && g in d.terms
  }

  /** Every tuple of first keys that some document has is also had by one that has the next field. */
  ghost predicate PrefixesExtend(docs: seq<Doc>, groups: seq<string>) {
    forall tuple: seq<string> | |tuple| < |groups| && SomeHas(docs, groups[..|tuple|], tuple) ::
      SomeGoesOn(docs, groups[..|tuple|], tuple, groups[|tuple|])
  }

  lemma PrefixSplit(docs: seq<Doc>, g: string, groups: seq<string>, key: string, tuple: seq<string>, h: string)
    ensures SomeHas(docs, [g] + groups, [key] + tuple) <==> SomeHas(MembersOf(docs, [g], [key]), groups, tuple)
    ensures SomeGoesOn(docs, [g] + groups, [key] + tuple, h)
            <==> SomeGoesOn(MembersOf(docs, [g], [key]), groups, tuple, h)
  {
    MembersAre(docs, [g], [key]);
    assert ([key] + tuple)[1..] == tuple;
    forall d
      ensures HasTuple(d, [g] + groups, [key] + tuple) <==> HasTuple(d, [g], [key]) && HasTuple(d, groups, tuple)
    {
      HasTupleSplit(d, g, groups, [key] + tuple);
    }
  }

  lemma KeyHasMembers(docs: seq<Doc>, g: string, key: string)
    ensures key in FieldValues(docs, g) <==> MembersOf(docs, [g], [key]) != []
  {
    MembersAre(docs, [g], [key]);
    var members := MembersOf(docs, [g], [key]);
    if key in FieldValues(docs, g) {
      var d :| d in docs && g in d.terms && d.terms[g] == key;
      assert HasTuple(d, [g], [key]);
      assert d in members;
    }
    if members != [] {
      var d := members[0];
      assert d in members && HasTuple(d, [g], [key]) && [g][0] in d.terms;
    }
  }

  /** Level by level: some document has the first field, and the rest extends below each of its values. */
  lemma PrefixesExtendSplit(docs: seq<Doc>, g: string, groups: seq<string>)
    requires docs != []
    ensures PrefixesExtend(docs, [g] + groups) <==>
            FieldValues(docs, g) != {}
            && forall key | key in FieldValues(docs, g) :: PrefixesExtend(MembersOf(docs, [g], [key]), groups)
  {
    if PrefixesExtend(docs, [g] + groups) {
      FirstFieldIsThere(docs, g, groups);
      forall key | key in FieldValues(docs, g) ensures PrefixesExtend(MembersOf(docs, [g], [key]), groups) {
        ExtendsBelow(docs, g, groups, key);
      }
    }
    if FieldValues(docs, g) != {}
       && forall key | key in FieldValues(docs, g) :: PrefixesExtend(MembersOf(docs, [g], [key]), groups)
    {
      forall tuple: seq<string> | |tuple| < |[g] + groups| && SomeHas(docs, ([g] + groups)[..|tuple|], tuple)
        ensures SomeGoesOn(docs, ([g] + groups)[..|tuple|], tuple, ([g] + groups)[|tuple|])
      {
        ExtendsAbove(docs, g, groups, tuple);
      }
    }
  }

  lemma FirstFieldIsThere(docs: seq<Doc>, g: string, groups: seq<string>)
    requires docs != [] && PrefixesExtend(docs, [g] + groups)
    ensures FieldValues(docs, g) != {}
  {
    var none: seq<string> := [];
    assert HasTuple(docs[0], ([g] + groups)[..|none|], none);
    assert SomeHas(docs, ([g] + groups)[..|none|], none);
    var d :| d in docs && ([g] + groups)[|none|] in d.terms;
    assert d.terms[g] in FieldValues(docs, g);
  }

  lemma ExtendsBelow(docs: seq<Doc>, g: string, groups: seq<string>, key: string)
    requires PrefixesExtend(docs, [g] + groups)
    ensures PrefixesExtend(MembersOf(docs, [g], [key]), groups)
  {
    var members := MembersOf(docs, [g], [key]);
    forall tuple: seq<string> | |tuple| < |groups| && SomeHas(members, groups[..|tuple|], tuple)
      ensures SomeGoesOn(members, groups[..|tuple|], tuple, groups[|tuple|])
    {
      var longer := [key] + tuple;
      assert ([g] + groups)[..|longer|] == [g] + groups[..|tuple|] && ([g] + groups)[|longer|] == groups[|tuple|];
      PrefixSplit(docs, g, groups[..|tuple|], key, tuple, groups[|tuple|]);
      assert SomeHas(docs, ([g] + groups)[..|longer|], longer);
    }
  }

  lemma ExtendsAbove(docs: seq<Doc>, g: string, groups: seq<string>, tuple: seq<string>)
    requires FieldValues(docs, g) != {}
    requires forall key | key in FieldValues(docs, g) :: PrefixesExtend(MembersOf(docs, [g], [key]), groups)
    requires |tuple| < |[g] + groups| && SomeHas(docs, ([g] + groups)[..|tuple|], tuple)
    ensures SomeGoesOn(docs, ([g] + groups)[..|tuple|], tuple, ([g] + groups)[|tuple|])
  {
    if tuple == [] {
      FirstGoesOn(docs, g, groups);
    } else {
      var rest := tuple[1..];
      assert tuple == [tuple[0]] + rest;
      assert ([g] + groups)[..|tuple|] == [g] + groups[..|rest|] && ([g] + groups)[|tuple|] == groups[|rest|];
      LaterGoesOn(docs, g, groups, tuple[0], rest);
    }
  }

  lemma FirstGoesOn(docs: seq<Doc>, g: string, groups: seq<string>)
    requires FieldValues(docs, g) != {}
    ensures SomeGoesOn(docs, ([g] + groups)[..0], [], ([g] + groups)[0])
  {
    var key :| key in FieldValues(docs, g);
    var d :| d in docs && g in d.terms && d.terms[g] == key;
    assert HasTuple(d, ([g] + groups)[..0], []);
  }

  lemma LaterGoesOn(docs: seq<Doc>, g: string, groups: seq<string>, key: string, rest: seq<string>)
    requires forall key | key in FieldValues(docs, g) :: PrefixesExtend(MembersOf(docs, [g], [key]), groups)
    requires |rest| < |groups| && SomeHas(docs, [g] + groups[..|rest|], [key] + rest)
    ensures SomeGoesOn(docs, [g] + groups[..|rest|], [key] + rest, groups[|rest|])
  {
    PrefixSplit(docs, g, groups[..|rest|], key, rest, groups[|rest|]);
    KeyHasMembers(docs, g, key);
  }

  /**
    Whatever fields are missing from the documents, the answer is uniform, and it has no empty bucket
    list if and only if every tuple of first keys that some document has is also had by a document
    with the next field.
   */
  lemma {:induction false} EmptyListsOfAnswer(
    groups: seq<string>, metrics: seq<Metric>, docs: seq<Doc>, aggs: seq<Aggregation>)
    requires Answers(AggregateRequest(groups, metrics, 0), docs, aggs)
    requires BelowCap(docs, groups) && (docs != [] || groups == [])
    ensures Uniform(aggs, groups, MetricNames(metrics))
    ensures EmptyLists(aggs, groups, MetricNames(metrics)) == 0 <==> PrefixesExtend(docs, groups)
    decreases aggs
  {
    if groups != [] {
      var g, buckets := groups[0], aggs[0].buckets;
      assert groups == [g] + groups[1..] && g in groups;
      assert forall h | h in groups[1..] :: h in groups;
      AggregateSuffix(groups, metrics, 1);
      EmptyListsOfBuckets(g, groups[1..], metrics, docs, buckets);
      DistinctKeysCount(buckets);
      AnsweredKeys(g, AggregateRequest(groups, metrics, 1), docs, buckets);
      SubsetSize(KeysOf(buckets), FieldValues(docs, g));
      PrefixesExtendSplit(docs, g, groups[1..]);
      assert FieldValues(docs, g) == {} <==> |buckets| == 0;
    }
  }

  lemma {:induction false} EmptyListsOfBuckets(
    g: string, groups: seq<string>, metrics: seq<Metric>, docs: seq<Doc>, buckets: seq<Bucket>)
    requires BucketsAnswer(g, AggregateRequest(groups, metrics, 0), docs, buckets) && BelowCap(docs, groups)
    ensures UniformBuckets(buckets, groups, MetricNames(metrics))
    ensures EmptyListsBelow(buckets, groups, MetricNames(metrics)) == 0 <==>
            forall key | key in KeysOf(buckets) :: PrefixesExtend(MembersOf(docs, [g], [key]), groups)
    decreases buckets
  {
    if buckets != [] {
      var key := buckets[0].key;
      var members := MembersOf(docs, [g], [key]);
      KeyHasMembers(docs, g, key);
      MembersBelowCap(docs, g, key, groups);
      EmptyListsOfAnswer(groups, metrics, members, buckets[0].sub);
      EmptyListsOfBuckets(g, groups, metrics, docs, buckets[1..]);
      assert KeysOf(buckets) == {key} + KeysOf(buckets[1..]);
    }
  }

  /** So the flattening shows exactly the leaves of the answer under the same condition on the documents. */
  lemma AnswerIsFlattened(
    groups: seq<string>, metrics: seq<Metric>, docs: seq<Doc>, aggs: seq<Aggregation>,
    base: Row, order: map<string, nat>)
    requires Answers(AggregateRequest(groups, metrics, 0), docs, aggs)
    requires BelowCap(docs, groups) && (docs != [] || groups == [])
    requires forall m | m in MetricNames(metrics) :: m in order
    ensures Uniform(aggs, groups, MetricNames(metrics))
    ensures Handle(aggs, [base], order)
            == Outcome(LeafRows(base, order, Paths(aggs, groups, MetricNames(metrics))), true)
            <==> PrefixesExtend(docs, groups)
  {
    EmptyListsOfAnswer(groups, metrics, docs, aggs);
    FlattenUniform(aggs, groups, MetricNames(metrics), base, order);
  }

  // ----- The rows

  /** Reads back the cell a path wrote under a name. */
  lemma {:induction false} WriteAllReads(row: Row, order: map<string, nat>, path: seq<Entry>, j: nat)
    requires j < |path|
    requires forall i, k | 0 <= i < k < |path| :: path[i].name != path[k].name
    requires forall m, n | m in order && n in order && m != n :: order[m] != order[n]
    requires path[j].name in order && order[path[j].name] < |row|
    ensures |WriteAll(row, order, path)| == |row|
    ensures WriteAll(row, order, path)[order[path[j].name]] == path[j].cell
    decreases |path|
  {
    var next := Write(row, order, path[0].name, path[0].cell);
    if j > 0 {
      assert path[1..][j - 1] == path[j];
      WriteAllReads(next, order, path[1..], j - 1);
    } else {
      var c := order[path[0].name];
      assert !Covers(order, path[1..], c);
      WriteAllAt(next, next, order, path[1..], c);
    }
  }

  /** The row shows this group: its keys and its metrics, each in the column of its field. */
  ghost predicate ShowsGroup(
    row: Row, order: map<string, nat>, docs: seq<Doc>, groups: seq<string>, metrics: seq<Metric>, tuple: seq<string>)
    requires forall g | g in groups :: g in order && order[g] < |row|
    requires forall i | 0 <= i < |metrics| :: metrics[i].name in order && order[metrics[i].name] < |row|
  {
    && |tuple| == |groups|
    && (forall i | 0 <= i < |groups| :: row[order[groups[i]]] == Key(tuple[i]))
    && (forall i | 0 <= i < |metrics| ::
          row[order[metrics[i].name]] == Num(EsMetric(metrics[i], MembersOf(docs, groups, tuple))))
  }

  lemma PathShowsGroup(
    row: Row, order: map<string, nat>, docs: seq<Doc>, groups: seq<string>, metrics: seq<Metric>, tuple: seq<string>)
    requires |tuple| == |groups|
    requires forall n | n in order :: order[n] < |row|
    requires forall m, n | m in order && n in order && m != n :: order[m] != order[n]
    requires forall n | n in groups + MetricNames(metrics) :: n in order
    requires forall i, j | 0 <= i < j < |groups + MetricNames(metrics)| ::
               (groups + MetricNames(metrics))[i] != (groups + MetricNames(metrics))[j]
    ensures forall g | g in groups :: g in order
    ensures forall i | 0 <= i < |metrics| :: metrics[i].name in order
    ensures var shown := WriteAll(row, order, PathFor(docs, groups, metrics, tuple));
            |shown| == |row| && ShowsGroup(shown, order, docs, groups, metrics, tuple)
  {
    var path := PathFor(docs, groups, metrics, tuple);
    var names := groups + MetricNames(metrics);
    assert forall i | 0 <= i < |path| :: path[i].name == names[i];
    WriteAllWidth(row, order, path);
    forall i | 0 <= i < |path|
      ensures names[i] in order && WriteAll(row, order, path)[order[names[i]]] == path[i].cell
    {
      assert names[i] in names;
      WriteAllReads(row, order, path, i);
    }
    forall i | 0 <= i < |metrics|
      ensures metrics[i].name in order
           && WriteAll(row, order, path)[order[metrics[i].name]] == path[|groups| + i].cell
    {
      assert names[|groups| + i] == metrics[i].name;
    }
    forall i | 0 <= i < |groups| ensures WriteAll(row, order, path)[order[groups[i]]] == path[i].cell {
      assert names[i] == groups[i];
    }
  }

  /**
    GROUP BY end to end: whatever order the server lists its buckets in, flattening its answer
    gives exactly one row per group of the table, with that group's keys and with each metric
    taken over exactly that group's documents.
   */
  lemma GroupByPreserved(
    groups: seq<string>, metrics: seq<Metric>, docs: seq<Doc>, aggs: seq<Aggregation>, fields: seq<string>)
    returns (tuples: seq<seq<string>>)
    requires Answers(AggregateRequest(groups, metrics, 0), docs, aggs)
    requires BelowCap(docs, groups) && HaveFields(docs, groups)
    requires docs != [] || groups == []
    requires forall n | n in groups + MetricNames(metrics) :: n in fields
    requires forall i, j | 0 <= i < j < |groups + MetricNames(metrics)| ::
               (groups + MetricNames(metrics))[i] != (groups + MetricNames(metrics))[j]
    ensures var order, o := OrderOf(fields), Handle(aggs, [Blank(|fields|)], OrderOf(fields));
            && o.ok && |o.lines| == |tuples|
            && (forall i, j | 0 <= i < j < |tuples| :: tuples[i] != tuples[j])
            && (forall t :: t in tuples <==> IsGroup(docs, groups, t))
            && (forall g | g in groups :: g in order)
            && (forall i | 0 <= i < |metrics| :: metrics[i].name in order)
            && (forall i | 0 <= i < |tuples| ::
                  |o.lines[i]| == |fields| && ShowsGroup(o.lines[i], order, docs, groups, metrics, tuples[i]))
  {
    var order, names := OrderOf(fields), MetricNames(metrics);
    tuples := AnswerShowsGroups(groups, metrics, docs, aggs);
    forall m | m in names ensures m in order {
      assert m in groups + names;
    }
    assert forall i | 0 <= i < |metrics| :: names[i] == metrics[i].name && names[i] in names;
    FlattenUniform(aggs, groups, names, Blank(|fields|), order);
    forall i | 0 <= i < |tuples|
      ensures var row := LeafRows(Blank(|fields|), order, Paths(aggs, groups, names))[i];
              && (forall g | g in groups :: g in order) && (forall k | 0 <= k < |metrics| :: metrics[k].name in order)
              && |row| == |fields| && ShowsGroup(row, order, docs, groups, metrics, tuples[i])
    {
      PathShowsGroup(Blank(|fields|), order, docs, groups, metrics, tuples[i]);
    }
    assert tuples != [];
  }

  // ----- The whole query

  function CallNames(calls: seq<AggCall>): seq<string> {
    seq(|calls|, i requires 0 <= i < |calls| => calls[i].name)
  }

  /** A count of rows, or an aggregate of an existing argument. */
  predicate Callable(call: AggCall, inNames: seq<string>) {
    if call.args == [] then call.kind == COUNT else call.args[0] < |inNames|
  }

  /** SQL's value of the call over these documents is NULL. */
  predicate IsNull(call: AggCall, inNames: seq<string>, docs: seq<Doc>)
    requires Callable(call, inNames)
  {
    call.kind in {SUM, MAX, MIN, AVG} && NumValues(docs, inNames[call.args[0]]) == []
  }

  /** The cell of the call shows SQL's value over these documents, exactly when that is not NULL. */
  ghost predicate ShowsCall(row: Row, order: map<string, nat>, call: AggCall, inNames: seq<string>, docs: seq<Doc>) {
    && call.name in order && order[call.name] < |row| && row[order[call.name]].Num? && Callable(call, inNames)
    && (SqlValue(call, inNames, docs, row[order[call.name]].value) <==> !IsNull(call, inNames, docs))
  }

  ghost predicate ShowsSqlRow(
    row: Row, order: map<string, nat>, docs: seq<Doc>, groups: seq<string>, calls: seq<AggCall>, inNames: seq<string>,
    tuple: seq<string>)
  {
    && |tuple| == |groups|
    && (forall i | 0 <= i < |groups| ::
          groups[i] in order && order[groups[i]] < |row| && row[order[groups[i]]] == Key(tuple[i]))
    && (forall i | 0 <= i < |calls| :: ShowsCall(row, order, calls[i], inNames, MembersOf(docs, groups, tuple)))
  }

  /**
    The whole way: the request `Implement` compiles, any answer of the server to it, and the rows
    of the enumerator over that answer. There is one row for each SQL group, which shows the keys
    of the group and SQL's value of every call over it, except that where SQL's value is NULL the
    row shows a number.
   */
  lemma QueryAnswersSql(
    groupSet: seq<nat>, calls: seq<AggCall>, inNames: seq<string>, request: Request,
    docs: seq<Doc>, aggs: seq<Aggregation>, e: AggregationEnumerator)
    returns (tuples: seq<seq<string>>)
    requires forall i | 0 <= i < |groupSet| :: groupSet[i] < |inNames|
    requires exists metrics | Compiled(calls, inNames, metrics) ::
               request == AggregateRequest(GroupNames(groupSet, inNames), metrics, 0)
    requires Answers(request, docs, aggs)
    requires e.Contents() == Handle(aggs, [Blank(|e.fields|)], OrderOf(e.fields)).lines
    requires BelowCap(docs, GroupNames(groupSet, inNames)) && HaveFields(docs, GroupNames(groupSet, inNames))
    requires docs != [] || groupSet == []
    requires forall d | d in docs :: "_index" in d.terms
    requires var names := GroupNames(groupSet, inNames) + CallNames(calls);
             && (forall n | n in names :: n in e.fields)
             && forall i, j | 0 <= i < j < |names| :: names[i] != names[j]
    ensures var groups, rows := GroupNames(groupSet, inNames), e.Contents();
            && |rows| == |tuples|
            && (forall i, j | 0 <= i < j < |tuples| :: tuples[i] != tuples[j])
            && (forall t :: t in tuples <==> IsGroup(docs, groups, t))
            && (forall i | 0 <= i < |tuples| ::
                  ShowsSqlRow(rows[i], OrderOf(e.fields), docs, groups, calls, inNames, tuples[i]))
  {
    var groups, order := GroupNames(groupSet, inNames), OrderOf(e.fields);
    var metrics: seq<Metric> :| Compiled(calls, inNames, metrics) && request == AggregateRequest(groups, metrics, 0);
    CompiledNames(calls, inNames, metrics);
    tuples := GroupByPreserved(groups, metrics, docs, aggs, e.fields);
    var rows := e.Contents();
    forall i | 0 <= i < |tuples| ensures ShowsSqlRow(rows[i], order, docs, groups, calls, inNames, tuples[i]) {
      RowShowsSql(rows[i], order, docs, groups, metrics, calls, inNames, tuples[i]);
    }
  }

  lemma CompiledNames(calls: seq<AggCall>, inNames: seq<string>, metrics: seq<Metric>)
    requires Compiled(calls, inNames, metrics)
    ensures MetricNames(metrics) == CallNames(calls)
  {
    forall i | 0 <= i < |calls| ensures metrics[i].name == calls[i].name {
      assert ToElasticsearch(calls[i], inNames) == Some(metrics[i]);
    }
  }

  lemma RowShowsSql(
    row: Row, order: map<string, nat>, docs: seq<Doc>, groups: seq<string>, metrics: seq<Metric>,
    calls: seq<AggCall>, inNames: seq<string>, tuple: seq<string>)
    requires Compiled(calls, inNames, metrics) && forall d | d in docs :: "_index" in d.terms
    requires forall g | g in groups :: g in order && order[g] < |row|
    requires forall i | 0 <= i < |metrics| :: metrics[i].name in order && order[metrics[i].name] < |row|
    requires ShowsGroup(row, order, docs, groups, metrics, tuple)
    ensures ShowsSqlRow(row, order, docs, groups, calls, inNames, tuple)
  {
    var members := MembersOf(docs, groups, tuple);
    MembersAre(docs, groups, tuple);
    forall i | 0 <= i < |calls| ensures ShowsCall(row, order, calls[i], inNames, members) {
      assert ToElasticsearch(calls[i], inNames) == Some(metrics[i]);
      MetricMeansCall(calls[i], inNames, metrics[i], members);
    }
  }

  /**
    The missing case: a grouped query over an empty table has no group, but the flattening still
    shows one row, the blank one it starts from.
   */
  lemma EmptyTableShowsBlankRow(
    groups: seq<string>, metrics: seq<Metric>, aggs: seq<Aggregation>, fields: seq<string>)
    requires groups != [] && Answers(AggregateRequest(groups, metrics, 0), [], aggs)
    ensures forall t :: !IsGroup([], groups, t)
    ensures Handle(aggs, [Blank(|fields|)], OrderOf(fields)) == Outcome([Blank(|fields|)], true)
  {
    assert FieldValues([], groups[0]) == {};
  }
}
