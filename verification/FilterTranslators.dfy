/**
  The compiler from filter conditions to query clauses. Conditions of one conjunction are gathered
  per field, in a map of equalities and in a hash multimap of everything else, and then merged.
 */
module FilterTranslators {
  import opened Conditions
  import opened LikePatterns
  import opened Results

  // ----- One comparison

  type Pair = (Op, Literal)

  /** A comparison in normal form: the field on the left. */
  datatype Cond = Eq(field: string, literal: Literal) | Cmp(field: string, op: Op, literal: Literal)

  /** The operator, and the operator with its operands exchanged; an equality has none. */
  function OpsOf(kind: Kind): Option<(Option<Op>, Option<Op>)> {
    match kind
    case EQUALS => Some((None, None))
    case LESS_THAN => Some((Some(Lt), Some(Gt)))
    case LESS_THAN_OR_EQUAL => Some((Some(Lte), Some(Gte)))
    case NOT_EQUALS => Some((Some(Not), Some(Not)))
    case GREATER_THAN => Some((Some(Gt), Some(Lt)))
    case GREATER_THAN_OR_EQUAL => Some((Some(Gte), Some(Lte)))
    case LIKE => Some((Some(Wild), Some(Wild)))
    case OTHER => None
  }

  /** The field an operand stands for. A literal stands for the field its text names. */
  function FieldOf(e: Rex, fieldNames: seq<string>): Option<string> {
    match e
    case InputRef(i) => if i < |fieldNames| then Some(fieldNames[i]) else None
    case Lit(l) => Some(l.image)
    case Cast(operand, _) => FieldOf(operand, fieldNames)
    case Item(name) => Some(name)
    case Function => None
  }

  function CondOf(op: Option<Op>, left: Rex, right: Rex, fieldNames: seq<string>): Option<Cond> {
    var field := FieldOf(left, fieldNames);
    if !right.Lit? || field.None? then None
    else if op.None? then Some(Eq(field.value, right.literal))
    else Some(Cmp(field.value, op.value, right.literal))
  }

  /** None where the original throws. */
  function TranslateCall(call: Call, fieldNames: seq<string>): Option<Cond> {
    var ops := OpsOf(call.kind);
    if ops.None? then None
    else
      var direct := CondOf(ops.value.0, call.left, call.right, fieldNames);
      if direct.Some? then direct else CondOf(ops.value.1, call.right, call.left, fieldNames)
  }

  // ----- One conjunction

  /** The last equality on a field. */
  function LastEq(conds: seq<Cond>, field: string): Option<Literal> {
    if conds == [] then None
    else
      var last := conds[|conds| - 1];
      if last.Eq? && last.field == field then Some(last.literal) else LastEq(conds[..|conds| - 1], field)
  }

  /** The other conditions on a field, without duplicates. */
  function PairsOf(conds: seq<Cond>, field: string): set<Pair> {
    set i | 0 <= i < |conds| && conds[i].Cmp? && conds[i].field == field :: (conds[i].op, conds[i].literal)
  }

  function PatternText(l: Literal): string {
    if l.value.Text? then l.value.s else l.image
  }

  /** Is the first value the stronger bound? */
  predicate Stronger(op: Op, v0: Value, v1: Value) {
    match op
    case Lt => Less(v0, v1)
    case Lte => Less(v0, v1)
    case Gt => Less(v1, v0)
    case Gte => Less(v1, v0)
    case _ => false
  }

  function AddPredicate(bounds: map<Op, Value>, op: Op, v: Value): map<Op, Value> {
    if op in bounds && Stronger(op, bounds[op], v) then bounds else bounds[op := v]
  }

  function AddPair(c: Clause, pair: Pair): Clause
    requires c.Multi?
  {
    var (op, literal) := pair;
    match op
    case Not => c.(named := Some(literal.value), hasNot := true)
    case Wild => c.(wildcard := Some(ToWildcard(PatternText(literal))))
    case _ => c.(bounds := AddPredicate(c.bounds, op, literal.value), hasRange := true)
  }

  /** The clause of a field whose pairs are met in this order. */
  function Fold(field: string, order: seq<Pair>): (c: Clause)
    ensures c.Multi? && c.field == field
  {
    if order == [] then Multi(field, false, false, None, None, map[])
    else AddPair(Fold(field, order[..|order| - 1]), order[|order| - 1])
  }

  ghost predicate Enumerates(order: seq<Pair>, pairs: set<Pair>) {
    (forall p :: p in order <==> p in pairs) && forall i, j | 0 <= i < j < |order| :: order[i] != order[j]
  }

  /** A field with an equality becomes a term query; any other is merged, in an order the hash map decides. */
  ghost predicate ClauseOf(conds: seq<Cond>, c: Clause) {
    match c
    case Term(field, value) => LastEq(conds, field).Some? && value == LastEq(conds, field).value.value
    case Multi(field, _, _, _, _, _) =>
      && LastEq(conds, field).None? && PairsOf(conds, field) != {}
      && exists order | Enumerates(order, PairsOf(conds, field)) :: c == Fold(field, order)
  }

  ghost predicate Compiles(conds: seq<Cond>, clauses: seq<Clause>) {
    && (forall i | 0 <= i < |clauses| :: ClauseOf(conds, clauses[i]))
    && (forall i | 0 <= i < |conds| :: HasField(clauses, conds[i].field))
  }

  ghost predicate HasField(clauses: seq<Clause>, field: string) {
    exists k | 0 <= k < |clauses| :: clauses[k].field == field
  }

  ghost predicate CondsOf(calls: seq<Call>, fieldNames: seq<string>, conds: seq<Cond>) {
    |conds| == |calls| && forall i | 0 <= i < |calls| :: TranslateCall(calls[i], fieldNames) == Some(conds[i])
  }

  ghost predicate Translates(or: seq<seq<Call>>, fieldNames: seq<string>, q: Query) {
    if |or| == 1 then TranslatesAnd(or[0], fieldNames, q)
    else q.Should? && |q.queries| == |or| && forall i | 0 <= i < |or| :: TranslatesAnd(or[i], fieldNames, q.queries[i])
  }

  ghost predicate TranslatesAnd(calls: seq<Call>, fieldNames: seq<string>, q: Query) {
    q.Must? && exists conds | CondsOf(calls, fieldNames, conds) :: Compiles(conds, q.clauses)
  }

  ghost predicate EqualitiesOf(conds: seq<Cond>, eqMap: map<string, Literal>, eqOrder: seq<string>) {
    && (forall f :: f in eqMap <==> LastEq(conds, f).Some?)
    && (forall f | f in eqMap :: eqMap[f] == LastEq(conds, f).value)
    && (forall f :: f in eqOrder <==> f in eqMap)
  }

  ghost predicate OthersOf(conds: seq<Cond>, multimap: map<string, set<Pair>>) {
    && (forall f :: f in multimap <==> PairsOf(conds, f) != {})
    && (forall f | f in multimap :: multimap[f] == PairsOf(conds, f))
  }

  class Translator {
    const fieldNames: seq<string>
    var eqMap: map<string, Literal>
    var eqOrder: seq<string>                // the insertion order of `eqMap`
    var multimap: map<string, set<Pair>>
    ghost var conds: seq<Cond>              // what has been gathered

    constructor (fieldNames: seq<string>)
      ensures this.fieldNames == fieldNames && Valid() && conds == []
    {
      this.fieldNames := fieldNames;
      eqMap, eqOrder, multimap, conds := map[], [], map[], [];
    }

    ghost predicate Valid()
      reads this
    {
      EqualitiesOf(conds, eqMap, eqOrder) && OthersOf(conds, multimap)
    }

    method TranslateOp2(op: Option<Op>, name: string, right: Literal)
      requires Valid()
      modifies this
      ensures Valid()
      ensures conds == old(conds) + [if op.None? then Eq(name, right) else Cmp(name, op.value, right)]
    {
      ghost var cond := if op.None? then Eq(name, right) else Cmp(name, op.value, right);
      if op.None? {
        EqualitySnoc(conds, cond, eqMap, eqOrder, multimap);
        if name !in eqMap {
          eqOrder := eqOrder + [name];
        }
        eqMap := eqMap[name := right];
      } else {
        OtherSnoc(conds, cond, eqMap, eqOrder, multimap);
        var pairs := if name in multimap then multimap[name] else {};
        multimap := multimap[name := pairs + {(op.value, right)}];
      }
      conds := conds + [cond];
    }

    method TranslateBinary2(op: Option<Op>, left: Rex, right: Rex) returns (done: bool)
      requires Valid()
      modifies this
      ensures Valid() && done == CondOf(op, left, right, fieldNames).Some?
      ensures conds == old(conds) + if done then [CondOf(op, left, right, fieldNames).value] else []
      decreases left
    {
      if !right.Lit? {
        return false;
      }
      match left
      case Lit(l) =>
        TranslateOp2(op, l.image, right.literal);
        return true;
      case InputRef(i) =>
        if i >= |fieldNames| {
          return false;
        }
        TranslateOp2(op, fieldNames[i], right.literal);
        return true;
      case Cast(operand, _) =>
        done := TranslateBinary2(op, operand, right);
      case Item(name) =>
        TranslateOp2(op, name, right.literal);
        return true;
      case Function =>
        return false;
    }

    method TranslateMatch2(call: Call) returns (ok: bool)
      requires Valid()
      modifies this
      ensures Valid() && ok == TranslateCall(call, fieldNames).Some?
      ensures ok ==> conds == old(conds) + [TranslateCall(call, fieldNames).value]
    {
      var ops := OpsOf(call.kind);
      if ops.None? {
        return false;
      }
      ok := TranslateBinary2(ops.value.0, call.left, call.right);
      if !ok {
        ok := TranslateBinary2(ops.value.1, call.right, call.left);
      }
    }

    method TranslateAnd(calls: seq<Call>) returns (r: Option<seq<Clause>>)
      modifies this
      ensures r.None? ==> exists i | 0 <= i < |calls| :: TranslateCall(calls[i], fieldNames).None?
      ensures r.Some? ==> CondsOf(calls, fieldNames, conds) && Compiles(conds, r.value)
    {
      eqMap, eqOrder, multimap, conds := map[], [], map[], [];
      for i := 0 to |calls|
        invariant Valid() && CondsOf(calls[..i], fieldNames, conds)
      {
        var ok := TranslateMatch2(calls[i]);
        if !ok {
          return None;
        }
      }
      assert calls[..|calls|] == calls;
      var filters := EqualityClauses();
      var rest := RangeClauses();
      JoinedClauses(conds, filters, rest);
      return Some(filters + rest);
    }

    /** The loop over `eqMap`: an equality erases every other condition on its field. */
    method EqualityClauses() returns (filters: seq<Clause>)
      requires Valid()
      modifies this`multimap
      ensures forall k | 0 <= k < |filters| :: ClauseOf(conds, filters[k])
      ensures forall f | LastEq(conds, f).Some? :: HasField(filters, f)
      ensures forall f :: f in multimap <==> PairsOf(conds, f) != {} && LastEq(conds, f).None?
      ensures forall f | f in multimap :: multimap[f] == PairsOf(conds, f)
    {
      filters := [];
      for i := 0 to |eqOrder|
        invariant |filters| == i
        invariant forall f :: f in multimap <==> f in old(multimap) && f !in eqOrder[..i]
        invariant forall f | f in multimap :: multimap[f] == old(multimap)[f]
        invariant forall k | 0 <= k < i :: filters[k].field == eqOrder[k] && ClauseOf(conds, filters[k])
      {
        assert eqOrder[i] in eqMap;
        assert eqOrder[..i + 1] == eqOrder[..i] + [eqOrder[i]];
        multimap := multimap - {eqOrder[i]};
        filters := filters + [Term(eqOrder[i], eqMap[eqOrder[i]].value)];
      }
      assert eqOrder[..|eqOrder|] == eqOrder;
      EveryFieldHasClause(eqOrder, filters);
    }

    /** The loop over the fields left in the multimap, in an arbitrary order. */
    method RangeClauses() returns (filters: seq<Clause>)
      requires forall f :: f in multimap <==> PairsOf(conds, f) != {} && LastEq(conds, f).None?
      requires forall f | f in multimap :: multimap[f] == PairsOf(conds, f)
      ensures forall k | 0 <= k < |filters| :: ClauseOf(conds, filters[k])
      ensures forall f | f in multimap :: HasField(filters, f)
    {
      filters := [];
      var fields := multimap.Keys;
      while fields != {}
        invariant fields <= multimap.Keys
        invariant forall k | 0 <= k < |filters| :: ClauseOf(conds, filters[k])
        invariant forall f | f in multimap && f !in fields :: HasField(filters, f)
        decreases fields
      {
        var f :| f in fields;
        var clause, order := MergePairs(f, multimap[f]);
        HasFieldSnoc(filters, clause);
        filters, fields := filters + [clause], fields - {f};
      }
    }

    /** The inner loop: the pairs of one field, in an arbitrary order. */
    method MergePairs(field: string, pairs: set<Pair>) returns (clause: Clause, ghost order: seq<Pair>)
      ensures Enumerates(order, pairs) && clause == Fold(field, order)
    {
      clause, order := Multi(field, false, false, None, None, map[]), [];
      var rest := pairs;
      while rest != {}
        invariant rest <= pairs && Enumerates(order, pairs - rest)
        invariant clause.Multi? && clause == Fold(field, order)
        decreases rest
      {
        var p :| p in rest;
        clause := AddPair(clause, p);
        assert (order + [p])[..|order|] == order;
        rest, order := rest - {p}, order + [p];
      }
      assert pairs - rest == pairs;
    }

    /** None where the original throws: a call it cannot translate, an empty conjunction or disjunction. */
    method TranslateOr(or: seq<seq<Call>>) returns (r: Option<Query>)
      modifies this
      ensures r.Some? ==> or != [] && Translates(or, fieldNames, r.value)
      ensures r.None? ==> or == [] || exists i | 0 <= i < |or| ::
                or[i] == [] || exists k | 0 <= k < |or[i]| :: TranslateCall(or[i][k], fieldNames).None?
    {
      var list: seq<Query> := [];
      for i := 0 to |or|
        invariant |list| == i
        invariant forall k | 0 <= k < i :: TranslatesAnd(or[k], fieldNames, list[k])
      {
        var andNodes := TranslateAnd(or[i]);
        if andNodes.None? {
          return None;
        }
        if |andNodes.value| == 0 {
          NonEmptyCompiles(conds, andNodes.value);
          return None;
        }
        assert TranslatesAnd(or[i], fieldNames, Must(andNodes.value));
        list := list + [Must(andNodes.value)];
      }
      if |or| == 0 {
        return None;
      }
      return Some(if |or| > 1 then Should(list) else list[0]);
    }
  }

  lemma HasFieldSnoc(clauses: seq<Clause>, clause: Clause)
    ensures forall f :: HasField(clauses + [clause], f) <==> HasField(clauses, f) || clause.field == f
  {
    var all := clauses + [clause];
    assert all[|clauses|] == clause;
    forall f | HasField(clauses, f) ensures HasField(all, f) {
      var k :| 0 <= k < |clauses| && clauses[k].field == f;
      assert all[k].field == f;
    }
  }

  lemma EveryFieldHasClause(fields: seq<string>, clauses: seq<Clause>)
    requires |clauses| == |fields| && forall k | 0 <= k < |fields| :: clauses[k].field == fields[k]
    ensures forall f | f in fields :: HasField(clauses, f)
  {
    forall f | f in fields ensures HasField(clauses, f) {
      var k :| 0 <= k < |fields| && fields[k] == f;
      assert clauses[k].field == f;
    }
  }

  lemma JoinedClauses(conds: seq<Cond>, filters: seq<Clause>, rest: seq<Clause>)
    requires forall k | 0 <= k < |filters| :: ClauseOf(conds, filters[k])
    requires forall k | 0 <= k < |rest| :: ClauseOf(conds, rest[k])
    requires forall f | LastEq(conds, f).Some? :: HasField(filters, f)
    requires forall f | LastEq(conds, f).None? && PairsOf(conds, f) != {} :: HasField(rest, f)
    ensures Compiles(conds, filters + rest)
  {
    var all := filters + rest;
    forall i | 0 <= i < |conds| ensures HasField(all, conds[i].field) {
      CondIsGathered(conds, i);
      var f := conds[i].field;
      if HasField(filters, f) {
        var k :| 0 <= k < |filters| && filters[k].field == f;
        assert all[k].field == f;
      } else {
        var k :| 0 <= k < |rest| && rest[k].field == f;
        assert all[|filters| + k].field == f;
      }
    }
  }

  lemma NonEmptyCompiles(conds: seq<Cond>, clauses: seq<Clause>)
    requires Compiles(conds, clauses)
    ensures conds != [] ==> clauses != []
  {
    if conds != [] {
      assert HasField(clauses, conds[0].field);
    }
  }

  lemma EqualitySnoc(
    conds: seq<Cond>, cond: Cond, eqMap: map<string, Literal>, eqOrder: seq<string>, multimap: map<string, set<Pair>>)
    requires cond.Eq? && EqualitiesOf(conds, eqMap, eqOrder) && OthersOf(conds, multimap)
    ensures EqualitiesOf(conds + [cond], eqMap[cond.field := cond.literal],
                         if cond.field in eqMap then eqOrder else eqOrder + [cond.field])
    ensures OthersOf(conds + [cond], multimap)
  {
    forall f {
      PairsOfSnoc(conds, cond, f);
    }
    assert (conds + [cond])[..|conds|] == conds;
  }

  lemma OtherSnoc(
    conds: seq<Cond>, cond: Cond, eqMap: map<string, Literal>, eqOrder: seq<string>, multimap: map<string, set<Pair>>)
    requires cond.Cmp? && EqualitiesOf(conds, eqMap, eqOrder) && OthersOf(conds, multimap)
    ensures EqualitiesOf(conds + [cond], eqMap, eqOrder)
    ensures var pairs := if cond.field in multimap then multimap[cond.field] else {};
            OthersOf(conds + [cond], multimap[cond.field := pairs + {(cond.op, cond.literal)}])
  {
    forall f {
      PairsOfSnoc(conds, cond, f);
    }
    assert (conds + [cond])[..|conds|] == conds;
  }

  lemma PairsOfSnoc(conds: seq<Cond>, cond: Cond, field: string)
    ensures PairsOf(conds + [cond], field) ==
            PairsOf(conds, field) + if cond.Cmp? && cond.field == field then {(cond.op, cond.literal)} else {}
  {
    var all := conds + [cond];
    forall p | p in PairsOf(conds, field) ensures p in PairsOf(all, field) {
      var i :| 0 <= i < |conds| && conds[i].Cmp? && conds[i].field == field && p == (conds[i].op, conds[i].literal);
      assert all[i] == conds[i];
    }
    if cond.Cmp? && cond.field == field {
      assert all[|conds|] == cond;
    }
  }

  lemma {:induction false} CondIsGathered(conds: seq<Cond>, i: nat)
    requires i < |conds|
    ensures conds[i].Eq? ==> LastEq(conds, conds[i].field).Some?
    ensures conds[i].Cmp? ==> (conds[i].op, conds[i].literal) in PairsOf(conds, conds[i].field)
  {
    if conds[i].Eq? && i < |conds| - 1 {
      CondIsGathered(conds[..|conds| - 1], i);
    }
  }
}
