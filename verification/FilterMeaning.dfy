/**
  What the compiled filter means: which rows it never loses, and on a fragment exactly which rows it
  selects and when these are the rows that satisfy the condition.
 */
module FilterMeaning {
  import opened BoundMerging
  import opened Conditions
  import opened FilterTranslators
  import opened LikePatterns
  import opened Results

  // ----- What a merged clause came from

  ghost predicate HasOp(order: seq<Pair>, op: Op) {
    exists p | p in order :: p.0 == op
  }

  ghost predicate MetPattern(order: seq<Pair>, w: string) {
    exists p | p in order :: p.0 == Wild && ToWildcard(PatternText(p.1)) == w
  }

  /** Every part of a merged clause is one of the pairs. */
  ghost predicate PartsFrom(c: Clause, order: seq<Pair>)
    requires c.Multi?
  {
    && (c.hasNot <==> HasOp(order, Not)) && (c.wildcard.Some? <==> HasOp(order, Wild))
    && (c.hasRange <==> exists p | p in order :: IsRange(p.0))
    && (c.hasNot ==> c.named.Some? && Met(order, Not, c.named.value))
    && (c.wildcard.Some? ==> MetPattern(order, c.wildcard.value))
    && (forall op | op in c.bounds :: IsRange(op) && Met(order, op, c.bounds[op]))
  }

  lemma {:induction false} FoldParts(field: string, order: seq<Pair>)
    ensures PartsFrom(Fold(field, order), order)
  {
    if order != [] {
      var n := |order| - 1;
      FoldParts(field, order[..n]);
      PartsSnoc(Fold(field, order[..n]), order[..n], order[n]);
      assert order == order[..n] + [order[n]];
    }
  }

  lemma PartsSnoc(c: Clause, order: seq<Pair>, pair: Pair)
    requires c.Multi? && PartsFrom(c, order)
    ensures PartsFrom(AddPair(c, pair), order + [pair])
  {
    var all := order + [pair];
    MetSnoc(order, pair);
    assert forall p :: p in all <==> p in order || p == pair;
  }

  // ----- One comparison

  predicate HoldsOp(op: Op, v: Value, l: Literal) {
    match op
    case Not => v != l.value
    case Wild => v.Text? && l.value.Text? && Like(l.value.s, v.s)
    case _ => Within(v, op, l.value)
  }

  predicate HoldsCond(cond: Cond, row: Row) {
    cond.field in row && match cond
                         case Eq(field, literal) => row[field] == literal.value
                         case Cmp(field, op, literal) => HoldsOp(op, row[field], literal)
  }

  /** What a compiled `<>` asks for: SQL rejects a row without the field, the query keeps it. */
  predicate Lenient(cond: Cond, row: Row) {
    HoldsCond(cond, row) || (cond.Cmp? && cond.op == Not && cond.field !in row)
  }

  predicate OverField(e: Rex) {
    match e
    case InputRef(_) => true
    case Item(_) => true
    case Cast(operand, _) => OverField(operand)
    case _ => false
  }

  /** A field on one side and a literal on the other; the pattern of a LIKE on the right. */
  predicate FieldLiteral(call: Call) {
    || (call.right.Lit? && OverField(call.left))
    || (call.kind != LIKE && call.left.Lit? && OverField(call.right))
  }

  /** What the casts around a field make of its value. */
  function Converted(e: Rex, v: Value): Value {
    if e.Cast? then e.conv(Converted(e.operand, v)) else v
  }

  /** The comparison is the same for a value as for what the casts make of it. */
  ghost predicate Transparent(call: Call) {
    && (call.right.Lit? ==> var l := call.right.literal.value;
          forall v :: Compare(call.kind, Converted(call.left, v), l) <==> Compare(call.kind, v, l))
    && (call.left.Lit? ==> var l := call.left.literal.value;
          forall v :: Compare(call.kind, l, Converted(call.right, v)) <==> Compare(call.kind, l, v))
  }

  lemma {:induction false} FieldOfMeaning(e: Rex, fieldNames: seq<string>, row: Row)
    requires OverField(e) && FieldOf(e, fieldNames).Some?
    ensures var f := FieldOf(e, fieldNames).value;
            Eval(e, fieldNames, row) == if f in row then Some(Converted(e, row[f])) else None
  {
    if e.Cast? {
      FieldOfMeaning(e.operand, fieldNames, row);
    }
  }

  /** What the comparison says of the value its casts are applied to. */
  predicate HoldsFor(call: Call, v: Value) {
    if call.right.Lit? then Compare(call.kind, Converted(call.left, v), call.right.literal.value)
    else call.left.Lit? && Compare(call.kind, call.left.literal.value, Converted(call.right, v))
  }

  lemma HoldsOfField(call: Call, fieldNames: seq<string>, cond: Cond, row: Row)
    requires FieldLiteral(call) && TranslateCall(call, fieldNames) == Some(cond)
    ensures Holds(call, fieldNames, row) <==> cond.field in row && HoldsFor(call, row[cond.field])
    ensures Eval(call.left, fieldNames, row).None? || Eval(call.right, fieldNames, row).None? <==> cond.field !in row
  {
    if call.right.Lit? {
      assert FieldOf(call.left, fieldNames) == Some(cond.field);
      FieldOfMeaning(call.left, fieldNames, row);
    } else {
      FieldOfMeaning(call.right, fieldNames, row);
    }
  }

  lemma ComparesAsCond(call: Call, fieldNames: seq<string>, cond: Cond, row: Row)
    requires FieldLiteral(call) && TranslateCall(call, fieldNames) == Some(cond) && cond.field in row
    ensures var v := row[cond.field];
            if call.right.Lit? then Compare(call.kind, v, call.right.literal.value) <==> HoldsCond(cond, row)
            else call.left.Lit? && (Compare(call.kind, call.left.literal.value, v) <==> HoldsCond(cond, row))
  {
  }

  lemma CallMeansCondAt(call: Call, fieldNames: seq<string>, cond: Cond, row: Row)
    requires FieldLiteral(call) && Transparent(call) && TranslateCall(call, fieldNames) == Some(cond)
    ensures Holds(call, fieldNames, row) <==> HoldsCond(cond, row)
  {
    HoldsOfField(call, fieldNames, cond, row);
    if cond.field in row {
      ComparesAsCond(call, fieldNames, cond, row);
    }
  }

  /**
    Reversed operands included, the normal form means what the comparison means, on every row, if and
    only if the casts it drops make no difference to the comparison.
   */
  lemma CallMeansCond(call: Call, fieldNames: seq<string>, cond: Cond)
    requires FieldLiteral(call) && TranslateCall(call, fieldNames) == Some(cond)
    ensures (forall row :: Holds(call, fieldNames, row) <==> HoldsCond(cond, row)) <==> Transparent(call)
  {
    if Transparent(call) {
      forall row ensures Holds(call, fieldNames, row) <==> HoldsCond(cond, row) {
        CallMeansCondAt(call, fieldNames, cond, row);
      }
    }
    if forall row :: Holds(call, fieldNames, row) <==> HoldsCond(cond, row) {
      forall v ensures
          if call.right.Lit? then HoldsFor(call, v) <==> Compare(call.kind, v, call.right.literal.value)
          else call.left.Lit? && (HoldsFor(call, v) <==> Compare(call.kind, call.left.literal.value, v))
      {
        var row := map[cond.field := v];
        assert Holds(call, fieldNames, row) <==> HoldsCond(cond, row);
        HoldsOfField(call, fieldNames, cond, row);
        ComparesAsCond(call, fieldNames, cond, row);
      }
    }
  }

  /** A comparison of a field with a literal, under casts that make no difference to it. */
  ghost predicate Plainly(call: Call) {
    FieldLiteral(call) && Transparent(call)
  }

  // ----- The conditions of one field

  ghost predicate Unmixed(pairs: set<Pair>) {
    forall p, q | p in pairs && q in pairs :: !(p.0 == Not && IsRange(q.0))
  }

  ghost predicate KeepsPatterns(pairs: set<Pair>) {
    forall p | p in pairs && p.0 == Wild :: p.1.value.Text? && Kept(p.1.value.s)
  }

  /** A field without an equality does not mix `<>` with bounds, and its LIKE patterns lose no text. */
  ghost predicate KeepsRows(conds: seq<Cond>) {
    forall f | LastEq(conds, f).None? :: Unmixed(PairsOf(conds, f)) && KeepsPatterns(PairsOf(conds, f))
  }

  /** All conditions of a field hold. */
  ghost predicate AllHold(conds: seq<Cond>, f: string, row: Row) {
    forall i | 0 <= i < |conds| && conds[i].field == f :: HoldsCond(conds[i], row)
  }

  ghost predicate AllLenient(conds: seq<Cond>, f: string, row: Row) {
    forall i | 0 <= i < |conds| && conds[i].field == f :: Lenient(conds[i], row)
  }

  /**
    An equality at whose value every condition of the field holds; or else bounds that agree, one and
    the same `<>`, one and the same plain LIKE, and not `<>` with bounds.
   */
  ghost predicate Simple(conds: seq<Cond>, f: string) {
    if LastEq(conds, f).Some? then
      AllHold(conds, f, map[f := LastEq(conds, f).value.value])
    else
      var pairs := PairsOf(conds, f);
      && Unmixed(pairs) && Agreeing(pairs)
      && (forall p, q | p in pairs && q in pairs && p.0 == q.0 == Not :: p.1.value == q.1.value)
      && (forall p, q | p in pairs && q in pairs && p.0 == q.0 == Wild ::
            p.1.value == q.1.value && p.1.value.Text? && Plain(p.1.value.s))
  }

  lemma {:induction false} LastEqIsThere(conds: seq<Cond>, f: string) returns (i: nat)
    requires LastEq(conds, f).Some?
    ensures i < |conds| && conds[i] == Eq(f, LastEq(conds, f).value)
  {
    i := |conds| - 1;
    if conds[i] != Eq(f, LastEq(conds, f).value) {
      i := LastEqIsThere(conds[..i], f);
    }
  }

  lemma PairIsLenient(conds: seq<Cond>, row: Row, f: string, p: Pair)
    requires AllLenient(conds, f, row) && p in PairsOf(conds, f)
    ensures if f in row then HoldsOp(p.0, row[f], p.1) else p.0 == Not
  {
    var i :| 0 <= i < |conds| && conds[i].Cmp? && conds[i].field == f && p == (conds[i].op, conds[i].literal);
    assert Lenient(conds[i], row);
  }

  /** A condition looks at its field only. */
  lemma HoldsByField(cond: Cond, row: Row, other: Row)
    requires cond.field in row && cond.field in other && row[cond.field] == other[cond.field]
    ensures HoldsCond(cond, row) <==> HoldsCond(cond, other)
  {
  }

  /** The body of a clause is well formed if and only if its field does not mix `<>` with bounds. */
  lemma WellFormedIffUnmixed(conds: seq<Cond>, c: Clause)
    requires ClauseOf(conds, c) && c.Multi?
    ensures WellFormedClause(c) <==> Unmixed(PairsOf(conds, c.field))
  {
    var order: seq<Pair> :| Enumerates(order, PairsOf(conds, c.field)) && c == Fold(c.field, order);
    FoldParts(c.field, order);
    if c.hasNot && c.hasRange {
      var p :| p in order && p.0 == Not;
      var q :| q in order && IsRange(q.0);
      assert p in PairsOf(conds, c.field) && q in PairsOf(conds, c.field);
    }
    if p, q :| p in PairsOf(conds, c.field) && q in PairsOf(conds, c.field) && p.0 == Not && IsRange(q.0) {
      assert p in order && q in order;
    }
  }

  /** A field that mixes `<>` with a bound compiles to a malformed clause: every row is lost. */
  lemma MixedFieldLosesRows(conds: seq<Cond>, c: Clause, row: Row)
    requires ClauseOf(conds, c) && c.Multi? && !Unmixed(PairsOf(conds, c.field))
    ensures !MatchesClause(c, row)
  {
    WellFormedIffUnmixed(conds, c);
  }

  /** A row that meets the conditions of a field, leniently, is selected by their clause. */
  lemma ClauseKeepsRow(conds: seq<Cond>, c: Clause, row: Row)
    requires ClauseOf(conds, c) && AllLenient(conds, c.field, row)
    requires c.Multi? ==> Unmixed(PairsOf(conds, c.field)) && KeepsPatterns(PairsOf(conds, c.field))
    ensures MatchesClause(c, row)
  {
    match c
    case Term(f, _) =>
      var i := LastEqIsThere(conds, f);
      assert Lenient(conds[i], row);
    case Multi(f, _, _, _, _, _) =>
      var order: seq<Pair> :| Enumerates(order, PairsOf(conds, f)) && c == Fold(f, order);
      WellFormedIffUnmixed(conds, c);
      forall p | p in order
        ensures if f in row then HoldsOp(p.0, row[f], p.1) else p.0 == Not
        ensures p.0 == Wild ==> p.1.value.Text? && Kept(p.1.value.s)
      {
        assert p in PairsOf(conds, f);
        PairIsLenient(conds, row, f, p);
      }
      FoldKeepsRow(c, order, row);
  }

  lemma FoldKeepsRow(c: Clause, order: seq<Pair>, row: Row)
    requires c.Multi? && c == Fold(c.field, order) && WellFormedClause(c)
    requires forall p | p in order :: if c.field in row then HoldsOp(p.0, row[c.field], p.1) else p.0 == Not
    requires forall p | p in order && p.0 == Wild :: p.1.value.Text? && Kept(p.1.value.s)
    ensures MatchesClause(c, row)
  {
    var f := c.field;
    FoldParts(f, order);
    if c.hasNot {
      assert Met(order, Not, c.named.value);
    }
    if c.wildcard.Some? {
      var p :| p in order && p.0 == Wild && ToWildcard(PatternText(p.1)) == c.wildcard.value;
      assert Like(p.1.value.s, row[f].s);
    }
    if c.hasRange {
      var q :| q in order && IsRange(q.0);
      forall op | op in c.bounds ensures Within(row[f], op, c.bounds[op]) {
        assert Met(order, op, c.bounds[op]);
      }
    }
  }

  /** On a simple field, a row its clause selects meets each of its conditions, leniently. */
  lemma ClauseIsExact(conds: seq<Cond>, c: Clause, row: Row, i: nat)
    requires ClauseOf(conds, c) && Simple(conds, c.field) && MatchesClause(c, row)
    requires i < |conds| && conds[i].field == c.field
    ensures Lenient(conds[i], row)
  {
    match c
    case Term(f, v) =>
      HoldsByField(conds[i], row, map[f := v]);
    case Multi(f, _, _, _, _, _) =>
      CondIsGathered(conds, i);
      var order: seq<Pair> :| Enumerates(order, PairsOf(conds, f)) && c == Fold(f, order);
      PairIsKept(conds, c, order, row, (conds[i].op, conds[i].literal));
  }

  lemma PairIsKept(conds: seq<Cond>, c: Clause, order: seq<Pair>, row: Row, p: Pair)
    requires c.Multi? && LastEq(conds, c.field).None? && Simple(conds, c.field) && MatchesClause(c, row)
    requires Enumerates(order, PairsOf(conds, c.field)) && c == Fold(c.field, order) && p in order
    ensures if c.field in row then HoldsOp(p.0, row[c.field], p.1) else p.0 == Not
  {
    var f, pairs := c.field, PairsOf(conds, c.field);
    FoldParts(f, order);
    assert p in pairs;
    match p.0
    case Not =>
      assert Met(order, Not, c.named.value);
    case Wild =>
      var q :| q in order && q.0 == Wild && ToWildcard(PatternText(q.1)) == c.wildcard.value;
      assert q in pairs;
      PlainIsExact(p.1.value.s, row[f].s);
    case _ =>
      EnumeratedAgree(order, pairs);
      BoundIsKept(c, order, row, p);
  }

  lemma BoundIsKept(c: Clause, order: seq<Pair>, row: Row, p: Pair)
    requires c.Multi? && c == Fold(c.field, order) && AllAgree(order) && MatchesClause(c, row)
    requires p in order && IsRange(p.0)
    ensures c.field in row && HoldsOp(p.0, row[c.field], p.1)
  {
    FoldParts(c.field, order);
    FoldKeepsStrongest(c.field, order);
    assert Within(row[c.field], p.0, c.bounds[p.0]);
    WithinStronger(row[c.field], p.0, c.bounds[p.0], p.1.value);
  }

  lemma WithinStronger(v: Value, op: Op, strong: Value, weak: Value)
    requires IsRange(op) && Within(v, op, strong) && (strong == weak || Stronger(op, strong, weak))
    ensures Within(v, op, weak)
  {
    ValueOrder(v, strong, weak);
    ValueOrder(weak, strong, v);
  }

  lemma SimpleKeepsRows(conds: seq<Cond>, f: string)
    requires Simple(conds, f) && LastEq(conds, f).None?
    ensures Unmixed(PairsOf(conds, f)) && KeepsPatterns(PairsOf(conds, f))
  {
    forall p | p in PairsOf(conds, f) && p.0 == Wild ensures p.1.value.Text? && Kept(p.1.value.s) {
      NoEscapeIsKept(p.1.value.s);
    }
  }

  /** The compiled conjunction selects the rows that meet every condition, leniently. */
  lemma ClausesMeanLenient(conds: seq<Cond>, clauses: seq<Clause>, row: Row)
    requires Compiles(conds, clauses) && forall f :: Simple(conds, f)
    ensures (forall k | 0 <= k < |clauses| :: MatchesClause(clauses[k], row))
            <==> (forall i | 0 <= i < |conds| :: Lenient(conds[i], row))
  {
    if forall k | 0 <= k < |clauses| :: MatchesClause(clauses[k], row) {
      forall i | 0 <= i < |conds| ensures Lenient(conds[i], row) {
        assert HasField(clauses, conds[i].field);
        var k :| 0 <= k < |clauses| && clauses[k].field == conds[i].field;
        assert MatchesClause(clauses[k], row) && Simple(conds, conds[i].field);
        ClauseIsExact(conds, clauses[k], row, i);
      }
    }
    if forall i | 0 <= i < |conds| :: Lenient(conds[i], row) {
      forall k | 0 <= k < |clauses| ensures MatchesClause(clauses[k], row) {
        assert Simple(conds, clauses[k].field);
        if clauses[k].Multi? {
          SimpleKeepsRows(conds, clauses[k].field);
        }
        ClauseKeepsRow(conds, clauses[k], row);
      }
    }
  }

  // ----- The whole filter

  ghost predicate Keeps(calls: seq<Call>, fieldNames: seq<string>) {
    && (forall i | 0 <= i < |calls| :: Plainly(calls[i]))
    && (forall conds: seq<Cond> | CondsOf(calls, fieldNames, conds) :: KeepsRows(conds))
  }

  lemma AndKeepsRow(calls: seq<Call>, fieldNames: seq<string>, q: Query, row: Row)
    requires TranslatesAnd(calls, fieldNames, q) && Keeps(calls, fieldNames)
    requires SatisfiesAll(calls, fieldNames, row)
    ensures Matches(q, row)
  {
    var conds: seq<Cond> :| CondsOf(calls, fieldNames, conds) && Compiles(conds, q.clauses);
    forall i | 0 <= i < |conds| ensures HoldsCond(conds[i], row) {
      CallMeansCondAt(calls[i], fieldNames, conds[i], row);
    }
    forall i | 0 <= i < |q.clauses| ensures MatchesClause(q.clauses[i], row) {
      ClauseKeepsRow(conds, q.clauses[i], row);
    }
  }

  /**
    The compiled filter never loses a row that satisfies the condition, although equalities erase
    other conditions on their field and repeated `<>` and LIKE overwrite each other.
   */
  lemma FilterKeepsRows(or: seq<seq<Call>>, fieldNames: seq<string>, q: Query, row: Row)
    requires or != [] && Translates(or, fieldNames, q)
    requires forall i | 0 <= i < |or| :: Keeps(or[i], fieldNames)
    requires Satisfies(or, fieldNames, row)
    ensures Matches(q, row)
  {
    var i :| 0 <= i < |or| && SatisfiesAll(or[i], fieldNames, row);
    AndKeepsRow(or[i], fieldNames, if |or| == 1 then q else q.queries[i], row);
  }

  /** Comparisons of fields with literals, under casts that make no difference, and simple conditions on each field. */
  ghost predicate IsSimple(calls: seq<Call>, fieldNames: seq<string>) {
    && (forall i | 0 <= i < |calls| :: Plainly(calls[i]))
    && (forall conds: seq<Cond>, f | CondsOf(calls, fieldNames, conds) :: Simple(conds, f))
  }

  /** A `<>` whose field the row does not have. */
  predicate Missing(call: Call, fieldNames: seq<string>, row: Row) {
    call.kind == NOT_EQUALS && (Eval(call.left, fieldNames, row).None? || Eval(call.right, fieldNames, row).None?)
  }

  /** Every comparison of the conjunction holds or is a `<>` over a missing field. */
  ghost predicate PassesAll(calls: seq<Call>, fieldNames: seq<string>, row: Row) {
    forall i | 0 <= i < |calls| :: Holds(calls[i], fieldNames, row) || Missing(calls[i], fieldNames, row)
  }

  ghost predicate HasFields(calls: seq<Call>, fieldNames: seq<string>, row: Row) {
    forall i | 0 <= i < |calls| :: !Missing(calls[i], fieldNames, row)
  }

  lemma MissingMeansLenient(call: Call, fieldNames: seq<string>, cond: Cond, row: Row)
    requires Plainly(call) && TranslateCall(call, fieldNames) == Some(cond)
    ensures Holds(call, fieldNames, row) || Missing(call, fieldNames, row) <==> Lenient(cond, row)
    ensures !(Holds(call, fieldNames, row) && Missing(call, fieldNames, row))
  {
    CallMeansCondAt(call, fieldNames, cond, row);
    HoldsOfField(call, fieldNames, cond, row);
  }

  lemma AndPasses(calls: seq<Call>, fieldNames: seq<string>, q: Query, row: Row)
    requires TranslatesAnd(calls, fieldNames, q) && IsSimple(calls, fieldNames)
    ensures Matches(q, row) <==> PassesAll(calls, fieldNames, row)
  {
    var conds: seq<Cond> :| CondsOf(calls, fieldNames, conds) && Compiles(conds, q.clauses);
    ClausesMeanLenient(conds, q.clauses, row);
    forall i | 0 <= i < |calls|
      ensures Holds(calls[i], fieldNames, row) || Missing(calls[i], fieldNames, row) <==> Lenient(conds[i], row)
    {
      MissingMeansLenient(calls[i], fieldNames, conds[i], row);
    }
  }

  /**
    On simple conjunctions the compiled filter selects a row if and only if the row passes one of
    them, where a `<>` also passes if its field is missing. So it is exact on a row if and only if
    the row passes none, or passes one and has every field that one has under a `<>`.
   */
  lemma FilterIsExact(or: seq<seq<Call>>, fieldNames: seq<string>, q: Query, row: Row)
    requires or != [] && Translates(or, fieldNames, q)
    requires forall i | 0 <= i < |or| :: IsSimple(or[i], fieldNames)
    ensures Matches(q, row) <==> exists i | 0 <= i < |or| :: PassesAll(or[i], fieldNames, row)
    ensures (Matches(q, row) <==> Satisfies(or, fieldNames, row)) <==>
            || (forall i | 0 <= i < |or| :: !PassesAll(or[i], fieldNames, row))
            || (exists i | 0 <= i < |or| :: PassesAll(or[i], fieldNames, row) && HasFields(or[i], fieldNames, row))
  {
    forall i | 0 <= i < |or|
      ensures Matches(if |or| == 1 then q else q.queries[i], row) <==> PassesAll(or[i], fieldNames, row)
    {
      AndPasses(or[i], fieldNames, if |or| == 1 then q else q.queries[i], row);
    }
    ShouldMeansOr(or, fieldNames, q, row);
    forall i | 0 <= i < |or|
      ensures SatisfiesAll(or[i], fieldNames, row) <==>
              PassesAll(or[i], fieldNames, row) && HasFields(or[i], fieldNames, row)
    {
      HoldsMeansHasFields(or[i], fieldNames, row);
    }
  }

  lemma HoldsMeansHasFields(calls: seq<Call>, fieldNames: seq<string>, row: Row)
    ensures SatisfiesAll(calls, fieldNames, row) <==>
            PassesAll(calls, fieldNames, row) && HasFields(calls, fieldNames, row)
  {
  }

  lemma ShouldMeansOr(or: seq<seq<Call>>, fieldNames: seq<string>, q: Query, row: Row)
    requires |or| > 0 && (|or| > 1 ==> q.Should? && |q.queries| == |or|)
    requires forall i | 0 <= i < |or| ::
               Matches(if |or| == 1 then q else q.queries[i], row) <==> PassesAll(or[i], fieldNames, row)
    ensures Matches(q, row) <==> exists i | 0 <= i < |or| :: PassesAll(or[i], fieldNames, row)
  {
    if |or| == 1 {
      assert Matches(q, row) <==> PassesAll(or[0], fieldNames, row);
    } else {
      if Matches(q, row) {
        var i :| 0 <= i < |q.queries| && Matches(q.queries[i], row);
        assert PassesAll(or[i], fieldNames, row);
      }
      if i :| 0 <= i < |or| && PassesAll(or[i], fieldNames, row) {
        assert Matches(q.queries[i], row);
      }
    }
  }

  // ----- One conjunction, on every row

  /** A field with nothing but `<>`. */
  ghost predicate OnlyNot(conds: seq<Cond>, f: string) {
    LastEq(conds, f).None? && PairsOf(conds, f) != {} && forall p | p in PairsOf(conds, f) :: p.0 == Not
  }

  ghost predicate LenientOn(conds: seq<Cond>, row: Row) {
    forall i | 0 <= i < |conds| :: Lenient(conds[i], row)
  }

  ghost predicate HoldsOn(conds: seq<Cond>, row: Row) {
    forall i | 0 <= i < |conds| :: HoldsCond(conds[i], row)
  }

  /** Without the field, the conditions of a row that passes still pass, if the field has nothing but `<>`. */
  lemma PassesWithout(conds: seq<Cond>, f: string, row: Row)
    requires OnlyNot(conds, f) && LenientOn(conds, row)
    ensures LenientOn(conds, row - {f}) && !HoldsOn(conds, row - {f})
  {
    forall i | 0 <= i < |conds| ensures Lenient(conds[i], row - {f}) {
      if conds[i].field == f {
        CondIsGathered(conds, i);
      }
    }
    var p :| p in PairsOf(conds, f);
    var i :| 0 <= i < |conds| && conds[i].Cmp? && conds[i].field == f && p == (conds[i].op, conds[i].literal);
    assert !HoldsCond(conds[i], row - {f});
  }

  /** A field with another condition than `<>` is there on every row that passes. */
  lemma PassesWith(conds: seq<Cond>, row: Row, i: nat)
    requires LenientOn(conds, row) && i < |conds| && !OnlyNot(conds, conds[i].field)
    ensures HoldsCond(conds[i], row)
  {
    var f := conds[i].field;
    CondIsGathered(conds, i);
    if LastEq(conds, f).Some? {
      var k := LastEqIsThere(conds, f);
      assert Lenient(conds[k], row);
    } else {
      var p :| p in PairsOf(conds, f) && p.0 != Not;
      PairIsLenient(conds, row, f, p);
    }
  }

  /**
    A simple conjunction is compiled exactly, for every row, if and only if each field under a `<>`
    also has an equality or a LIKE, or no row passes at all.
   */
  lemma ConjunctionIsExact(conds: seq<Cond>, clauses: seq<Clause>)
    requires Compiles(conds, clauses) && forall f :: Simple(conds, f)
    ensures (forall row :: Matches(Must(clauses), row) <==> HoldsOn(conds, row)) <==>
            (forall f :: !OnlyNot(conds, f)) || (forall row :: !LenientOn(conds, row))
  {
    forall row ensures Matches(Must(clauses), row) <==> LenientOn(conds, row) {
      ClausesMeanLenient(conds, clauses, row);
    }
    if forall f :: !OnlyNot(conds, f) {
      forall row ensures LenientOn(conds, row) <==> HoldsOn(conds, row) {
        if LenientOn(conds, row) {
          forall i | 0 <= i < |conds| ensures HoldsCond(conds[i], row) {
            PassesWith(conds, row, i);
          }
        }
      }
    } else if row: Row :| LenientOn(conds, row) {
      var f :| OnlyNot(conds, f);
      PassesWithout(conds, f, row);
      assert Matches(Must(clauses), row - {f});
    } else {
      assert forall row :: HoldsOn(conds, row) ==> LenientOn(conds, row);
    }
  }
}
