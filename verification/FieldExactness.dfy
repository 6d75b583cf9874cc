/**
  Field by field, exactly when the clause made of a field's conditions selects, among all rows, those
  on which the conditions hold: for an equality, for `<>`, for bounds and for LIKE.
 */
module FieldExactness {
  import opened BoundMerging
  import opened Conditions
  import opened FilterMeaning
  import opened FilterTranslators
  import opened LikePatterns
  import opened Results

  /** The clause of a field selects the rows on which all conditions of the field hold. */
  ghost predicate Exact(conds: seq<Cond>, c: Clause) {
    forall row :: MatchesClause(c, row) <==> AllHold(conds, c.field, row)
  }

  // ----- An equality, which erases every other condition

  /** A term query is exact if and only if every condition of its field holds at its value. */
  lemma EqualityIsExact(conds: seq<Cond>, c: Clause)
    requires ClauseOf(conds, c) && c.Term?
    ensures Exact(conds, c) <==> AllHold(conds, c.field, map[c.field := c.value])
  {
    var only := map[c.field := c.value];
    assert MatchesClause(c, only);
    if AllHold(conds, c.field, only) {
      forall row: Row ensures MatchesClause(c, row) <==> AllHold(conds, c.field, row) {
        if MatchesClause(c, row) {
          forall i | 0 <= i < |conds| && conds[i].field == c.field ensures HoldsCond(conds[i], row) {
            HoldsByField(conds[i], row, only);
          }
        }
        if AllHold(conds, c.field, row) {
          var i := LastEqIsThere(conds, c.field);
          assert HoldsCond(conds[i], row);
        }
      }
    }
  }

  // ----- `<>`, of which one is kept

  ghost predicate AllOf(conds: seq<Cond>, f: string, op: Op) {
    LastEq(conds, f).None? && forall p | p in PairsOf(conds, f) :: p.0 == op
  }

  /**
    The clause of a field with nothing but `<>` is right about a row if and only if the row has the
    field and does not hold there one of the values that were dropped.
   */
  lemma NotIsExact(conds: seq<Cond>, c: Clause, row: Row)
    requires ClauseOf(conds, c) && c.Multi? && AllOf(conds, c.field, Not)
    ensures (MatchesClause(c, row) <==> AllHold(conds, c.field, row)) <==>
            c.field in row
            && forall p | p in PairsOf(conds, c.field) :: p.1.value == row[c.field] ==> c.named == Some(row[c.field])
  {
    NotMatches(conds, c, row);
    FieldHolds(conds, c.field, row);
  }

  /** With fields that may be missing, it is right about every row if and only if all the `<>` have one value. */
  lemma NotIsLenient(conds: seq<Cond>, c: Clause)
    requires ClauseOf(conds, c) && c.Multi? && AllOf(conds, c.field, Not)
    ensures (forall row :: MatchesClause(c, row) <==> AllLenient(conds, c.field, row))
            <==> (forall p, q | p in PairsOf(conds, c.field) && q in PairsOf(conds, c.field) :: p.1.value == q.1.value)
  {
    var f, pairs := c.field, PairsOf(conds, c.field);
    if p, q :| p in pairs && q in pairs && p.1.value != q.1.value {
      var dropped := if c.named == Some(p.1.value) then q else p;
      var row := map[f := dropped.1.value];
      NotMatches(conds, c, row);
      if AllLenient(conds, f, row) {
        PairIsLenient(conds, row, f, dropped);
      }
    } else {
      forall row: Row ensures MatchesClause(c, row) <==> AllLenient(conds, f, row) {
        NotMatches(conds, c, row);
        LenientByField(conds, f, row);
      }
    }
  }

  /**
    Whichever `<>` the hash map lets be kept, the clause is right about the row: the row has the
    field, and it holds there none of the values, or the only one.
   */
  lemma NotIsExactInAnyOrder(conds: seq<Cond>, f: string, row: Row)
    requires PairsOf(conds, f) != {} && AllOf(conds, f, Not)
    ensures (forall c | ClauseOf(conds, c) && c.Multi? && c.field == f ::
               MatchesClause(c, row) <==> AllHold(conds, f, row))
            <==> f in row && forall p, q | p in PairsOf(conds, f) && q in PairsOf(conds, f) ::
                   p.1.value == row[f] ==> q.1.value == row[f]
  {
    var pairs := PairsOf(conds, f);
    forall c | ClauseOf(conds, c) && c.Multi? && c.field == f
      ensures (MatchesClause(c, row) <==> AllHold(conds, f, row)) <==>
              f in row && forall p | p in pairs :: p.1.value == row[f] ==> c.named == Some(row[f])
      ensures exists p | p in pairs :: c.named == Some(p.1.value)
    {
      NotIsExact(conds, c, row);
      NotMatches(conds, c, row);
    }
    if f !in row {
      var q :| q in pairs;
      var c := KeptLast(conds, f, q);
    } else if p, q :| p in pairs && q in pairs && p.1.value == row[f] && q.1.value != row[f] {
      var c := KeptLast(conds, f, q);
    }
  }

  /** Any one of the `<>` can be the one that is kept. */
  lemma KeptLast(conds: seq<Cond>, f: string, q: Pair) returns (c: Clause)
    requires q in PairsOf(conds, f) && AllOf(conds, f, Not)
    ensures ClauseOf(conds, c) && c.Multi? && c.field == f && c.named == Some(q.1.value)
  {
    var rest := Enumeration(PairsOf(conds, f) - {q});
    var order := rest + [q];
    assert order[..|order| - 1] == rest;
    assert Enumerates(order, PairsOf(conds, f));
    c := Fold(f, order);
  }

  lemma NotMatches(conds: seq<Cond>, c: Clause, row: Row)
    requires ClauseOf(conds, c) && c.Multi? && AllOf(conds, c.field, Not)
    ensures MatchesClause(c, row) <==> !(c.field in row && Some(row[c.field]) == c.named)
    ensures exists p | p in PairsOf(conds, c.field) :: c.named == Some(p.1.value)
  {
    var order: seq<Pair> :| Enumerates(order, PairsOf(conds, c.field)) && c == Fold(c.field, order);
    FoldParts(c.field, order);
    var p :| p in PairsOf(conds, c.field);
    assert p in order && p.0 == Not;
    assert forall q | q in order :: q in PairsOf(conds, c.field);
    var kept :| kept in order && kept.0 == Not && kept.1.value == c.named.value;
  }

  /** Without an equality, the conditions of a field hold if the row has it and every pair holds there. */
  lemma FieldHolds(conds: seq<Cond>, f: string, row: Row)
    requires LastEq(conds, f).None? && PairsOf(conds, f) != {}
    ensures AllHold(conds, f, row) <==> f in row && forall p | p in PairsOf(conds, f) :: HoldsOp(p.0, row[f], p.1)
  {
    if AllHold(conds, f, row) {
      forall p | p in PairsOf(conds, f) ensures f in row && HoldsOp(p.0, row[f], p.1) {
        var i :| 0 <= i < |conds| && conds[i].Cmp? && conds[i].field == f && p == (conds[i].op, conds[i].literal);
        assert HoldsCond(conds[i], row);
      }
    }
    if f in row && forall p | p in PairsOf(conds, f) :: HoldsOp(p.0, row[f], p.1) {
      forall i | 0 <= i < |conds| && conds[i].field == f ensures HoldsCond(conds[i], row) {
        CondIsGathered(conds, i);
      }
    }
  }

  lemma LenientByField(conds: seq<Cond>, f: string, row: Row)
    requires AllOf(conds, f, Not) && PairsOf(conds, f) != {}
    ensures AllLenient(conds, f, row) <==> f !in row || forall p | p in PairsOf(conds, f) :: p.1.value != row[f]
  {
    if f in row {
      FieldHolds(conds, f, row);
      assert AllLenient(conds, f, row) <==> AllHold(conds, f, row);
    } else {
      forall i | 0 <= i < |conds| && conds[i].field == f ensures Lenient(conds[i], row) {
        CondIsGathered(conds, i);
      }
    }
  }

  // ----- One LIKE

  /** The clause of a single LIKE is exact if and only if its pattern is a plain text. */
  lemma LikeClauseIsExact(conds: seq<Cond>, c: Clause, l: Literal)
    requires ClauseOf(conds, c) && c.Multi? && PairsOf(conds, c.field) == {(Wild, l)}
    ensures Exact(conds, c) <==> l.value.Text? && Plain(l.value.s)
  {
    var f := c.field;
    forall row: Row ensures MatchesClause(c, row) <==>
                       f in row && row[f].Text? && Wildcard(ToWildcard(PatternText(l)), row[f].s)
    {
      LikeMatches(conds, c, l, row);
    }
    forall row: Row
      ensures AllHold(conds, f, row) <==> f in row && row[f].Text? && l.value.Text? && Like(l.value.s, row[f].s)
    {
      FieldHolds(conds, f, row);
      assert (Wild, l) in PairsOf(conds, f);
    }
    if l.value.Text? {
      LikeIsExact(l.value.s);
      if Exact(conds, c) {
        forall s ensures Like(l.value.s, s) == Wildcard(ToWildcard(l.value.s), s) {
          var row := map[f := Text(s)];
          assert MatchesClause(c, row) <==> AllHold(conds, f, row);
        }
      }
      if Plain(l.value.s) {
        forall row: Row ensures MatchesClause(c, row) <==> AllHold(conds, f, row) {
          if f in row && row[f].Text? {
            PlainIsExact(l.value.s, row[f].s);
          }
        }
      }
    } else {
      var w := ToWildcard(PatternText(l));
      LeastMatches(w);
      var row := map[f := Text(Least(w))];
      assert MatchesClause(c, row) && !AllHold(conds, f, row);
    }
  }

  lemma LikeMatches(conds: seq<Cond>, c: Clause, l: Literal, row: Row)
    requires ClauseOf(conds, c) && c.Multi? && PairsOf(conds, c.field) == {(Wild, l)}
    ensures MatchesClause(c, row) <==>
            c.field in row && row[c.field].Text? && Wildcard(ToWildcard(PatternText(l)), row[c.field].s)
  {
    var order: seq<Pair> :| Enumerates(order, {(Wild, l)}) && c == Fold(c.field, order);
    FoldParts(c.field, order);
    assert (Wild, l) in order && forall p | p in order :: p == (Wild, l);
  }

  /**
    A LIKE with the field as its pattern, compiled with its sides exchanged, keeps every row on which
    it holds if and only if its text holds only wildcards, of which at most one is for one character.
   */
  lemma ReversedLikeKeepsRows(call: Call, fieldNames: seq<string>, l: Literal, c: Clause)
    requires call.kind == LIKE && call.left == Lit(l) && l.value.Text?
    requires OverField(call.right) && Transparent(call)
    requires TranslateCall(call, fieldNames).Some? && ClauseOf([TranslateCall(call, fieldNames).value], c)
    requires c.field == TranslateCall(call, fieldNames).value.field
    ensures (forall row | Holds(call, fieldNames, row) :: MatchesClause(c, row)) <==> AnyText(l.value.s)
  {
    var cond := TranslateCall(call, fieldNames).value;
    var f, p := cond.field, l.value.s;
    assert cond == Cmp(f, Wild, l) && FieldOf(call.right, fieldNames) == Some(f);
    OnePair(cond);
    forall row: Row ensures Holds(call, fieldNames, row) <==> f in row && row[f].Text? && Like(row[f].s, p) {
      CallMeansReversed(call, fieldNames, l, f, row);
    }
    forall row: Row ensures MatchesClause(c, row) <==> f in row && row[f].Text? && Wildcard(ToWildcard(p), row[f].s) {
      LikeMatches([cond], c, l, row);
    }
    if AnyText(p) {
      forall row: Row | Holds(call, fieldNames, row) ensures MatchesClause(c, row) {
        KeptReversed(p, row[f].s);
      }
    } else {
      var s := LostReversed(p);
      var row := map[f := Text(s)];
      assert Holds(call, fieldNames, row) && !MatchesClause(c, row);
    }
  }

  lemma CallMeansReversed(call: Call, fieldNames: seq<string>, l: Literal, f: string, row: Row)
    requires call.kind == LIKE && call.left == Lit(l) && l.value.Text?
    requires OverField(call.right) && Transparent(call) && FieldOf(call.right, fieldNames) == Some(f)
    ensures Holds(call, fieldNames, row) <==> f in row && row[f].Text? && Like(row[f].s, l.value.s)
  {
    FieldOfMeaning(call.right, fieldNames, row);
    if f in row {
      assert Compare(LIKE, l.value, Converted(call.right, row[f])) <==> Compare(LIKE, l.value, row[f]);
    }
  }

  lemma OnePair(cond: Cond)
    requires cond.Cmp?
    ensures LastEq([cond], cond.field).None? && PairsOf([cond], cond.field) == {(cond.op, cond.literal)}
  {
    PairsOfSnoc([], cond, cond.field);
    assert [] + [cond] == [cond] && [cond][..0] == [];
  }

  // ----- Bounds

  ghost predicate AllBounds(conds: seq<Cond>, f: string) {
    LastEq(conds, f).None? && forall p | p in PairsOf(conds, f) :: IsRange(p.0)
  }

  predicate WithinAll(v: Value, bounds: map<Op, Value>) {
    forall op | op in bounds :: Within(v, op, bounds[op])
  }

  lemma BoundsMatch(conds: seq<Cond>, c: Clause, row: Row)
    requires ClauseOf(conds, c) && c.Multi? && AllBounds(conds, c.field)
    ensures MatchesClause(c, row) <==> c.field in row && WithinAll(row[c.field], c.bounds)
    ensures c.bounds != map[] && forall op | op in c.bounds :: IsRange(op)
  {
    var order: seq<Pair> :| Enumerates(order, PairsOf(conds, c.field)) && c == Fold(c.field, order);
    FoldParts(c.field, order);
    var p :| p in PairsOf(conds, c.field);
    assert p in order;
    assert forall q | q in order :: q in PairsOf(conds, c.field);
    FoldHasBound(c.field, order, p);
  }

  lemma {:induction false} FoldHasBound(f: string, order: seq<Pair>, p: Pair)
    requires p in order && IsRange(p.0)
    ensures p.0 in Fold(f, order).bounds
  {
    var n := |order| - 1;
    assert order == order[..n] + [order[n]];
    if order[n].0 != p.0 {
      FoldHasBound(f, order[..n], p);
    }
  }

  /** No value meets two bounds that do not agree. */
  lemma NeitherHolds(v: Value, p: Pair, q: Pair)
    requires !Agree(p, q)
    ensures !(HoldsOp(p.0, v, p.1) && HoldsOp(q.0, v, q.1))
  {
    ValueOrder(v, p.1.value, v);
    ValueOrder(p.1.value, v, v);
    ValueOrder(v, q.1.value, v);
    ValueOrder(q.1.value, v, v);
  }

  /**
    The clause of a field with nothing but bounds is exact if and only if the bounds agree, or those
    that were kept leave room for no value.
   */
  lemma BoundsAreExact(conds: seq<Cond>, c: Clause)
    requires ClauseOf(conds, c) && c.Multi? && AllBounds(conds, c.field)
    ensures Exact(conds, c) <==> Agreeing(PairsOf(conds, c.field)) || !HasRoom(c.bounds)
  {
    var f, pairs := c.field, PairsOf(conds, c.field);
    var order: seq<Pair> :| Enumerates(order, pairs) && c == Fold(f, order);
    if Agreeing(pairs) {
      EnumeratedAgree(order, pairs);
      forall row ensures MatchesClause(c, row) <==> AllHold(conds, f, row) {
        AgreeingIsExact(conds, c, order, row);
      }
    } else {
      forall row ensures !AllHold(conds, f, row) {
        DisagreeingNeverHold(conds, f, row);
      }
      RoomForRow(conds, c);
    }
  }

  /** Whatever the order of the hash map: the bounds agree, or no order of them leaves room for a value. */
  lemma BoundsAreExactInAnyOrder(conds: seq<Cond>, f: string)
    requires PairsOf(conds, f) != {} && AllBounds(conds, f)
    ensures (forall c | ClauseOf(conds, c) && c.Multi? && c.field == f :: Exact(conds, c))
            <==> Agreeing(PairsOf(conds, f))
                 || forall order | Enumerates(order, PairsOf(conds, f)) :: !HasRoom(Fold(f, order).bounds)
  {
    var pairs := PairsOf(conds, f);
    forall c | ClauseOf(conds, c) && c.Multi? && c.field == f
      ensures Exact(conds, c) <==> Agreeing(pairs) || !HasRoom(c.bounds)
    {
      BoundsAreExact(conds, c);
    }
    forall order | Enumerates(order, pairs) ensures ClauseOf(conds, Fold(f, order)) {
    }
    if !Agreeing(pairs) {
      if forall order | Enumerates(order, pairs) :: !HasRoom(Fold(f, order).bounds) {
        forall c | ClauseOf(conds, c) && c.Multi? && c.field == f ensures !HasRoom(c.bounds) {
          var order: seq<Pair> :| Enumerates(order, pairs) && c == Fold(f, order);
        }
      }
    }
  }

  /** Bounds that do not agree hold on no row. */
  lemma DisagreeingNeverHold(conds: seq<Cond>, f: string, row: Row)
    requires AllBounds(conds, f) && !Agreeing(PairsOf(conds, f))
    ensures !AllHold(conds, f, row)
  {
    var p, q :| p in PairsOf(conds, f) && q in PairsOf(conds, f) && !Agree(p, q);
    FieldHolds(conds, f, row);
    if f in row {
      NeitherHolds(row[f], p, q);
    }
  }

  /** The kept bounds have room for a value exactly if the clause selects some row. */
  lemma RoomForRow(conds: seq<Cond>, c: Clause)
    requires ClauseOf(conds, c) && c.Multi? && AllBounds(conds, c.field)
    ensures HasRoom(c.bounds) <==> exists row :: MatchesClause(c, row)
  {
    BoundsMatch(conds, c, map[]);
    RoomForValue(c.bounds);
    if v :| WithinAll(v, c.bounds) {
      BoundsMatch(conds, c, map[c.field := v]);
    }
    if row :| MatchesClause(c, row) {
      BoundsMatch(conds, c, row);
    }
  }

  lemma AgreeingIsExact(conds: seq<Cond>, c: Clause, order: seq<Pair>, row: Row)
    requires ClauseOf(conds, c) && c.Multi? && AllBounds(conds, c.field)
    requires Enumerates(order, PairsOf(conds, c.field)) && c == Fold(c.field, order) && AllAgree(order)
    ensures MatchesClause(c, row) <==> AllHold(conds, c.field, row)
  {
    FieldHolds(conds, c.field, row);
    BoundsMatch(conds, c, row);
    FoldParts(c.field, order);
    if MatchesClause(c, row) {
      forall p | p in PairsOf(conds, c.field) ensures HoldsOp(p.0, row[c.field], p.1) {
        assert p in order;
        BoundIsKept(c, order, row, p);
      }
    }
    if AllHold(conds, c.field, row) {
      forall op | op in c.bounds ensures Within(row[c.field], op, c.bounds[op]) {
        assert Met(order, op, c.bounds[op]);
        var p :| p in order && p.0 == op && p.1.value == c.bounds[op];
        assert p in PairsOf(conds, c.field);
      }
    }
  }

  // ----- Room between bounds

  function Before(v: Value): Value {
    if v.Num? then Num(v.r - 1.0) else v
  }

  function After(v: Value): Value {
    match v
    case Num(r) => Num(r + 1.0)
    case Text(s) => Text(s + "\0")
    case Bool(_) => v
  }

  function Middle(v: Value, w: Value): Value {
    if v.Num? && w.Num? then Num((v.r + w.r) / 2.0) else v
  }

  /** The bounds, what comes right before and after each, the middle of any two, and the least text. */
  function Candidates(bounds: map<Op, Value>): set<Value> {
    var kept := bounds.Values;
    kept + {Text("")} + (set v | v in kept :: Before(v)) + (set v | v in kept :: After(v))
    + (set v, w | v in kept && w in kept :: Middle(v, w))
  }

  /** Some candidate lies within all bounds. */
  predicate HasRoom(bounds: map<Op, Value>) {
    exists v | v in Candidates(bounds) :: WithinAll(v, bounds)
  }

  predicate IsLower(op: Op) {
    op == Gt || op == Gte
  }

  lemma RoomForValue(bounds: map<Op, Value>)
    requires bounds != map[] && forall op | op in bounds :: IsRange(op)
    ensures HasRoom(bounds) <==> exists v :: WithinAll(v, bounds)
  {
    if v :| WithinAll(v, bounds) {
      if v !in bounds.Values {
        var op :| op in bounds;
        assert bounds[op] in bounds.Values;
        match v
        case Bool(_) =>
        case Num(x) => RoomForNumber(bounds, x);
        case Text(s) => RoomForText(bounds, s);
      }
    }
  }

  /** All values strictly beyond this one are within the bounds of one side. */
  ghost predicate Tight(bounds: map<Op, Value>, lower: bool, tight: Value) {
    forall op, x | op in bounds && IsLower(op) == lower && (if lower then Less(tight, x) else Less(x, tight)) ::
      Within(x, op, bounds[op])
  }

  /** What lies beyond one bound is within any bound of that side which is no stronger. */
  lemma BeyondStronger(bound: Value, other: Op, w: Value, v: Value, x: Value)
    requires IsRange(other)
    requires if IsLower(other) then Less(bound, v) && Less(w, v) && !Less(bound, w)
             else Less(v, bound) && Less(v, w) && !Less(w, bound)
    requires if IsLower(other) then Less(bound, x) else Less(x, bound)
    ensures Within(x, other, w)
  {
    ValueOrder(bound, v, x);
    ValueOrder(w, v, x);
    ValueOrder(v, bound, w);
    ValueOrder(v, w, x);
    ValueOrder(bound, w, x);
    ValueOrder(w, bound, x);
    ValueOrder(x, bound, w);
  }

  /** The strongest bound of a side, if it has one. */
  lemma TightestOf(bounds: map<Op, Value>, lower: bool, v: Value) returns (tight: Option<Value>)
    requires WithinAll(v, bounds) && v !in bounds.Values && forall op | op in bounds :: IsRange(op)
    ensures tight.None? ==> forall op | op in bounds :: IsLower(op) != lower
    ensures tight.Some? ==> tight.value in bounds.Values && SameType(tight.value, v)
    ensures tight.Some? ==> if lower then Less(tight.value, v) else Less(v, tight.value)
    ensures tight.Some? ==> Tight(bounds, lower, tight.value)
  {
    var a, b := if lower then Gt else Lt, if lower then Gte else Lte;
    forall op | op in bounds && IsLower(op) == lower ensures op == a || op == b {
    }
    if a !in bounds && b !in bounds {
      tight := None;
    } else {
      var op := if a !in bounds then b else if b !in bounds then a
                else if Stronger(a, bounds[a], bounds[b]) then a else b;
      tight := Some(bounds[op]);
      assert bounds[op] in bounds.Values && Within(v, op, bounds[op]);
      forall other, x | other in bounds && IsLower(other) == lower
                        && if lower then Less(bounds[op], x) else Less(x, bounds[op])
        ensures Within(x, other, bounds[other])
      {
        assert Within(v, other, bounds[other]) && bounds[other] in bounds.Values;
        ValueOrder(bounds[op], bounds[other], v);
        BeyondStronger(bounds[op], other, bounds[other], v, x);
      }
      ValueOrder(v, bounds[op], v);
      ValueOrder(bounds[op], v, v);
    }
  }

  /** A value strictly between the strongest bounds lies within all. */
  lemma Between(bounds: map<Op, Value>, low: Option<Value>, high: Option<Value>, v: Value)
    requires if low.None? then forall op | op in bounds :: !IsLower(op)
             else Tight(bounds, true, low.value) && Less(low.value, v)
    requires if high.None? then forall op | op in bounds :: IsLower(op)
             else Tight(bounds, false, high.value) && Less(v, high.value)
    ensures WithinAll(v, bounds)
  {
  }

  lemma RoomForNumber(bounds: map<Op, Value>, x: real)
    requires bounds != map[] && forall op | op in bounds :: IsRange(op)
    requires WithinAll(Num(x), bounds) && Num(x) !in bounds.Values
    ensures HasRoom(bounds)
  {
    var low := TightestOf(bounds, true, Num(x));
    var high := TightestOf(bounds, false, Num(x));
    var op :| op in bounds;
    assert low.Some? || high.Some?;
    var l, h := if low.None? then high.value else low.value, if high.None? then low.value else high.value;
    var v := NumberBeside(bounds, l, h, low.None?, high.None?);
    Between(bounds, low, high, v);
  }

  lemma NumberBeside(bounds: map<Op, Value>, l: Value, h: Value, below: bool, above: bool) returns (v: Value)
    requires l in bounds.Values && h in bounds.Values && l.Num? && h.Num? && (below || above || l.r < h.r)
    requires !(below && above)
    ensures v in Candidates(bounds) && v.Num? && (below || l.r < v.r) && (above || v.r < h.r)
  {
    v := if below then Before(h) else if above then After(l) else Middle(l, h);
  }

  lemma RoomForText(bounds: map<Op, Value>, s: string)
    requires bounds != map[] && forall op | op in bounds :: IsRange(op)
    requires WithinAll(Text(s), bounds) && Text(s) !in bounds.Values
    ensures HasRoom(bounds)
  {
    var low := TightestOf(bounds, true, Text(s));
    var high := TightestOf(bounds, false, Text(s));
    var v := if low.None? then "" else low.value.s + "\0";
    assert low.Some? ==> Text(v) == After(low.value);
    if low.Some? {
      NextText(low.value.s, s);
      LongerText(low.value.s);
    }
    if high.Some? {
      TextOrder(v, s, high.value.s);
    }
    Between(bounds, low, high, Text(v));
    assert Text(v) in Candidates(bounds);
  }

  /** A text with one least character more comes right after it. */
  lemma {:induction false} NextText(a: string, b: string)
    requires TextLess(a, b)
    ensures a + "\0" == b || TextLess(a + "\0", b)
  {
    assert b == [b[0]] + b[1..];
    if a != "" {
      assert (a + "\0")[1..] == a[1..] + "\0";
      if a[0] == b[0] {
        NextText(a[1..], b[1..]);
      }
    }
  }

  lemma {:induction false} LongerText(a: string)
    ensures TextLess(a, a + "\0")
  {
    if a != "" {
      assert (a + "\0")[1..] == a[1..] + "\0";
      LongerText(a[1..]);
    }
  }
}
