/** How the bounds on one field are merged, and exactly when the order of the hash map does not show. */
module BoundMerging {
  import opened Conditions
  import opened FilterTranslators
  import opened Results

  predicate IsRange(op: Op) {
    op != Not && op != Wild
  }

  ghost predicate Met(order: seq<Pair>, op: Op, v: Value) {
    exists p | p in order :: p.0 == op && p.1.value == v
  }

  /** Among the bounds met for one operator, the kept one is a bound no other one is stronger than. */
  ghost predicate Strongest(bounds: map<Op, Value>, order: seq<Pair>) {
    && (forall op | op in bounds :: IsRange(op) && Met(order, op, bounds[op]))
    && (forall p | p in order && IsRange(p.0) ::
          p.0 in bounds && (bounds[p.0] == p.1.value || Stronger(p.0, bounds[p.0], p.1.value)))
  }

  /** Two bounds under one operator have one value, or values of one ordered type. */
  predicate Agree(p: Pair, q: Pair) {
    p.0 == q.0 && IsRange(p.0) ==> p.1.value == q.1.value || SameType(p.1.value, q.1.value)
  }

  ghost predicate Agreeing(pairs: set<Pair>) {
    forall p, q | p in pairs && q in pairs :: Agree(p, q)
  }

  ghost predicate AllAgree(order: seq<Pair>) {
    forall p, q | p in order && q in order :: Agree(p, q)
  }

  lemma StrongerOrder(op: Op, a: Value, b: Value, c: Value)
    requires IsRange(op)
    ensures !Stronger(op, a, a) && !(Stronger(op, a, b) && Stronger(op, b, a))
    ensures Stronger(op, a, b) && Stronger(op, b, c) ==> Stronger(op, a, c)
    ensures SameType(a, b) ==> Stronger(op, a, b) || Stronger(op, b, a) || a == b
    ensures Stronger(op, a, b) ==> SameType(a, b)
  {
    ValueOrder(a, b, c);
    ValueOrder(c, b, a);
    ValueOrder(b, a, a);
  }

  /** When the bounds agree, every order of the pairs keeps the strongest ones. */
  lemma {:induction false} FoldKeepsStrongest(field: string, order: seq<Pair>)
    requires AllAgree(order)
    ensures Strongest(Fold(field, order).bounds, order)
  {
    if order != [] {
      var n := |order| - 1;
      assert order == order[..n] + [order[n]];
      FoldKeepsStrongest(field, order[..n]);
      if IsRange(order[n].0) {
        StrongestSnoc(Fold(field, order[..n]).bounds, order[..n], order[n]);
      } else {
        MetSnoc(order[..n], order[n]);
      }
    }
  }

  lemma MetSnoc(order: seq<Pair>, pair: Pair)
    ensures forall op, v :: Met(order + [pair], op, v) <==> Met(order, op, v) || (op == pair.0 && v == pair.1.value)
  {
    assert pair in order + [pair];
    forall op, v | Met(order, op, v) ensures Met(order + [pair], op, v) {
      var p :| p in order && p.0 == op && p.1.value == v;
      assert p in order + [pair];
    }
  }

  lemma StrongestSnoc(bounds: map<Op, Value>, order: seq<Pair>, pair: Pair)
    requires Strongest(bounds, order) && IsRange(pair.0) && AllAgree(order + [pair])
    ensures Strongest(AddPredicate(bounds, pair.0, pair.1.value), order + [pair])
  {
    var all, op, v := order + [pair], pair.0, pair.1.value;
    var next := AddPredicate(bounds, op, v);
    MetSnoc(order, pair);
    forall p | p in all && IsRange(p.0)
      ensures p.0 in next && (next[p.0] == p.1.value || Stronger(p.0, next[p.0], p.1.value))
    {
      if p in order && p.0 == op {
        var q :| q in order && q.0 == op && q.1.value == bounds[op];
        assert q in all && pair in all && Agree(q, pair);
        StrongerOrder(op, v, bounds[op], p.1.value);
      }
    }
  }

  /** The strongest bounds are unique, so any two orders of the same pairs give the same bounds. */
  lemma SameMerge(field: string, order1: seq<Pair>, order2: seq<Pair>)
    requires AllAgree(order1) && forall p :: p in order1 <==> p in order2
    ensures Fold(field, order1).bounds == Fold(field, order2).bounds
  {
    assert AllAgree(order2);
    FoldKeepsStrongest(field, order1);
    FoldKeepsStrongest(field, order2);
    StrongestIsUnique(Fold(field, order1).bounds, order1, Fold(field, order2).bounds, order2);
  }

  lemma StrongestIsUnique(b1: map<Op, Value>, order1: seq<Pair>, b2: map<Op, Value>, order2: seq<Pair>)
    requires Strongest(b1, order1) && Strongest(b2, order2) && forall p :: p in order1 <==> p in order2
    ensures b1 == b2
  {
    forall op ensures op in b1 <==> op in b2 {
      assert op in b1 ==> Met(order1, op, b1[op]);
      assert op in b2 ==> Met(order2, op, b2[op]);
    }
    forall op | op in b1 ensures b1[op] == b2[op] {
      assert Met(order1, op, b1[op]) && Met(order2, op, b2[op]);
      StrongerOrder(op, b1[op], b2[op], b1[op]);
    }
  }

  /** Of two bounds that do not agree, the one met last is kept. */
  lemma LastIsKept(field: string, order: seq<Pair>, p: Pair, q: Pair)
    requires !Agree(p, q)
    ensures var bounds := Fold(field, order + [p, q]).bounds;
            q.0 in bounds && bounds[q.0] == q.1.value
  {
    assert (order + [p, q])[..|order| + 1] == order + [p];
    assert (order + [p])[..|order|] == order;
    var before := Fold(field, order).bounds;
    if p.0 in before {
      StrongerOrder(p.0, before[p.0], p.1.value, q.1.value);
      StrongerOrder(p.0, before[p.0], q.1.value, p.1.value);
    }
    StrongerOrder(p.0, p.1.value, q.1.value, p.1.value);
  }

  lemma {:induction false} Enumeration(pairs: set<Pair>) returns (order: seq<Pair>)
    ensures Enumerates(order, pairs)
    decreases pairs
  {
    order := [];
    if p :| p in pairs {
      var rest := Enumeration(pairs - {p});
      order := rest + [p];
    }
  }

  /** The merged bounds do not depend on the order of the hash map if and only if the bounds agree. */
  lemma MergeIsOrderIndependent(field: string, pairs: set<Pair>)
    ensures (forall order1, order2 | Enumerates(order1, pairs) && Enumerates(order2, pairs) ::
               Fold(field, order1).bounds == Fold(field, order2).bounds)
            <==> Agreeing(pairs)
  {
    if Agreeing(pairs) {
      forall order1, order2 | Enumerates(order1, pairs) && Enumerates(order2, pairs)
        ensures Fold(field, order1).bounds == Fold(field, order2).bounds
      {
        EnumeratedAgree(order1, pairs);
        SameMerge(field, order1, order2);
      }
    } else {
      var p, q :| p in pairs && q in pairs && !Agree(p, q);
      var order1, order2 := TwoOrders(field, pairs, p, q);
    }
  }

  lemma TwoOrders(field: string, pairs: set<Pair>, p: Pair, q: Pair) returns (order1: seq<Pair>, order2: seq<Pair>)
    requires p in pairs && q in pairs && !Agree(p, q)
    ensures Enumerates(order1, pairs) && Enumerates(order2, pairs)
    ensures Fold(field, order1).bounds != Fold(field, order2).bounds
  {
    var rest := Enumeration(pairs - {p, q});
    order1, order2 := rest + [p, q], rest + [q, p];
    LastIsKept(field, rest, p, q);
    LastIsKept(field, rest, q, p);
  }

  lemma EnumeratedAgree(order: seq<Pair>, pairs: set<Pair>)
    requires Enumerates(order, pairs)
    ensures AllAgree(order) <==> Agreeing(pairs)
  {
    if AllAgree(order) {
      forall p, q | p in pairs && q in pairs ensures Agree(p, q) {
        assert p in order && q in order;
      }
    } else {
      var p, q :| p in order && q in order && !Agree(p, q);
      assert p in pairs && q in pairs;
    }
  }
}
