/** SQL filter conditions over a row, and the query clauses they are compiled into. */
module Conditions {
  import opened LikePatterns
  import opened Results

  datatype Value = Num(r: real) | Text(s: string) | Bool(b: bool)

  /** A row, or a document: a field that is missing is NULL. */
  type Row = map<string, Value>

  /** A literal and its string form. */
  datatype Literal = Literal(value: Value, image: string)

  datatype Rex =
    | InputRef(index: nat)
    | Lit(literal: Literal)
    | Cast(operand: Rex, conv: Value -> Value)
    | Item(name: string)       // ITEM over the document column with a constant field name
    | Function                 // any other expression

  datatype Kind =
    | EQUALS | NOT_EQUALS | LESS_THAN | LESS_THAN_OR_EQUAL | GREATER_THAN | GREATER_THAN_OR_EQUAL | LIKE | OTHER

  datatype Call = Call(kind: Kind, left: Rex, right: Rex)

  // ----- Order of values

  /** `String.compareTo` is negative. */
  predicate TextLess(a: string, b: string) {
    b != "" && (a == "" || a[0] < b[0] || (a[0] == b[0] && TextLess(a[1..], b[1..])))
  }

  /** The order of numbers and of strings; values of different types are not ordered. */
  predicate Less(a: Value, b: Value) {
    match (a, b)
    case (Num(x), Num(y)) => x < y
    case (Text(x), Text(y)) => TextLess(x, y)
    case _ => false
  }

  predicate SameType(a: Value, b: Value) {
    (a.Num? && b.Num?) || (a.Text? && b.Text?)
  }

  lemma {:induction false} TextOrder(a: string, b: string, c: string)
    ensures !(TextLess(a, b) && TextLess(b, a)) && (TextLess(a, b) || TextLess(b, a) || a == b)
    ensures TextLess(a, b) && TextLess(b, c) ==> TextLess(a, c)
    ensures !TextLess(a, a)
  {
    if a != "" && b != "" && a[0] == b[0] {
      TextOrder(a[1..], b[1..], if c == "" then "" else c[1..]);
      assert a == [a[0]] + a[1..] && b == [b[0]] + b[1..];
    } else if a != "" {
      TextOrder(a[1..], "", "");
    }
  }

  /** Less is a strict order, total on values of one type. */
  lemma ValueOrder(a: Value, b: Value, c: Value)
    ensures !Less(a, a) && !(Less(a, b) && Less(b, a))
    ensures Less(a, b) && Less(b, c) ==> Less(a, c)
    ensures SameType(a, b) ==> Less(a, b) || Less(b, a) || a == b
    ensures Less(a, b) ==> SameType(a, b)
  {
    match (a, b)
    case (Text(x), Text(y)) => TextOrder(x, y, if c.Text? then c.s else "");
    case (Text(x), _) => TextOrder(x, x, x);
    case _ =>
  }

  // ----- Meaning of a condition

  function Eval(e: Rex, fieldNames: seq<string>, row: Row): Option<Value> {
    match e
    case InputRef(i) => if i < |fieldNames| && fieldNames[i] in row then Some(row[fieldNames[i]]) else None
    case Lit(l) => Some(l.value)
    case Cast(operand, conv) =>
      var v := Eval(operand, fieldNames, row);
      if v.None? then None else Some(conv(v.value))
    case Item(name) => if name in row then Some(row[name]) else None
    case Function => None
  }

  predicate Compare(kind: Kind, a: Value, b: Value) {
    match kind
    case EQUALS => a == b
    case NOT_EQUALS => a != b
    case LESS_THAN => Less(a, b)
    case LESS_THAN_OR_EQUAL => Less(a, b) || a == b
    case GREATER_THAN => Less(b, a)
    case GREATER_THAN_OR_EQUAL => Less(b, a) || a == b
    case LIKE => a.Text? && b.Text? && Like(b.s, a.s)
    case OTHER => false
  }

  /** A comparison with NULL does not hold. */
  predicate Holds(call: Call, fieldNames: seq<string>, row: Row) {
    var a, b := Eval(call.left, fieldNames, row), Eval(call.right, fieldNames, row);
    a.Some? && b.Some? && Compare(call.kind, a.value, b.value)
  }

  /** A disjunction of conjunctions. */
  ghost predicate Satisfies(or: seq<seq<Call>>, fieldNames: seq<string>, row: Row) {
    exists i | 0 <= i < |or| :: SatisfiesAll(or[i], fieldNames, row)
  }

  ghost predicate SatisfiesAll(calls: seq<Call>, fieldNames: seq<string>, row: Row) {
    forall i | 0 <= i < |calls| :: Holds(calls[i], fieldNames, row)
  }

  // ----- Queries

  datatype Op = Lt | Lte | Gt | Gte | Not | Wild

  /**
    One filter clause. A clause other than a term query is one object with up to three keys; its
    "not" and its "range" share one body, made of an entry under the field's own name and of bounds.
   */
  datatype Clause =
    | Term(field: string, value: Value)
    | Multi(field: string, hasNot: bool, hasRange: bool, wildcard: Option<string>, named: Option<Value>,
            bounds: map<Op, Value>)

  datatype Query = Must(clauses: seq<Clause>) | Should(queries: seq<Query>)

  predicate Within(v: Value, op: Op, bound: Value) {
    match op
    case Lt => Less(v, bound)
    case Lte => Less(v, bound) || v == bound
    case Gt => Less(bound, v)
    case Gte => Less(bound, v) || v == bound
    case _ => false
  }

  /** A body that serves both a term and a range query is malformed. */
  predicate WellFormedClause(c: Clause) {
    c.Multi? ==> !(c.hasNot && c.hasRange)
  }

  /** The server: a malformed clause matches nothing, several keys of one clause must all match. */
  predicate MatchesClause(c: Clause, row: Row) {
    && WellFormedClause(c)
    && match c
       case Term(field, value) => field in row && row[field] == value
       case Multi(field, hasNot, hasRange, wildcard, named, bounds) =>
         && (hasNot ==> !(field in row && Some(row[field]) == named))
         && (wildcard.Some? ==> field in row && row[field].Text? && Wildcard(wildcard.value, row[field].s))
         && (hasRange ==> field in row && forall op | op in bounds :: Within(row[field], op, bounds[op]))
  }

  ghost predicate Matches(q: Query, row: Row) {
    match q
    case Must(clauses) => forall i | 0 <= i < |clauses| :: MatchesClause(clauses[i], row)
    case Should(queries) => exists i | 0 <= i < |queries| :: Matches(queries[i], row)
  }
}
