/**
  The enumerator over an aggregation response: recursion that appends to a list of
  row arrays and writes into the last of them. Its methods are proved to compute
  `Handle` and never to touch a finished row.
 */
module AggregationEnumerators {
  import opened Aggregations
  import opened Results

  /** The column of each selected field: a later duplicate of a name wins. */
  function OrderOf(fields: seq<string>): (order: map<string, nat>)
    ensures forall name | name in order :: order[name] < |fields| && fields[order[name]] == name
    ensures forall name | name in fields :: name in order
  {
    if fields == [] then map[]
    else OrderOf(fields[..|fields| - 1])[fields[|fields| - 1] := |fields| - 1]
  }

  class AggregationEnumerator {
    const fields: seq<string>
    const fetchLines: int
    var fieldOrder: map<string, nat>
    var lines: seq<array<Cell>>
    var currentLineIndex: nat
    var cursor: nat              // position of the iterator over `lines`
    var passedLines: nat
    var current: Option<Row>

    ghost predicate Valid()
      reads this, lines
    {
      && |lines| > 0 && currentLineIndex == |lines| - 1
      && (forall i | 0 <= i < |lines| :: lines[i].Length == |fields|)
      && (forall i, j | 0 <= i < j < |lines| :: lines[i] != lines[j])
      && fieldOrder == OrderOf(fields)
      && cursor <= |lines| && passedLines == cursor
    }

    ghost function Contents(): (rows: seq<Row>)
      reads this, lines
      ensures |rows| == |lines|
    {
      seq(|lines|, i requires 0 <= i < |lines| reads this, lines => lines[i][..])
    }

    /** What the enumerator has still to hand out. */
    ghost function Remaining(): seq<Row>
      requires Valid()
      reads this, lines
    {
      if fetchLines == -1 || |lines| <= fetchLines then Contents()[cursor..]
      else if cursor <= fetchLines then Contents()[cursor..fetchLines]
      else []
    }

    constructor (aggregations: seq<Aggregation>, fields: seq<string>, fetchLines: int)
      ensures Valid() && fresh(lines)
      ensures this.fields == fields && this.fetchLines == fetchLines
      ensures Contents() == Handle(aggregations, [Blank(|fields|)], OrderOf(fields)).lines
      ensures cursor == 0
    {
      this.fields, this.fetchLines := fields, fetchLines;
      fieldOrder, lines, currentLineIndex, cursor, passedLines, current := map[], [], 0, 0, 0, None;
      new;
      for i := 0 to |fields|
        invariant fieldOrder == OrderOf(fields[..i])
        invariant lines == [] && currentLineIndex == cursor == passedLines == 0
      {
        assert fields[..i + 1][..i] == fields[..i];
        fieldOrder := fieldOrder[fields[i] := i];
      }
      assert fields[..|fields|] == fields;
      var blank := new Cell[|fields|](_ => Null);
      lines := [blank];
      assert lines[0][..] == Blank(|fields|);
      assert Contents() == [Blank(|fields|)];
      var ok := HandleAggregations(aggregations, 0);  // an exception is printed and swallowed
    }

    /** Returns false where the original throws. */
    method HandleAggregations(aggs: seq<Aggregation>, level: nat) returns (ok: bool)
      requires Valid()
      modifies this`lines, this`currentLineIndex, Last(lines)
      ensures Valid() && old(lines) <= lines
      ensures forall i | old(|lines|) <= i < |lines| :: fresh(lines[i])
      ensures Outcome(Contents(), ok) == Handle(aggs, old(Contents()), fieldOrder)
      decreases aggs, 0
    {
      var numeric := AllNumericAggregations(aggs);
      if numeric {
        ok := CreateLineForNumericAggregations(aggs, lines[currentLineIndex]);
        return;
      }
      if |aggs| > 1 {
        return false;
      }
      match aggs[0]
      case SingleBucket(_, sub) => ok := HandleAggregations(sub, level + 1);
      case MultiBuckets(name, buckets) => ok := HandleMultiBuckets(name, buckets, level);
      case _ => ok := true;
    }

    method HandleMultiBuckets(name: string, buckets: seq<Bucket>, level: nat) returns (ok: bool)
      requires Valid()
      modifies this`lines, this`currentLineIndex, Last(lines)
      ensures Valid() && old(lines) <= lines
      ensures forall i | old(|lines|) <= i < |lines| :: fresh(lines[i])
      ensures Outcome(Contents(), ok) == HandleBuckets(name, buckets, true, old(Contents()), fieldOrder)
      decreases buckets, 0
    {
      var selected := name in fieldOrder;
      var firstLine := true;
      var i := 0;
      while i < |buckets|
        invariant i <= |buckets| && firstLine == (i == 0)
        invariant Valid() && old(lines) <= lines
        invariant forall k | old(|lines|) <= k < |lines| :: fresh(lines[k])
        invariant HandleBuckets(name, buckets[i..], firstLine, Contents(), fieldOrder)
               == HandleBuckets(name, buckets, true, old(Contents()), fieldOrder)
      {
        assert buckets[i..][0] == buckets[i] && buckets[i..][1..] == buckets[i + 1..];
        ok := HandleBucket(name, selected, buckets[i], firstLine, level);
        firstLine := false;
        if !ok {
          return;
        }
        i := i + 1;
      }
      ok := true;
    }

    /** The loop body. */
    method HandleBucket(name: string, selected: bool, bucket: Bucket, firstLine: bool, level: nat) returns (ok: bool)
      requires Valid() && selected == (name in fieldOrder)
      modifies this`lines, this`currentLineIndex, Last(lines)
      ensures Valid() && old(lines) <= lines
      ensures forall i | old(|lines|) <= i < |lines| :: fresh(lines[i])
      ensures Outcome(Contents(), ok) ==
              Handle(bucket.sub, BeginBucket(name, bucket.key, firstLine, old(Contents()), fieldOrder), fieldOrder)
      decreases bucket
    {
      BeginLine(name, selected, bucket.key, firstLine);
      ok := HandleAggregations(bucket.sub, level + 1);
    }

    /**
      The head of the loop body: the last row is cloned, and for every bucket but the first the
      clone becomes the row under construction. A finished row is never written again.
     */
    method BeginLine(name: string, selected: bool, key: string, firstLine: bool)
      requires Valid() && selected == (name in fieldOrder)
      modifies this`lines, this`currentLineIndex, Last(lines)
      ensures Valid() && old(lines) <= lines
      ensures forall i | old(|lines|) <= i < |lines| :: fresh(lines[i])
      ensures Last(lines) == old(Last(lines)) || fresh(Last(lines))
      ensures Contents() == BeginBucket(name, key, firstLine, old(Contents()), fieldOrder)
    {
      var currentLine := lines[currentLineIndex];
      var clonedLine := new Cell[currentLine.Length](
        k requires 0 <= k < currentLine.Length reads currentLine => currentLine[k]);
      assert clonedLine[..] == currentLine[..] == Last(Contents());
      if !firstLine {
        AppendLine(clonedLine);
      }
      if selected {
        SetCell(fieldOrder[name], Key(key));
      }
    }

    method AppendLine(line: array<Cell>)
      requires Valid() && line !in lines && line.Length == |fields|
      modifies this`lines, this`currentLineIndex
      ensures Valid() && lines == old(lines) + [line]
      ensures Contents() == old(Contents()) + [line[..]]
    {
      currentLineIndex := currentLineIndex + 1;
      lines := lines + [line];
    }

    method SetCell(column: nat, cell: Cell)
      requires Valid() && column < |fields|
      modifies Last(lines)
      ensures Valid()
      ensures Contents() == SetLast(old(Contents()), old(Last(Contents()))[column := cell])
    {
      lines[currentLineIndex][column] := cell;
    }

    method AllNumericAggregations(aggs: seq<Aggregation>) returns (all: bool)
      ensures all == AllNumeric(aggs)
    {
      for i := 0 to |aggs|
        invariant AllNumeric(aggs[..i])
      {
        if !(aggs[i].SingleValue? || aggs[i].MultiValue?) {
          return false;
        }
      }
      return true;
    }

    method CreateLineForNumericAggregations(aggs: seq<Aggregation>, line: array<Cell>) returns (ok: bool)
      requires AllNumeric(aggs)
      requires forall name | name in fieldOrder :: fieldOrder[name] < line.Length
      modifies line
      ensures (line[..], ok) == WriteMetrics(aggs, old(line[..]), fieldOrder)
    {
      for i := 0 to |aggs|
        invariant WriteMetrics(aggs[i..], line[..], fieldOrder) == WriteMetrics(aggs, old(line[..]), fieldOrder)
      {
        if aggs[i].SingleValue? {
          if aggs[i].name !in fieldOrder {
            return false;
          }
          ghost var before := line[..];
          line[fieldOrder[aggs[i].name]] := Num(aggs[i].value);
          assert line[..] == Write(before, fieldOrder, aggs[i].name, Num(aggs[i].value));
        }
      }
      return true;
    }

    /** Hands out the remaining rows in order, up to `fetchLines` of them. */
    method MoveNext() returns (moved: bool)
      requires Valid()
      modifies this`cursor, this`passedLines, this`current
      ensures Valid() && Contents() == old(Contents())
      ensures moved == (old(Remaining()) != [])
      ensures moved ==> current == Some(old(Remaining())[0]) && Remaining() == old(Remaining())[1..]
      ensures !moved ==> current == None && Remaining() == old(Remaining())
    {
      if fetchLines != -1 && passedLines >= fetchLines {
        current := None;
        return false;
      }
      if cursor < |lines| {
        passedLines := passedLines + 1;
        current := Some(lines[cursor][..]);
        cursor := cursor + 1;
        return true;
      }
      current := None;
      return false;
    }
  }
}
