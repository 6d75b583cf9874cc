/** Splitting a text of several SQL statements at the semicolons outside parentheses. */
module SqlSplitter {
  import opened Results

  /** The number of parentheses open before position `i`; None once one is closed that was never opened. */
  function DepthAt(s: string, i: nat): Option<nat>
    requires i <= |s|
  {
    if i == 0 then Some(0) else NextDepth(DepthAt(s, i - 1), s[i - 1])
  }

  function NextDepth(depth: Option<nat>, c: char): Option<nat> {
    if depth.None? then None
    else if c == '(' then Some(depth.value + 1)
    else if c == ')' then (if depth.value == 0 then None else Some(depth.value - 1))
    else depth
  }

  /** A semicolon outside parentheses that is not the last character. */
  predicate IsCut(sql: string, i: nat) {
    i + 1 < |sql| && sql[i] == ';' && DepthAt(sql, i) == Some(0)
  }

  /** All the cuts below `n`, in order. */
  ghost predicate IsCuts(sql: string, cuts: seq<nat>, n: nat) {
    && (forall k | 0 <= k < |cuts| :: cuts[k] < n && IsCut(sql, cuts[k]))
    && (forall j, k | 0 <= j < k < |cuts| :: cuts[j] < cuts[k])
    && (forall i: nat | i < n && IsCut(sql, i) :: i in cuts)
  }

  /** `matches("\\s+")` */
  predicate Blank(s: string) {
    s != "" && forall c | c in s :: c as int in {9, 10, 11, 12, 13, 32}
  }

  /** Where the piece that ends at the k-th cut begins. */
  function BeginOf(cuts: seq<nat>, k: nat): nat
    requires k <= |cuts|
  {
    if k == 0 then 0 else cuts[k - 1] + 1
  }

  predicate KeepsLast(sql: string, begin: nat)
    requires begin <= |sql|
  {
    begin != |sql| - 1 && !Blank(sql[begin..])
  }

  /** The pieces: between the cuts, then what follows the last one unless it is dropped. */
  ghost predicate IsSplit(sql: string, cuts: seq<nat>, pieces: seq<string>)
    requires IsCuts(sql, cuts, |sql|)
  {
    var n, begin := |cuts|, BeginOf(cuts, |cuts|);
    if n == 0 then pieces == [sql]
    else
      && |pieces| == (if KeepsLast(sql, begin) then n + 1 else n)
      && (forall k {:trigger pieces[k]} | 0 <= k < n :: pieces[k] == sql[BeginOf(cuts, k)..cuts[k]])
      && (KeepsLast(sql, begin) ==> pieces[n] == sql[begin..])
  }

  /** None where popping the empty stack throws. */
  method SplitSQLs(sql: string) returns (r: Option<seq<string>>, ghost cuts: seq<nat>)
    ensures r.None? <==> DepthAt(sql, |sql|).None?
    ensures r.Some? ==> IsCuts(sql, cuts, |sql|) && IsSplit(sql, cuts, r.value)
  {
    var stack: seq<char> := [];
    var splitIndexes: seq<nat> := [];
    for i := 0 to |sql|
      invariant DepthAt(sql, i) == Some(|stack|)
      invariant IsCuts(sql, splitIndexes, i)
    {
      if sql[i] == ';' {
        if stack == [] && i != |sql| - 1 {
          splitIndexes := splitIndexes + [i];
        }
      }
      if sql[i] == '(' {
        stack := stack + ['('];
      }
      if sql[i] == ')' {
        if stack == [] {
          UnmatchedStays(sql, i + 1);
          return None, [];
        }
        stack := stack[..|stack| - 1];
      }
    }
    var pieces := Split(sql, splitIndexes);
    return Some(pieces), splitIndexes;
  }

  method Split(sql: string, index: seq<nat>) returns (result: seq<string>)
    requires IsCuts(sql, index, |sql|)
    ensures IsSplit(sql, index, result)
  {
    result := [];
    if index == [] {
      return [sql];
    }
    var begin := 0;
    for i := 0 to |index|
      invariant |result| == i && begin == BeginOf(index, i) <= |sql|
      invariant forall k {:trigger result[k]} | 0 <= k < i :: result[k] == sql[BeginOf(index, k)..index[k]]
    {
      var point := index[i];
      assert i > 0 ==> index[i - 1] < index[i];
      result := result + [sql[begin..point]];
      begin := point + 1;
    }
    if begin != |sql| - 1 {
      var lastSql := sql[begin..];
      if !Blank(lastSql) {
        result := result + [lastSql];
      }
    }
  }

  lemma {:induction false} UnmatchedStays(sql: string, n: nat)
    requires n <= |sql| && DepthAt(sql, n).None?
    ensures DepthAt(sql, |sql|).None?
    decreases |sql| - n
  {
    if n < |sql| {
      UnmatchedStays(sql, n + 1);
    }
  }

  // ----- What the pieces are

  /** No semicolon of the text is outside its parentheses. */
  ghost predicate Whole(s: string) {
    forall j | 0 <= j < |s| && s[j] == ';' :: DepthAt(s, j) != Some(0)
  }

  /** A slice that begins outside parentheses has the depths of the text. */
  lemma {:induction false} SliceDepth(sql: string, b: nat, e: nat, j: nat)
    requires b <= e <= |sql| && DepthAt(sql, b) == Some(0) && j <= e - b
    ensures DepthAt(sql[b..e], j) == DepthAt(sql, b + j)
    decreases j
  {
    if j > 0 {
      SliceDepth(sql, b, e, j - 1);
    }
  }

  lemma DepthAtBegin(sql: string, cuts: seq<nat>, k: nat)
    requires IsCuts(sql, cuts, |sql|) && k <= |cuts|
    ensures BeginOf(cuts, k) <= |sql| && DepthAt(sql, BeginOf(cuts, k)) == Some(0)
    ensures k < |cuts| ==> BeginOf(cuts, k) <= cuts[k]
  {
    if k > 0 {
      assert IsCut(sql, cuts[k - 1]);
    }
  }

  /** A stretch of the text without a cut is whole. */
  lemma StretchIsWhole(sql: string, b: nat, e: nat)
    requires b <= e < |sql| && DepthAt(sql, b) == Some(0)
    requires forall i | b <= i < e :: !IsCut(sql, i)
    ensures Whole(sql[b..e])
  {
    var piece := sql[b..e];
    forall j | 0 <= j < |piece| && piece[j] == ';' ensures DepthAt(piece, j) != Some(0) {
      SliceDepth(sql, b, e, j);
      assert !IsCut(sql, b + j);
    }
  }

  /** Every piece but a last one is balanced, and holds no semicolon outside its parentheses. */
  lemma PiecesAreBalanced(sql: string, cuts: seq<nat>, pieces: seq<string>, k: nat)
    requires IsCuts(sql, cuts, |sql|) && IsSplit(sql, cuts, pieces) && k < |cuts|
    ensures DepthAt(pieces[k], |pieces[k]|) == Some(0) && Whole(pieces[k])
  {
    var b, e := BeginOf(cuts, k), cuts[k];
    PieceAt(sql, cuts, pieces, k);
    DepthAtBegin(sql, cuts, k);
    SliceDepth(sql, b, e, e - b);
    NoCutBetween(sql, cuts, k);
    StretchIsWhole(sql, b, e);
  }

  lemma PieceAt(sql: string, cuts: seq<nat>, pieces: seq<string>, k: nat)
    requires IsCuts(sql, cuts, |sql|) && IsSplit(sql, cuts, pieces) && k < |cuts|
    ensures k < |pieces| && BeginOf(cuts, k) <= cuts[k] < |sql| && pieces[k] == sql[BeginOf(cuts, k)..cuts[k]]
    ensures DepthAt(sql, cuts[k]) == Some(0)
  {
    DepthAtBegin(sql, cuts, k);
    assert IsCut(sql, cuts[k]);
  }

  lemma NoCutBetween(sql: string, cuts: seq<nat>, k: nat)
    requires IsCuts(sql, cuts, |sql|) && k < |cuts|
    ensures forall i | BeginOf(cuts, k) <= i < cuts[k] && i < |sql| :: !IsCut(sql, i)
  {
    forall i: nat | i < |sql| && IsCut(sql, i) ensures i < BeginOf(cuts, k) || cuts[k] <= i {
      var j :| 0 <= j < |cuts| && cuts[j] == i;
      if j < k {
        assert cuts[j] <= cuts[k - 1];
      } else {
        assert cuts[k] <= cuts[j];
      }
    }
  }

  // ----- Joining the pieces

  function Join(pieces: seq<string>): string {
    if pieces == [] then ""
    else if |pieces| == 1 then pieces[0]
    else Join(pieces[..|pieces| - 1]) + ";" + pieces[|pieces| - 1]
  }

  lemma {:induction false} JoinBelow(sql: string, cuts: seq<nat>, pieces: seq<string>, k: nat)
    requires IsCuts(sql, cuts, |sql|) && IsSplit(sql, cuts, pieces) && 0 < k <= |cuts|
    ensures Join(pieces[..k]) == sql[..cuts[k - 1]]
    decreases k
  {
    DepthAtBegin(sql, cuts, k - 1);
    var piece := pieces[k - 1];
    if k > 1 {
      JoinBelow(sql, cuts, pieces, k - 1);
      assert pieces[..k][..k - 1] == pieces[..k - 1];
      assert IsCut(sql, cuts[k - 2]);
      SplitAt(sql, cuts[k - 2], cuts[k - 1]);
    }
  }

  lemma SplitAt(sql: string, c: nat, d: nat)
    requires c < d <= |sql| && sql[c] == ';'
    ensures sql[..d] == sql[..c] + ";" + sql[c + 1..d]
  {
  }

  /**
    Joining the pieces restores the text if and only if it was not cut at all or the last piece was
    kept. Otherwise what is missing is the last separator and a piece that is blank or one character long.
   */
  lemma JoinRestores(sql: string, cuts: seq<nat>, pieces: seq<string>)
    requires IsCuts(sql, cuts, |sql|) && IsSplit(sql, cuts, pieces)
    ensures BeginOf(cuts, |cuts|) <= |sql|
    ensures Join(pieces) == sql <==> cuts == [] || KeepsLast(sql, BeginOf(cuts, |cuts|))
    ensures Join(pieces) != sql ==>
              var last := sql[BeginOf(cuts, |cuts|)..];
              sql == Join(pieces) + ";" + last && (|last| == 1 || Blank(last))
  {
    var n := |cuts|;
    DepthAtBegin(sql, cuts, n);
    if n > 0 {
      JoinBelow(sql, cuts, pieces, n);
      var c := cuts[n - 1];
      assert IsCut(sql, c) && sql[..|sql|] == sql;
      SplitAt(sql, c, |sql|);
      JoinLast(pieces, n);
    }
  }

  lemma JoinLast(pieces: seq<string>, n: nat)
    requires 0 < n <= |pieces| <= n + 1
    ensures Join(pieces) == if |pieces| == n then Join(pieces[..n]) else Join(pieces[..n]) + ";" + pieces[n]
  {
    if |pieces| == n {
      assert pieces[..n] == pieces;
    }
  }
}
