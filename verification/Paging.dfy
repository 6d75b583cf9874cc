/**
  The two cursors that hide paging from their callers: the Elasticsearch scroll enumerator, which
  stops at a row limit or at the first empty page, and the JDBC result, which skips empty pages and
  stops at the first page that says no more follow.

  The server is the sequence of pages it still has to send.
 */
module Paging {
  import opened Results

  // ----- Scrolling with a row limit

  /** The limit that means no limit. */
  const UNLIMITED := -1

  /**
    The state of a scroll: what is left of the page in hand, the pages the server has not sent, the
    limit and the number of rows passed. The counter is compared only when there is a limit, and
    then never exceeds it, so its 32-bit width does not show.
   */
  datatype Scroll<T> = Scroll(cursor: seq<T>, remote: seq<seq<T>>, fetchLines: int, passedLines: nat)
  {
    predicate AtLimit() {
      fetchLines != UNLIMITED && passedLines >= fetchLines
    }
  }

  /** The row a call to `moveNext` makes current, if it returns true, and the state it leaves. */
  function Move<T>(s: Scroll<T>): (Option<T>, Scroll<T>) {
    if s.AtLimit() then
      (None, s)
    else if s.cursor != [] then
      (Some(s.cursor[0]), s.(cursor := s.cursor[1..], passedLines := s.passedLines + 1))
    else if s.remote == [] then
      (None, s)
    else if s.remote[0] == [] then
      (None, s.(remote := s.remote[1..]))
    else
      (Some(s.remote[0][0]),
       s.(cursor := s.remote[0][1..], remote := s.remote[1..], passedLines := s.passedLines + 1))
  }

  /** The rows of the pages before the first empty one. */
  function UpToEmpty<T>(pages: seq<seq<T>>): seq<T> {
    if pages == [] || pages[0] == [] then [] else pages[0] + UpToEmpty(pages[1..])
  }

  /** What a scroll still owes its caller: the rows before the first empty page, cut at the limit. */
  function Remaining<T>(s: Scroll<T>): seq<T> {
    var rows := s.cursor + UpToEmpty(s.remote);
    var left := s.fetchLines - s.passedLines;
    if s.fetchLines == UNLIMITED then rows
    else if left <= 0 then []
    else if left < |rows| then rows[..left]
    else rows
  }

  /** One call takes exactly the first of the remaining rows, and returns false if there is none. */
  lemma MoveTakesFirst<T>(s: Scroll<T>)
    ensures Move(s).0.Some? <==> Remaining(s) != []
    ensures Move(s).0.Some? ==> Remaining(s) == [Move(s).0.value] + Remaining(Move(s).1)
  {
    var (row, next) := Move(s);
    if row.Some? {
      var rows := s.cursor + UpToEmpty(s.remote);
      assert rows == [row.value] + (next.cursor + UpToEmpty(next.remote));
    }
  }

  /** The rows a caller sees who calls `moveNext` until it first returns false. */
  function Emitted<T>(s: Scroll<T>): seq<T>
    decreases |Remaining(s)|
  {
    MoveTakesFirst(s);
    var (row, next) := Move(s);
    if row.None? then [] else [row.value] + Emitted(next)
  }

  /** Whatever the page boundaries, the caller sees the rows before the first empty page, up to the limit. */
  lemma {:induction false} EmitsUpToLimit<T>(s: Scroll<T>)
    ensures Emitted(s) == Remaining(s)
    decreases |Remaining(s)|
  {
    MoveTakesFirst(s);
    if Move(s).0.Some? {
      EmitsUpToLimit(Move(s).1);
    }
  }

  /** Two ways of cutting the same rows into non-empty pages show the caller the same rows. */
  lemma {:induction false} PageSizesDoNotShow<T>(s: Scroll<T>, t: Scroll<T>)
    requires s.cursor + UpToEmpty(s.remote) == t.cursor + UpToEmpty(t.remote)
    requires s.fetchLines == t.fetchLines && s.passedLines == t.passedLines
    ensures Emitted(s) == Emitted(t)
  {
    EmitsUpToLimit(s);
    EmitsUpToLimit(t);
  }

  /**
    After a call that returned false, the next call returns false again exactly when the limit was
    reached or the server has no row to follow the empty page: past an empty page the enumerator
    asks again.
   */
  lemma FalseIsFinal<T>(s: Scroll<T>)
    requires Move(s).0.None?
    ensures Move(Move(s).1).0.None? <==> s.AtLimit() || |s.remote| < 2 || s.remote[1] == []
  {
    if !s.AtLimit() && s.remote != [] {
      assert |s.remote| >= 2 ==> s.remote[1..][0] == s.remote[1];
    }
  }

  class ScrollEnumerator<T> {
    const fetchLines: int
    var cursor: seq<T>
    var current: Option<T>
    var passedLines: nat
    // The pages the server has not sent yet.
    var remote: seq<seq<T>>

    function View(): Scroll<T>
      reads this
    {
      Scroll(cursor, remote, fetchLines, passedLines)
    }

    constructor (cursor: seq<T>, fetchLines: int, remote: seq<seq<T>>)
      ensures View() == Scroll(cursor, remote, fetchLines, 0)
      ensures current == None
    {
      this.cursor := cursor;
      this.fetchLines := fetchLines;
      this.passedLines := 0;
      this.remote := remote;
      this.current := None;
    }

    /** Asks the server for one more page; a server with nothing left answers with an empty one. */
    method ScrollQuery() returns (page: seq<T>)
      modifies `remote
      ensures old(remote) == [] ==> page == [] && remote == []
      ensures old(remote) != [] ==> page == old(remote)[0] && remote == old(remote)[1..]
    {
      if remote == [] {
        page := [];
      } else {
        page, remote := remote[0], remote[1..];
      }
    }

    method MoveNext() returns (moved: bool)
      modifies `cursor, `current, `passedLines, `remote
      ensures View() == Move(old(View())).1
      ensures current == Move(old(View())).0
      ensures moved <==> current.Some?
      ensures moved <==> old(Remaining(View())) != []
      ensures moved ==> old(Remaining(View())) == [current.value] + Remaining(View())
    {
      MoveTakesFirst(View());
      if fetchLines != UNLIMITED && passedLines >= fetchLines {
        current := None;
        return false;
      }
      if |cursor| > 0 {
        passedLines := passedLines + 1;
        current, cursor := Some(cursor[0]), cursor[1..];
        return true;
      }
      var page := ScrollQuery();
      if |page| == 0 {
        current := None;
        return false;
      }
      cursor := page;
      passedLines := passedLines + 1;
      current, cursor := Some(cursor[0]), cursor[1..];
      return true;
    }
  }

  // ----- The JDBC result

  datatype Page<T> = Page(rows: seq<T>, hasMore: bool)

  /** What `next` can do: make a row current, report the end, or throw because the server has no page. */
  datatype Outcome<T> = Row(row: T) | Done | Failed

  /** The state of a result set. */
  datatype Reader<T> = Reader(currentData: seq<T>, rowIndex: nat, hasMoreData: bool, remote: seq<Page<T>>)
  {
    predicate Valid() {
      rowIndex <= |currentData|
    }
  }

  function NextOf<T>(r: Reader<T>): (Outcome<T>, Reader<T>)
    decreases |r.remote|
  {
    if r.rowIndex < |r.currentData| then
      (Row(r.currentData[r.rowIndex]), r.(rowIndex := r.rowIndex + 1))
    else if !r.hasMoreData then
      (Done, r)
    else if r.remote == [] then
      (Failed, r)
    else
      NextOf(Reader(r.remote[0].rows, 0, r.remote[0].hasMore, r.remote[1..]))
  }

  /** The rows of the pages up to and including the first that says no more follow. */
  function PagesToRead<T>(hasMore: bool, pages: seq<Page<T>>): seq<T> {
    if !hasMore || pages == [] then [] else pages[0].rows + PagesToRead(pages[0].hasMore, pages[1..])
  }

  /** Whether the pages contain one that says no more follow, before they run out. */
  predicate Ends<T>(hasMore: bool, pages: seq<Page<T>>) {
    !hasMore || (pages != [] && Ends(pages[0].hasMore, pages[1..]))
  }

  /** The rows a result set still owes its caller. */
  function Unread<T>(r: Reader<T>): seq<T>
    requires r.Valid()
  {
    r.currentData[r.rowIndex..] + PagesToRead(r.hasMoreData, r.remote)
  }

  /**
    One call takes the first unread row, however many empty pages lie before it; with none left it
    reports the end, or throws if the stream broke off.
   */
  lemma {:induction false} NextTakesFirst<T>(r: Reader<T>)
    requires r.Valid()
    ensures var (outcome, after) := NextOf(r);
      && after.Valid()
      && (outcome.Row? <==> Unread(r) != [])
      && (outcome.Row? ==> Unread(r) == [outcome.row] + Unread(after))
      && (!outcome.Row? ==> Unread(after) == [])
      && (outcome.Done? ==> !after.hasMoreData)
      && (outcome.Failed? ==> after.hasMoreData && after.remote == [])
      && Ends(after.hasMoreData, after.remote) == Ends(r.hasMoreData, r.remote)
    decreases |r.remote|
  {
    if r.rowIndex < |r.currentData| {
      var rest := r.currentData[r.rowIndex..];
      assert rest == [rest[0]] + r.currentData[r.rowIndex + 1..];
    } else if r.hasMoreData && r.remote != [] {
      var fetched := Reader(r.remote[0].rows, 0, r.remote[0].hasMore, r.remote[1..]);
      NextTakesFirst(fetched);
      assert Unread(r) == Unread(fetched);
    }
  }

  /** The rows a caller sees who calls `next` until it returns false or throws, and which it was. */
  function Read<T>(r: Reader<T>): (seq<T>, Outcome<T>)
    requires r.Valid()
    decreases |Unread(r)|
  {
    NextTakesFirst(r);
    var (outcome, after) := NextOf(r);
    if outcome.Row? then
      var (rows, end) := Read(after);
      ([outcome.row] + rows, end)
    else
      ([], outcome)
  }

  /**
    The caller sees all pages up to the first that says no more follow, and then false; it sees an
    exception instead exactly when the server never sends such a page.
   */
  lemma {:induction false} ReadsEveryPage<T>(r: Reader<T>)
    requires r.Valid()
    ensures Read(r).0 == Unread(r)
    ensures Read(r).1 == if Ends(r.hasMoreData, r.remote) then Done else Failed
    decreases |Unread(r)|
  {
    NextTakesFirst(r);
    var (outcome, after) := NextOf(r);
    if outcome.Row? {
      ReadsEveryPage(after);
    }
  }

  /** An end once reported is reported by every later call, without asking the server. */
  lemma {:induction false} DoneIsFinal<T>(r: Reader<T>)
    ensures NextOf(r).0.Done? ==> NextOf(NextOf(r).1) == NextOf(r)
    decreases |r.remote|
  {
    if r.rowIndex >= |r.currentData| && r.hasMoreData && r.remote != [] {
      DoneIsFinal(Reader(r.remote[0].rows, 0, r.remote[0].hasMore, r.remote[1..]));
    }
  }

  class MoonboxResult<T> {
    var hasMoreData: bool
    var currentData: seq<T>
    var currentRow: Option<T>
    var rowIndex: nat
    // The pages the server has not sent yet.
    var remote: seq<Page<T>>

    function View(): Reader<T>
      reads this
    {
      Reader(currentData, rowIndex, hasMoreData, remote)
    }

    constructor (first: Page<T>, remote: seq<Page<T>>)
      ensures View() == Reader(first.rows, 0, first.hasMore, remote)
      ensures View().Valid() && Unread(View()) == first.rows + PagesToRead(first.hasMore, remote)
    {
      this.hasMoreData := first.hasMore;
      this.currentData := first.rows;
      this.currentRow := None;
      this.rowIndex := 0;
      this.remote := remote;
    }

    /** A false result leaves the last row current; a thrown one too. */
    method Next() returns (outcome: Outcome<T>)
      requires View().Valid()
      modifies this
      ensures (outcome, View()) == NextOf(old(View()))
      ensures View().Valid()
      ensures old(Unread(View())) == (if outcome.Row? then [outcome.row] else []) + Unread(View())
      ensures currentRow == if outcome.Row? then Some(outcome.row) else old(currentRow)
      decreases |remote|
    {
      NextTakesFirst(View());
      if rowIndex < |currentData| {
        currentRow := Some(currentData[rowIndex]);
        outcome := Row(currentData[rowIndex]);
        rowIndex := rowIndex + 1;
      } else if hasMoreData {
        var fetched := FetchMoreData();
        if !fetched {
          return Failed;
        }
        outcome := this.Next();
      } else {
        outcome := Done;
      }
    }

    method FetchMoreData() returns (fetched: bool)
      modifies `hasMoreData, `currentData, `rowIndex, `remote
      ensures fetched <==> old(remote) != []
      ensures !fetched ==> View() == old(View())
      ensures fetched ==>
        View() == Reader(old(remote)[0].rows, 0, old(remote)[0].hasMore, old(remote)[1..])
    {
      fetched := |remote| > 0;
      if fetched {
        hasMoreData, currentData, rowIndex := remote[0].hasMore, remote[0].rows, 0;
        remote := remote[1..];
      }
    }
  }
}
