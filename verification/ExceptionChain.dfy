/**
  A chain of exceptions printed as lines of text, where each cause leaves out the frames it
  shares with the exception it caused, and parsed back. The methods follow the loops of the
  original; the functions say what they compute, and the lemmas when the two are inverse.
 */
module ExceptionChain {
  import opened ExceptionLines
  import opened JavaText
  import opened Results

  /** A Java array has at most this many elements. */
  type Trace = s: seq<Frame> | |s| <= INT_MAX

  datatype Throwable = Throwable(className: string, message: Option<string>, trace: Trace, cause: Option<Throwable>)

  // ----- Printing

  /** The number of frames two traces share at their ends. */
  function CommonSuffix(a: seq<Frame>, b: seq<Frame>): (n: nat)
    ensures n <= |a| && n <= |b|
  {
    if a == [] || b == [] || a[|a| - 1] != b[|b| - 1] then 0
    else 1 + CommonSuffix(a[..|a| - 1], b[..|b| - 1])
  }

  function Shared(trace: seq<Frame>, parent: Option<Trace>): (n: nat)
    ensures n <= |trace|
  {
    if parent.None? then 0 else CommonSuffix(trace, parent.value)
  }

  function OwnItems(frames: seq<Frame>): seq<Item> {
    seq(|frames|, i requires 0 <= i < |frames| => Own(frames[i]))
  }

  /** One level: its head, then the first `own` frames of its trace. */
  function LevelItems(ex: Throwable, own: nat): seq<Item>
    requires own <= |ex.trace|
  {
    [Level(ex.className, ex.message, |ex.trace|, own - 1)] + OwnItems(ex.trace[..own])
  }

  function Items(ex: Throwable, parent: Option<Trace>): seq<Item> {
    LevelItems(ex, |ex.trace| - Shared(ex.trace, parent))
    + if ex.cause.None? then [] else Items(ex.cause.value, Some(ex.trace))
  }

  function Rendered(items: seq<Item>): seq<string> {
    seq(|items|, i requires 0 <= i < |items| => Render(items[i]))
  }

  function Print(ex: Throwable, parent: Option<Trace>): seq<string> {
    Rendered(Items(ex, parent))
  }

  method ToLines(ex: Throwable, parent: Option<Trace>) returns (detail: seq<string>)
    ensures detail == Print(ex, parent)
    decreases ex
  {
    var trace := ex.trace;
    var m := LastOwnFrame(trace, parent);
    detail := Enroll(ex, trace, m);
    PrintUnfolds(ex, parent);
    if ex.cause.Some? {
      var rest := ToLines(ex.cause.value, Some(trace));
      detail := detail + rest;
    }
  }

  lemma PrintUnfolds(ex: Throwable, parent: Option<Trace>)
    ensures var level := LevelItems(ex, |ex.trace| - Shared(ex.trace, parent));
            && (ex.cause.None? ==> Print(ex, parent) == Rendered(level))
            && (ex.cause.Some? ==> Print(ex, parent) == Rendered(level) + Print(ex.cause.value, Some(ex.trace)))
  {
    var level := LevelItems(ex, |ex.trace| - Shared(ex.trace, parent));
    var rest := if ex.cause.None? then [] else Items(ex.cause.value, Some(ex.trace));
    assert Items(ex, parent) == level + rest;
    if ex.cause.None? {
      assert level + rest == level;
    } else {
      RenderedConcat(level, rest);
    }
  }

  lemma RenderedConcat(a: seq<Item>, b: seq<Item>)
    ensures Rendered(a + b) == Rendered(a) + Rendered(b)
  {
  }

  /** Walks both traces from their ends while the frames agree. */
  method LastOwnFrame(trace: Trace, parent: Option<Trace>) returns (m: int)
    ensures m == |trace| - 1 - Shared(trace, parent)
  {
    m := |trace| - 1;
    if parent.Some? {
      var p := parent.value;
      var n := |p| - 1;
      assert trace[..m + 1] == trace && p[..n + 1] == p;
      while m >= 0 && n >= 0 && trace[m] == p[n]
        invariant -1 <= m < |trace| && -1 <= n < |p|
        invariant CommonSuffix(trace, p) == |trace| - 1 - m + CommonSuffix(trace[..m + 1], p[..n + 1])
      {
        assert trace[..m + 1][..m] == trace[..m] && p[..n + 1][..n] == p[..n];
        m, n := m - 1, n - 1;
      }
    }
  }

  method Enroll(ex: Throwable, trace: Trace, max: int) returns (details: seq<string>)
    requires trace == ex.trace && -1 <= max < |trace|
    ensures details == Rendered(LevelItems(ex, max + 1))
  {
    var head := Level(ex.className, ex.message, |trace|, max);
    details := [Render(head)];
    var i := 0;
    assert [head] + OwnItems(trace[..0]) == [head];
    while i <= max
      invariant 0 <= i <= max + 1
      invariant details == Rendered([head] + OwnItems(trace[..i]))
    {
      OneMoreFrame(head, trace, i);
      details := details + [Render(Own(trace[i]))];
      i := i + 1;
    }
  }

  lemma OneMoreFrame(head: Item, trace: Trace, i: nat)
    requires i < |trace|
    ensures Rendered([head] + OwnItems(trace[..i + 1]))
         == Rendered([head] + OwnItems(trace[..i])) + [Render(Own(trace[i]))]
  {
    assert [head] + OwnItems(trace[..i + 1]) == [head] + OwnItems(trace[..i]) + [Own(trace[i])];
    RenderedConcat([head] + OwnItems(trace[..i]), [Own(trace[i])]);
  }

  // ----- Parsing

  function Prefixed(frames: seq<Frame>, r: Result<seq<Frame>, Failure>): Result<seq<Frame>, Failure> {
    if r.Err? then r else Ok(frames + r.value)
  }

  /** Reads frames `i` to `unique` of an array of this length, one line each. */
  function ParseFrames(lines: seq<Line>, i: nat, unique: int, length: nat): (r: Result<seq<Frame>, Failure>)
    requires i <= length
    ensures r.Ok? ==> |r.value| <= |lines| && i + |r.value| <= length
    decreases |lines|
  {
    if i > unique then Ok([])
    else if lines == [] then Err(OutOfBounds)
    else if lines[0].frame.Err? then Err(lines[0].frame.error)
    else if i >= length then Err(OutOfBounds)
    else Prefixed([lines[0].frame.value], ParseFrames(lines[1..], i + 1, unique, length))
  }

  /** The frames of one level: those read from its lines, then the shared ones taken from the parent. */
  function Restore(own: seq<Frame>, length: nat, parent: Option<Trace>): (r: Result<seq<Frame>, Failure>)
    requires |own| <= length
    ensures r.Ok? ==> |r.value| == length
  {
    var common := length - |own|;
    if common == 0 then Ok(own)
    else if parent.None? then Err(NullParent)
    else if |parent.value| < common then Err(OutOfBounds)
    else Ok(own + parent.value[|parent.value| - common..])
  }

  /** The trace of the level that starts here, and how many lines of frames it took. */
  function ParseLevel(lines: seq<Line>, parent: Option<Trace>): (r: Result<(Trace, nat), Failure>)
    requires lines != [] && lines[0].header.Ok?
    ensures r.Ok? ==> 1 + r.value.1 <= |lines|
  {
    var h := lines[0].header.value;
    if h.length < 0 then Err(NegativeSize)
    else
      var own := ParseFrames(lines[1..], 0, h.unique, h.length);
      if own.Err? then Err(own.error)
      else
        var trace := Restore(own.value, h.length, parent);
        if trace.Err? then Err(trace.error) else Ok((trace.value, |own.value|))
  }

  /** None where the original returns null: the text does not start a level. */
  function ParseLines(lines: seq<Line>, parent: Option<Trace>): Result<Option<Throwable>, Failure>
    decreases |lines|
  {
    if lines == [] then Err(OutOfBounds)
    else if !lines[0].starred then Ok(None)
    else if lines[0].header.Err? then Err(lines[0].header.error)
    else
      var h, level := lines[0].header.value, ParseLevel(lines, parent);
      if level.Err? then Err(level.error)
      else
        var (trace, own) := level.value;
        var rest := lines[1 + own..];
        var cause := if rest == [] then Ok(None) else ParseLines(rest, Some(trace));
        WithCause(h, trace, cause)
  }

  function WithCause(
    h: Header, trace: Trace, cause: Result<Option<Throwable>, Failure>): Result<Option<Throwable>, Failure> {
    if cause.Err? then cause else Ok(Some(Throwable(h.className, Some(h.message), trace, cause.value)))
  }

  function Scanned(details: seq<string>): (lines: seq<Line>)
    ensures |lines| == |details|
  {
    if details == [] then [] else [Scan(details[0])] + Scanned(details[1..])
  }

  lemma {:induction false} ScannedAt(details: seq<string>, i: nat)
    requires i < |details|
    ensures Scanned(details)[i] == Scan(details[i])
    decreases i
  {
    if i > 0 {
      ScannedAt(details[1..], i - 1);
    }
  }

  function Parse(details: seq<string>, parent: Option<Trace>): Result<Option<Throwable>, Failure> {
    ParseLines(Scanned(details), parent)
  }

  method ReadLine(details: seq<string>, index: nat) returns (line: Line)
    requires index < |details|
    ensures line == Scanned(details)[index]
  {
    ScannedAt(details, index);
    line := Scan(details[index]);
  }

  method ToStackTrace(details: seq<string>, parent: Option<Trace>, index: nat)
    returns (r: Result<Option<Throwable>, Failure>)
    requires index <= |details|
    ensures r == ParseLines(Scanned(details)[index..], parent)
    decreases |details| - index
  {
    if index == |details| {
      return Err(OutOfBounds);
    }
    var next := index + 1;
    ghost var lines := Scanned(details)[index..];
    var line := ReadLine(details, index);
    if !line.starred {
      return Ok(None);
    }
    if line.header.Err? {
      return Err(line.header.error);
    }
    var h := line.header.value;
    if h.length < 0 {
      return Err(NegativeSize);
    }
    var trace := new Frame[h.length];
    var own := ReadFrames(details, next, h.unique, trace);
    assert lines[1..] == Scanned(details)[next..];
    if own.Err? {
      LevelFails(lines, parent, own.error);
      return Err(own.error);
    }
    var failure := CopyShared(trace, own.value, parent);
    if failure.Some? {
      LevelFails(lines, parent, failure.value);
      return Err(failure.value);
    }
    next := next + own.value;
    LevelParsed(lines, parent, trace[..], own.value);
    assert lines[1 + own.value..] == Scanned(details)[next..];
    var cause: Result<Option<Throwable>, Failure> := Ok(None);
    if |details| > next {
      cause := ToStackTrace(details, Some(trace[..]), next);
    }
    if cause.Err? {
      return cause;
    }
    return Ok(Some(Throwable(h.className, Some(h.message), trace[..], cause.value)));
  }

  lemma LevelFails(lines: seq<Line>, parent: Option<Trace>, failure: Failure)
    requires lines != [] && lines[0].starred && lines[0].header.Ok? && ParseLevel(lines, parent) == Err(failure)
    ensures ParseLines(lines, parent) == Err(failure)
  {
  }

  /** A level whose trace could be restored, and what remains to be parsed. */
  lemma LevelParsed(lines: seq<Line>, parent: Option<Trace>, trace: Trace, own: nat)
    requires lines != [] && lines[0].starred && lines[0].header.Ok? && ParseLevel(lines, parent) == Ok((trace, own))
    ensures var h, rest := lines[0].header.value, lines[1 + own..];
            ParseLines(lines, parent)
            == WithCause(h, trace, if rest == [] then Ok(None) else ParseLines(rest, Some(trace)))
  {
  }

  /** Fills the array from its start; the result is the number of frames read. */
  method ReadFrames(details: seq<string>, index: nat, unique: int, trace: array<Frame>)
    returns (r: Result<nat, Failure>)
    requires index <= |details|
    modifies trace
    ensures r.Ok? ==> r.value <= trace.Length && index + r.value <= |details|
    ensures ParseFrames(Scanned(details)[index..], 0, unique, trace.Length)
         == if r.Ok? then Ok(trace[..r.value]) else Err(r.error)
  {
    var i, next := 0, index;
    ghost var lines, frames: seq<Frame> := Scanned(details), [];
    PrefixedByNothing(ParseFrames(lines[next..], 0, unique, trace.Length));
    while i <= unique
      invariant 0 <= i <= trace.Length && next == index + i <= |details| && trace[..i] == frames
      invariant FramesFrom(lines, next, frames, unique, trace.Length)
             == ParseFrames(lines[index..], 0, unique, trace.Length)
    {
      FrameStep(lines, next, frames, unique, trace.Length);
      if next == |details| {
        return Err(OutOfBounds);
      }
      var line := ReadLine(details, next);
      next := next + 1;
      if line.frame.Err? {
        return Err(line.frame.error);
      }
      if i >= trace.Length {
        return Err(OutOfBounds);
      }
      trace[i] := line.frame.value;
      i := i + 1;
      frames := frames + [line.frame.value];
    }
    FramesEnd(lines, next, frames, unique, trace.Length);
    return Ok(i);
  }

  /** The frames read so far, and those that the lines from here on give. */
  function FramesFrom(
    lines: seq<Line>, next: nat, frames: seq<Frame>, unique: int, length: nat): Result<seq<Frame>, Failure>
    requires next <= |lines| && |frames| <= length
  {
    Prefixed(frames, ParseFrames(lines[next..], |frames|, unique, length))
  }

  lemma FrameStep(lines: seq<Line>, next: nat, frames: seq<Frame>, unique: int, length: nat)
    requires next <= |lines| && |frames| <= length && |frames| <= unique
    ensures var r := FramesFrom(lines, next, frames, unique, length);
            if next == |lines| then r == Err(OutOfBounds)
            else if lines[next].frame.Err? then r == Err(lines[next].frame.error)
            else if |frames| == length then r == Err(OutOfBounds)
            else r == FramesFrom(lines, next + 1, frames + [lines[next].frame.value], unique, length)
  {
    if next < |lines| && lines[next].frame.Ok? && |frames| < length {
      assert lines[next..][1..] == lines[next + 1..];
      PrefixedTwice(frames, lines[next].frame.value, ParseFrames(lines[next + 1..], |frames| + 1, unique, length));
    }
  }

  lemma FramesEnd(lines: seq<Line>, next: nat, frames: seq<Frame>, unique: int, length: nat)
    requires next <= |lines| && |frames| <= length && |frames| > unique
    ensures FramesFrom(lines, next, frames, unique, length) == Ok(frames)
  {
    assert frames + [] == frames;
  }

  lemma PrefixedByNothing(r: Result<seq<Frame>, Failure>)
    ensures Prefixed([], r) == r
  {
    if r.Ok? {
      assert [] + r.value == r.value;
    }
  }

  lemma PrefixedTwice(frames: seq<Frame>, f: Frame, r: Result<seq<Frame>, Failure>)
    ensures Prefixed(frames + [f], r) == Prefixed(frames, Prefixed([f], r))
  {
    if r.Ok? {
      assert frames + [f] + r.value == frames + ([f] + r.value);
    }
  }

  /** Takes the frames after the first `i` from the end of the parent's trace. */
  method CopyShared(trace: array<Frame>, i: nat, parent: Option<Trace>) returns (failure: Option<Failure>)
    requires i <= trace.Length
    modifies trace
    ensures Restore(old(trace[..i]), trace.Length, parent)
         == if failure.None? then Ok(trace[..]) else Err(failure.value)
  {
    var common := trace.Length - i;
    if common > 0 {
      if parent.None? {
        return Some(NullParent);
      }
      var p := parent.value;
      if |p| < common {
        return Some(OutOfBounds);
      }
      forall k | 0 <= k < common {
        trace[trace.Length - common + k] := p[|p| - common + k];
      }
      assert trace[..] == old(trace[..i]) + p[|p| - common..];
    } else {
      assert trace[..] == trace[..i];
    }
    return None;
  }

  // ----- Elision

  /** The shared frames are a common suffix, and there is no longer one. */
  lemma {:induction false} CommonSuffixIsLongest(a: seq<Frame>, b: seq<Frame>, k: nat)
    requires k <= |a| && k <= |b|
    ensures a[|a| - k..] == b[|b| - k..] <==> k <= CommonSuffix(a, b)
  {
    if k > 0 {
      var a', b' := a[..|a| - 1], b[..|b| - 1];
      SuffixSnoc(a, k);
      SuffixSnoc(b, k);
      SameSnoc(a'[|a'| - (k - 1)..], a[|a| - 1], b'[|b'| - (k - 1)..], b[|b| - 1]);
      if a[|a| - 1] == b[|b| - 1] {
        CommonSuffixIsLongest(a', b', k - 1);
      }
    }
  }

  lemma SameSnoc(a: seq<Frame>, x: Frame, b: seq<Frame>, y: Frame)
    ensures a + [x] == b + [y] <==> a == b && x == y
  {
    if a + [x] == b + [y] {
      assert a == (a + [x])[..|a|] && b == (b + [y])[..|b|] && (a + [x])[|a|] == x && (b + [y])[|b|] == y;
    }
  }

  lemma SuffixSnoc(a: seq<Frame>, k: nat)
    requires 0 < k <= |a|
    ensures a[|a| - k..] == a[..|a| - 1][|a| - 1 - (k - 1)..] + [a[|a| - 1]]
  {
  }

  // ----- Round trip

  ghost predicate ReadableAll(frames: seq<Frame>) {
    forall i | 0 <= i < |frames| :: Readable(frames[i])
  }

  /** What scanning makes of a rendered item. */
  ghost predicate Reads(line: Line, item: Item) {
    match item
    case Level(className, message, length, max) =>
      && line.starred && line.header.Ok?
      && line.header.value.length == length && line.header.value.unique == max
      && (line.header.value.className == className <==> ':' !in className)
      && (':' !in className && message.Some? ==> line.header.value.message == message.value)
    case Own(f) => line.frame.Ok? && (line.frame.value == f <==> Readable(f))
  }

  ghost predicate ReadsAll(lines: seq<Line>, items: seq<Item>) {
    |lines| == |items| && forall i | 0 <= i < |lines| :: Reads(lines[i], items[i])
  }

  lemma ScanUndoesRender(item: Item)
    ensures Reads(Scan(Render(item)), item)
  {
    match item
    case Level(className, message, length, max) =>
      HeadRoundTrip(className, message, length, max);
      HeadIsStarred(className, message, length, max);
    case Own(f) => FrameRoundTrip(f);
  }

  lemma ScannedRender(items: seq<Item>, i: nat)
    requires i < |items|
    ensures Reads(Scanned(Rendered(items))[i], items[i])
  {
    ScannedAt(Rendered(items), i);
    ScanUndoesRender(items[i]);
  }

  lemma ScannedItems(items: seq<Item>)
    ensures ReadsAll(Scanned(Rendered(items)), items)
  {
    forall i | 0 <= i < |items| ensures Reads(Scanned(Rendered(items))[i], items[i]) {
      ScannedRender(items, i);
    }
  }

  /** Reading the printed frames of a level, one by one. */
  lemma {:induction false} FramesRoundTrip(
    frames: seq<Frame>, rest: seq<Item>, lines: seq<Line>, i: nat, unique: int, length: nat)
    requires unique + 1 == i + |frames| <= length
    requires ReadsAll(lines, OwnItems(frames) + rest)
    ensures var r := ParseFrames(lines, i, unique, length);
            && r.Ok? && |r.value| == |frames|
            && forall k | 0 <= k < |frames| :: r.value[k] == frames[k] <==> Readable(frames[k])
    decreases frames
  {
    if frames != [] {
      assert (OwnItems(frames) + rest)[0] == Own(frames[0]);
      assert (OwnItems(frames) + rest)[1..] == OwnItems(frames[1..]) + rest;
      FramesRoundTrip(frames[1..], rest, lines[1..], i + 1, unique, length);
      var tail := ParseFrames(lines[1..], i + 1, unique, length).value;
      forall k | 0 < k < |frames| ensures tail[k - 1] == frames[k] <==> Readable(frames[k]) {
        assert frames[k] == frames[1..][k - 1];
      }
    }
  }

  /** The elided frames are the parent's last ones. */
  lemma SharedIsReadable(trace: Trace, parent: Option<Trace>)
    requires parent.Some? ==> ReadableAll(parent.value)
    ensures var shared := Shared(trace, parent);
            && ReadableAll(trace[|trace| - shared..])
            && (parent.Some? ==> trace[|trace| - shared..] == parent.value[|parent.value| - shared..])
  {
    if parent.Some? {
      CommonSuffixIsLongest(trace, parent.value, Shared(trace, parent));
    }
  }

  /** A trace with some of its frames elided is restored if and only if the printed ones are readable. */
  lemma TraceRoundTrip(trace: Trace, own: seq<Frame>, parent: Option<Trace>)
    requires |own| == |trace| - Shared(trace, parent)
    requires forall k | 0 <= k < |own| :: own[k] == trace[k] <==> Readable(trace[k])
    requires parent.Some? ==> ReadableAll(parent.value)
    ensures Restore(own, |trace|, parent).Ok?
    ensures Restore(own, |trace|, parent).value == trace <==> ReadableAll(trace)
  {
    SharedIsReadable(trace, parent);
    var tail := trace[|own|..];
    var restored := Restore(own, |trace|, parent).value;
    assert restored == own + tail && trace == trace[..|own|] + tail;
    if ReadableAll(trace) {
      assert own == trace[..|own|];
    } else {
      var i :| 0 <= i < |trace| && !Readable(trace[i]);
      assert restored[i] != trace[i];
    }
  }

  /** What parsing one printed level yields, whatever follows it: never a failure. */
  lemma LevelRoundTrip(ex: Throwable, parent: Option<Trace>, other: Option<Trace>, rest: seq<Item>, lines: seq<Line>)
    returns (h: Header, trace: Trace, tail: seq<Line>)
    requires parent.Some? <==> other.Some?
    requires parent.Some? ==> |parent.value| == |other.value|
    requires ReadsAll(lines, LevelItems(ex, |ex.trace| - Shared(ex.trace, parent)) + rest)
    ensures ReadsAll(tail, rest)
    ensures ParseLines(lines, other)
         == WithCause(h, trace, if tail == [] then Ok(None) else ParseLines(tail, Some(trace)))
    ensures h.className == ex.className <==> ':' !in ex.className
    ensures ':' !in ex.className && ex.message.Some? ==> h.message == ex.message.value
    ensures |trace| == |ex.trace|
    ensures other == parent && (parent.Some? ==> ReadableAll(parent.value)) ==>
              (trace == ex.trace <==> ReadableAll(ex.trace))
  {
    var own := |ex.trace| - Shared(ex.trace, parent);
    LevelReads(ex, own, rest, lines);
    FramesRoundTrip(ex.trace[..own], rest, lines[1..], 0, own - 1, |ex.trace|);
    var frames := ParseFrames(lines[1..], 0, own - 1, |ex.trace|).value;
    h, trace, tail := lines[0].header.value, Restore(frames, |ex.trace|, other).value, lines[1 + own..];
    LevelParsed(lines, other, trace, own);
    if other == parent && (parent.Some? ==> ReadableAll(parent.value)) {
      TraceRoundTrip(ex.trace, frames, parent);
    }
  }

  /** The lines of a level: its head, its own frames, and what follows. */
  lemma LevelReads(ex: Throwable, own: nat, rest: seq<Item>, lines: seq<Line>)
    requires own <= |ex.trace| && ReadsAll(lines, LevelItems(ex, own) + rest)
    ensures |lines| == 1 + own + |rest| && Reads(lines[0], Level(ex.className, ex.message, |ex.trace|, own - 1))
    ensures ReadsAll(lines[1..], OwnItems(ex.trace[..own]) + rest) && ReadsAll(lines[1 + own..], rest)
  {
    var items := LevelItems(ex, own) + rest;
    assert items[0] == Level(ex.className, ex.message, |ex.trace|, own - 1);
    assert items[1..] == OwnItems(ex.trace[..own]) + rest;
    assert items[1 + own..] == rest;
  }

  function Depth(ex: Throwable): nat {
    if ex.cause.None? then 1 else 1 + Depth(ex.cause.value)
  }

  lemma {:induction false} ItemsParse(ex: Throwable, parent: Option<Trace>, other: Option<Trace>, lines: seq<Line>)
    requires parent.Some? <==> other.Some?
    requires parent.Some? ==> |parent.value| == |other.value|
    requires ReadsAll(lines, Items(ex, parent))
    ensures var r := ParseLines(lines, other);
            r.Ok? && r.value.Some? && Depth(r.value.value) == Depth(ex)
    decreases ex
  {
    var rest := if ex.cause.None? then [] else Items(ex.cause.value, Some(ex.trace));
    var h, trace, tail := LevelRoundTrip(ex, parent, other, rest, lines);
    if ex.cause.Some? {
      assert tail != [];
      ItemsParse(ex.cause.value, Some(ex.trace), Some(trace), tail);
    }
  }

  ghost predicate Restorable(ex: Throwable) {
    && ':' !in ex.className && ex.message.Some? && ReadableAll(ex.trace)
    && (ex.cause.Some? ==> Restorable(ex.cause.value))
  }

  lemma {:induction false} ItemsRoundTrip(ex: Throwable, parent: Option<Trace>, lines: seq<Line>)
    requires parent.Some? ==> ReadableAll(parent.value)
    requires ReadsAll(lines, Items(ex, parent))
    ensures ParseLines(lines, parent) == Ok(Some(ex)) <==> Restorable(ex)
    decreases ex
  {
    var rest := if ex.cause.None? then [] else Items(ex.cause.value, Some(ex.trace));
    var h, trace, tail := LevelRoundTrip(ex, parent, parent, rest, lines);
    Rebuilt(ex, h, trace, if tail == [] then Ok(None) else ParseLines(tail, Some(trace)));
    if ex.cause.Some? && ReadableAll(ex.trace) {
      ItemsRoundTrip(ex.cause.value, Some(ex.trace), tail);
    }
  }

  lemma Rebuilt(ex: Throwable, h: Header, trace: Trace, cause: Result<Option<Throwable>, Failure>)
    ensures WithCause(h, trace, cause) == Ok(Some(ex)) <==>
            h.className == ex.className && Some(h.message) == ex.message && trace == ex.trace && cause == Ok(ex.cause)
  {
  }

  /** Parsing a printed chain never fails and gives a chain of the same length, whatever the names and messages hold. */
  lemma PrintedChainParses(ex: Throwable)
    ensures var r := Parse(Print(ex, None), None);
            r.Ok? && r.value.Some? && Depth(r.value.value) == Depth(ex)
  {
    ScannedItems(Items(ex, None));
    ItemsParse(ex, None, None, Scanned(Print(ex, None)));
  }

  /**
    Printing a chain and parsing it rebuilds the chain, elided frames included, if and only if at
    every level the class name holds no colon, the message is not null, and every frame is readable.
    The message itself is arbitrary.
   */
  lemma ChainRoundTrip(ex: Throwable)
    ensures Parse(Print(ex, None), None) == Ok(Some(ex)) <==> Restorable(ex)
  {
    ScannedItems(Items(ex, None));
    ItemsRoundTrip(ex, None, Scanned(Print(ex, None)));
  }
}
