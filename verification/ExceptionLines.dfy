/** The lines an exception is printed as: how one is rendered, how it is read, and when reading undoes rendering. */
module ExceptionLines {
  import opened JavaText
  import opened Results

  datatype Frame = Frame(className: string, methodName: string, fileName: Option<string>, lineNumber: Int32)

  datatype Failure = OutOfBounds | BadNumber | NegativeSize | NullParent

  /** A printed line: the head of one level of the chain, or one frame. */
  datatype Item =
    | Level(className: string, message: Option<string>, length: Int32, max: Int32)
    | Own(frame: Frame)

  function Render(item: Item): string {
    match item
    case Level(className, message, length, max) =>
      // `StringBuilder.append` writes null as a word
      var shown := if message.Some? then message.value else "null";
      JoinFields(Fields("*" + className, shown, PrintInt(length), PrintInt(max)))
    case Own(Frame(className, methodName, fileName, lineNumber)) =>
      JoinFields(Fields(className, methodName, if fileName.None? then "" else fileName.value, PrintInt(lineNumber)))
  }

  datatype Header = Header(className: string, message: string, length: Int32, unique: Int32)

  /** A line as the parser may read it: does it start a level, as a header, as a frame. */
  datatype Line = Line(starred: bool, header: Result<Header, Failure>, frame: Result<Frame, Failure>)

  function Scan(text: string): Line {
    Line(text != "" && text[0] == '*', ParseHeader(text), ParseFrame(text))
  }

  /** The class name is the first field without its star; the message may hold colons of its own. */
  function ParseHeader(text: string): Result<Header, Failure> {
    var f := SplitFields(text);
    if f.None? || f.value.first == "" then Err(OutOfBounds)
    else ReadHeader(f.value.first[1..], f.value.middle, ParseInt(f.value.third), ParseInt(f.value.last))
  }

  function ReadHeader(
    className: string, message: string, length: Option<Int32>, unique: Option<Int32>): Result<Header, Failure> {
    if length.None? || unique.None? then Err(BadNumber)
    else Ok(Header(className, message, length.value, unique.value))
  }

  function ParseFrame(text: string): Result<Frame, Failure> {
    var f := SplitFields(text);
    if f.None? then Err(OutOfBounds)
    else
      var number := ParseInt(f.value.last);
      if number.None? then Err(BadNumber)
      else
        var fileName := if f.value.third == "" then None else Some(f.value.third);
        Ok(Frame(f.value.first, f.value.middle, fileName, number.value))
  }

  // ----- Reading a rendered line

  ghost predicate Readable(f: Frame) {
    ':' !in f.className && f.fileName != Some("") && (f.fileName.Some? ==> ':' !in f.fileName.value)
  }

  /**
    A rendered frame always reads as a frame, and comes back unchanged if and only if its class and
    file names hold no colon and its file name is not empty. Method names may hold colons.
   */
  lemma FrameRoundTrip(f: Frame)
    ensures ParseFrame(Render(Own(f))).Ok?
    ensures ParseFrame(Render(Own(f))) == Ok(f) <==> Readable(f)
  {
    var file := if f.fileName.None? then "" else f.fileName.value;
    SplitJoined(Fields(f.className, f.methodName, file, PrintInt(f.lineNumber)));
    ParsePrintedInt(f.lineNumber);
  }

  /**
    A rendered head always reads as a head with the same numbers. Its class name comes back if and
    only if it holds no colon, and then so does the message, colons included, null as a word.
   */
  lemma HeadRoundTrip(className: string, message: Option<string>, length: Int32, max: Int32)
    ensures var h := ParseHeader(Render(Level(className, message, length, max)));
            && h.Ok? && h.value.length == length && h.value.unique == max
            && (h.value.className == className <==> ':' !in className)
            && (':' !in className ==> h.value.message == if message.Some? then message.value else "null")
  {
    ParsePrintedInt(length);
    ParsePrintedInt(max);
    assert ':' !in PrintInt(length) && ':' !in PrintInt(max);
    HeadReads(className, if message.Some? then message.value else "null", PrintInt(length), PrintInt(max));
  }

  lemma HeadReads(className: string, shown: string, length: string, max: string)
    requires ':' !in length && ':' !in max && ParseInt(length).Some? && ParseInt(max).Some?
    ensures var h := ParseHeader(JoinFields(Fields("*" + className, shown, length, max)));
            && h.Ok? && Some(h.value.length) == ParseInt(length) && Some(h.value.unique) == ParseInt(max)
            && (h.value.className == className <==> ':' !in className)
            && (':' !in className ==> h.value.message == shown)
  {
    var start := "*" + className;
    var s := HeadFields(start, shown, length, max);
    HeaderOf(JoinFields(Fields(start, shown, length, max)), s);
    assert start[1..] == className && (':' in start <==> ':' in className);
  }

  lemma HeaderOf(text: string, s: Fields)
    requires SplitFields(text) == Some(s) && s.first != ""
    ensures ParseHeader(text) == ReadHeader(s.first[1..], s.middle, ParseInt(s.third), ParseInt(s.last))
  {
  }

  lemma HeadFields(start: string, shown: string, length: string, max: string) returns (s: Fields)
    requires start != "" && start[0] != ':' && ':' !in length && ':' !in max
    ensures SplitFields(JoinFields(Fields(start, shown, length, max))) == Some(s)
    ensures s.third == length && s.last == max && s.first != ""
    ensures s.first[1..] == start[1..] <==> ':' !in start
    ensures ':' !in start ==> s.middle == shown
  {
    var line := JoinFields(Fields(start, shown, length, max));
    SplitJoined(Fields(start, shown, length, max));
    CutsJoined(Fields(start, shown, length, max));
    s := SplitFields(line).value;
    assert s.first == line[..IndexOf(line, ':')];
  }

  lemma HeadIsStarred(className: string, message: Option<string>, length: Int32, max: Int32)
    ensures Scan(Render(Level(className, message, length, max))).starred
  {
    var text := Render(Level(className, message, length, max));
    assert text[0] == ("*" + className)[0];
  }
}
