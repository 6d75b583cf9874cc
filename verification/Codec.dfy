/**
  The wire form of RPC messages: a type byte, the request id as eight bytes, and then the body, or
  for a failure its error text with a four-byte length in front.
 */
module Codec {
  import opened Results
  import opened JavaText
  import Rpc

  type Byte = b: int | 0 <= b < 0x100

  type Bytes = seq<Byte>

  // ----- Big-endian numbers

  function Power(k: nat): (p: nat)
    ensures p > 0
  {
    if k == 0 then 1 else 0x100 * Power(k - 1)
  }

  /** The last k base-256 digits of v, the most significant first. */
  function Digits(v: nat, k: nat): (s: Bytes)
    ensures |s| == k
  {
    if k == 0 then [] else Digits(v / 0x100, k - 1) + [v % 0x100]
  }

  function FromDigits(s: Bytes): nat {
    if s == [] then 0 else FromDigits(s[..|s| - 1]) * 0x100 + s[|s| - 1]
  }

  lemma {:induction false} DigitsRoundTrip(v: nat, k: nat)
    requires v < Power(k)
    ensures FromDigits(Digits(v, k)) == v
  {
    if k > 0 {
      DigitsRoundTrip(v / 0x100, k - 1);
      assert Digits(v, k)[..k - 1] == Digits(v / 0x100, k - 1);
    }
  }

  lemma {:induction false} FromDigitsRoundTrip(s: Bytes)
    ensures FromDigits(s) < Power(|s|) && Digits(FromDigits(s), |s|) == s
  {
    if s != [] {
      FromDigitsRoundTrip(s[..|s| - 1]);
      assert s == s[..|s| - 1] + [s[|s| - 1]];
    }
  }

  /** A signed number of 8 * k bits in two's complement. */
  function SignedBytes(v: int, k: nat): (s: Bytes)
    requires 0 - Power(k) <= 2 * v < Power(k)
    ensures |s| == k
  {
    Digits(if v < 0 then v + Power(k) else v, k)
  }

  function SignedValue(s: Bytes): (v: int)
    ensures 0 - Power(|s|) <= 2 * v < Power(|s|)
  {
    FromDigitsRoundTrip(s);
    var v := FromDigits(s);
    if 2 * v >= Power(|s|) then v - Power(|s|) else v
  }

  lemma SignedRoundTrip(v: int, k: nat)
    requires 0 - Power(k) <= 2 * v < Power(k)
    ensures SignedValue(SignedBytes(v, k)) == v
  {
    DigitsRoundTrip(if v < 0 then v + Power(k) else v, k);
  }

  lemma SignedValueRoundTrip(s: Bytes)
    ensures SignedBytes(SignedValue(s), |s|) == s
  {
    FromDigitsRoundTrip(s);
  }

  lemma Widths()
    ensures Power(4) == 0x1_0000_0000
    ensures Power(8) == 0x1_0000_0000_0000_0000
  {
    assert Power(2) == 0x1_0000;
    assert Power(6) == 0x1_0000_0000_0000;
  }

  function LongBytes(v: Rpc.Id): (s: Bytes)
    ensures |s| == 8 && SignedValue(s) == v
  {
    Widths();
    SignedRoundTrip(v, 8);
    SignedBytes(v, 8)
  }

  function IntBytes(v: Int32): (s: Bytes)
    ensures |s| == 4 && SignedValue(s) == v
  {
    Widths();
    SignedRoundTrip(v, 4);
    SignedBytes(v, 4)
  }

  // ----- Messages

  datatype Message =
    | RpcRequest(requestId: Rpc.Id, body: Bytes)
    | RpcResponse(requestId: Rpc.Id, body: Bytes)
    | RpcFailure(requestId: Rpc.Id, errorString: string)
  {
    predicate HasBody() {
      !RpcFailure?
    }

    function TypeId(): Byte {
      match this
      case RpcRequest(_, _) => 1
      case RpcResponse(_, _) => 2
      case RpcFailure(_, _) => 3
    }
  }

  /**
    A pair of conversions between text and bytes. Nothing is asked of them: UTF-8 gives back most
    texts and most byte strings, but not an unpaired surrogate and not a malformed sequence.
   */
  datatype Charset = Charset(bytes: string -> Bytes, text: Bytes -> string)

  datatype Failure = UnknownType(id: Byte) | OutOfBounds | NegativeLength | NegativeCapacity

  /** `encodedLength` before it is cut to 32 bits. */
  function EncodedLength(m: Message, utf8: Charset): nat {
    if m.RpcFailure? then 8 + (4 + |utf8.bytes(m.errorString)|) else 8
  }

  /** A text with its length in front. */
  function TextBytes(s: string, utf8: Charset): Bytes
    requires |utf8.bytes(s)| <= INT_MAX
  {
    IntBytes(|utf8.bytes(s)|) + utf8.bytes(s)
  }

  /** What a message writes between its type and its body. */
  function Fields(m: Message, utf8: Charset): Bytes
    requires m.RpcFailure? ==> |utf8.bytes(m.errorString)| <= INT_MAX
  {
    LongBytes(m.requestId) + if m.RpcFailure? then TextBytes(m.errorString, utf8) else []
  }

  /** The bytes in front of the body, as many as the declared lengths of the type and the message. */
  function Header(m: Message, utf8: Charset): (h: Bytes)
    requires m.RpcFailure? ==> |utf8.bytes(m.errorString)| <= INT_MAX
    ensures |h| == 1 + EncodedLength(m, utf8)
  {
    [m.TypeId()] + Fields(m, utf8)
  }

  function Frame(m: Message, utf8: Charset): Bytes
    requires m.RpcFailure? ==> |utf8.bytes(m.errorString)| <= INT_MAX
  {
    Header(m, utf8) + if m.HasBody() then m.body else []
  }

  /** What the decoder makes of the bytes after a length-prefixed text starts. */
  function TextIn(s: Bytes, utf8: Charset): Result<string, Failure> {
    if |s| < 4 then Err(OutOfBounds)
    else
      var length := SignedValue(s[..4]);
      if length < 0 then Err(NegativeLength)
      else if |s| < 4 + length then Err(OutOfBounds)
      else Ok(utf8.text(s[4..4 + length]))
  }

  /** What the decoder makes of a frame. */
  function Decoded(s: Bytes, utf8: Charset): Result<Message, Failure> {
    if |s| < 1 then Err(OutOfBounds)
    else if s[0] !in {1, 2, 3} then Err(UnknownType(s[0]))
    else if |s| < 9 then Err(OutOfBounds)
    else
      Widths();
      var requestId: Rpc.Id := SignedValue(s[1..9]);
      match s[0]
      case 1 => Ok(RpcRequest(requestId, s[9..]))
      case 2 => Ok(RpcResponse(requestId, s[9..]))
      case _ =>
        var text := TextIn(s[9..], utf8);
        if text.Err? then Err(text.error) else Ok(RpcFailure(requestId, text.value))
  }

  /** The message with its error text as the character set gives it back. */
  function ThroughCharset(m: Message, utf8: Charset): Message {
    if m.RpcFailure? then m.(errorString := utf8.text(utf8.bytes(m.errorString))) else m
  }

  /**
    A decoded frame is the message that was encoded, with its error text as the character set gives
    it back; so the round trip is exact if and only if that text is unchanged.
   */
  lemma FrameRoundTrip(m: Message, utf8: Charset)
    requires m.RpcFailure? ==> |utf8.bytes(m.errorString)| <= INT_MAX
    ensures Decoded(Frame(m, utf8), utf8) == Ok(ThroughCharset(m, utf8))
    ensures Decoded(Frame(m, utf8), utf8) == Ok(m) <==>
      (m.RpcFailure? ==> utf8.text(utf8.bytes(m.errorString)) == m.errorString)
  {
    var s := Frame(m, utf8);
    assert s[1..9] == LongBytes(m.requestId);
    if m.RpcFailure? {
      var text := utf8.bytes(m.errorString);
      assert s[9..] == IntBytes(|text|) + text;
      assert s[9..][..4] == IntBytes(|text|);
      assert s[9..][4..4 + |text|] == text;
    } else {
      assert s[9..] == m.body;
    }
  }

  /** Two messages whose texts survive the character set never share a frame. */
  lemma FramesAreDistinct(m: Message, n: Message, utf8: Charset)
    requires m.RpcFailure? ==> |utf8.bytes(m.errorString)| <= INT_MAX
    requires n.RpcFailure? ==> |utf8.bytes(n.errorString)| <= INT_MAX
    requires ThroughCharset(m, utf8) == m && ThroughCharset(n, utf8) == n
    ensures Frame(m, utf8) == Frame(n, utf8) ==> m == n
  {
    FrameRoundTrip(m, utf8);
    FrameRoundTrip(n, utf8);
  }

  /** A length field reads as n exactly when it is how n is written. */
  lemma LengthField(s: Bytes, n: Int32)
    requires |s| == 4
    ensures IntBytes(n) == s <==> SignedValue(s) == n
  {
    SignedValueRoundTrip(s);
  }

  lemma TextRoundTrip(s: Bytes, text: string, utf8: Charset)
    requires |s| >= 4 && |utf8.bytes(text)| <= INT_MAX
    ensures TextBytes(text, utf8) == s <==>
      |s| == 4 + SignedValue(s[..4]) && utf8.bytes(text) == s[4..]
  {
    LengthField(s[..4], |utf8.bytes(text)|);
    assert s == s[..4] + s[4..];
    if TextBytes(text, utf8) == s {
      assert s[..4] == IntBytes(|utf8.bytes(text)|);
    }
  }

  /**
    Encoding a decoded request or response gives the frame back. For a failure it does exactly when
    nothing follows the text and the text's bytes survive the character set.
   */
  lemma DecodedRoundTrip(s: Bytes, utf8: Charset)
    requires Decoded(s, utf8).Ok?
    requires Decoded(s, utf8).value.RpcFailure? ==>
      |utf8.bytes(Decoded(s, utf8).value.errorString)| <= INT_MAX
    ensures var m := Decoded(s, utf8).value;
      Frame(m, utf8) == s <==>
      (m.RpcFailure? ==> |s| == 13 + SignedValue(s[9..13]) && utf8.bytes(m.errorString) == s[13..])
  {
    var m := Decoded(s, utf8).value;
    var idBytes := LongBytes(m.requestId);
    assert idBytes == s[1..9] by {
      SignedValueRoundTrip(s[1..9]);
    }
    assert s == [s[0]] + (s[1..9] + s[9..]);
    if m.RpcFailure? {
      assert s[9..][..4] == s[9..13] && s[9..][4..] == s[13..];
      TextRoundTrip(s[9..], m.errorString, utf8);
      assert Frame(m, utf8) == [s[0]] + (s[1..9] + TextBytes(m.errorString, utf8));
      assert Frame(m, utf8)[9..] == TextBytes(m.errorString, utf8);
    }
  }

  // ----- Buffers

  /** A growing buffer that is written at its end and read from the front. */
  class ByteBuf {
    var bytes: Bytes
    var readerIndex: nat

    predicate Valid()
      reads this
    {
      readerIndex <= |bytes|
    }

    function Readable(): Bytes
      requires Valid()
      reads this
    {
      bytes[readerIndex..]
    }

    constructor (bytes: Bytes)
      ensures this.bytes == bytes && readerIndex == 0
    {
      this.bytes := bytes;
      this.readerIndex := 0;
    }

    method Write(more: Bytes)
      modifies `bytes
      ensures bytes == old(bytes) + more
    {
      bytes := bytes + more;
    }

    /** Reads the next bytes, or throws and leaves the buffer as it was. */
    method Read(count: nat) returns (read: Option<Bytes>)
      requires Valid()
      modifies `readerIndex
      ensures Valid()
      ensures read.Some? <==> count <= |old(Readable())|
      ensures read.Some? ==> read.value == old(Readable())[..count] && Readable() == old(Readable())[count..]
      ensures read.None? ==> readerIndex == old(readerIndex)
    {
      if |bytes| - readerIndex < count {
        return None;
      }
      read := Some(bytes[readerIndex..readerIndex + count]);
      readerIndex := readerIndex + count;
    }
  }

  // ----- The encoder and the decoder

  /** A length as a 32-bit number; the lengths here exceed the range by less than its width. */
  function Int32Of(n: nat): Int32
    requires n < 2 * (INT_MAX + 1)
  {
    if n <= INT_MAX then n else n - 2 * (INT_MAX + 1)
  }

  method EncodeString(buf: ByteBuf, s: string, utf8: Charset)
    requires |utf8.bytes(s)| <= INT_MAX
    modifies buf`bytes
    ensures buf.bytes == old(buf.bytes) + TextBytes(s, utf8)
  {
    var bytes := utf8.bytes(s);
    buf.Write(IntBytes(|bytes|));
    buf.Write(bytes);
  }

  method EncodeFields(m: Message, buf: ByteBuf, utf8: Charset)
    requires m.RpcFailure? ==> |utf8.bytes(m.errorString)| <= INT_MAX
    modifies buf`bytes
    ensures buf.bytes == old(buf.bytes) + Fields(m, utf8)
    ensures |buf.bytes| == |old(buf.bytes)| + EncodedLength(m, utf8)
  {
    buf.Write(LongBytes(m.requestId));
    if m.RpcFailure? {
      EncodeString(buf, m.errorString, utf8);
    }
  }

  /**
    Adds the message's frame to the output. The header buffer is sized by the declared length, which
    is exactly what is written; a text so long that the length does not fit 32 bits is refused.
   */
  method Encode(m: Message, out: seq<Bytes>, utf8: Charset) returns (r: Result<seq<Bytes>, Failure>)
    requires m.RpcFailure? ==> |utf8.bytes(m.errorString)| <= INT_MAX
    ensures r.Ok? <==> |Header(m, utf8)| <= INT_MAX
    ensures r.Ok? ==> r.value == out + [Frame(m, utf8)]
    ensures r.Err? ==> r.error == NegativeCapacity
  {
    var headerLength := Int32Of(1 + EncodedLength(m, utf8));
    if headerLength < 0 {
      return Err(NegativeCapacity);
    }
    var header := new ByteBuf([]);
    header.Write([m.TypeId()]);
    EncodeFields(m, header, utf8);
    assert header.bytes == Header(m, utf8);
    assert |header.bytes| == headerLength;
    if m.HasBody() {
      r := Ok(out + [header.bytes + m.body]);
    } else {
      assert header.bytes + [] == header.bytes;
      r := Ok(out + [header.bytes]);
    }
  }

  method DecodeString(buf: ByteBuf, utf8: Charset) returns (r: Result<string, Failure>)
    requires buf.Valid()
    modifies buf`readerIndex
    ensures r == TextIn(old(buf.Readable()), utf8)
  {
    var prefix := buf.Read(4);
    if prefix.None? {
      return Err(OutOfBounds);
    }
    var length := SignedValue(prefix.value);
    if length < 0 {
      return Err(NegativeLength);
    }
    var bytes := buf.Read(length);
    if bytes.None? {
      return Err(OutOfBounds);
    }
    assert bytes.value == old(buf.Readable())[4..4 + length];
    r := Ok(utf8.text(bytes.value));
  }

  /** Adds the message in the buffer to the output, or throws. */
  method Decode(buf: ByteBuf, out: seq<Message>, utf8: Charset) returns (r: Result<seq<Message>, Failure>)
    requires buf.Valid()
    modifies buf`readerIndex
    ensures var decoded := Decoded(old(buf.Readable()), utf8);
      && r == (if decoded.Ok? then Ok(out + [decoded.value]) else Err(decoded.error))
      && (r.Ok? ==> decoded.value.TypeId() == old(buf.Readable())[0])
  {
    var id := buf.Read(1);
    if id.None? {
      return Err(OutOfBounds);
    }
    var typeId := id.value[0];
    if typeId !in {1, 2, 3} {
      return Err(UnknownType(typeId));
    }
    var idBytes := buf.Read(8);
    if idBytes.None? {
      return Err(OutOfBounds);
    }
    assert idBytes.value == old(buf.Readable())[1..9];
    assert buf.Readable() == old(buf.Readable())[9..];
    Widths();
    var requestId: Rpc.Id := SignedValue(idBytes.value);
    match typeId {
      case 1 => r := Ok(out + [RpcRequest(requestId, buf.Readable())]);
      case 2 => r := Ok(out + [RpcResponse(requestId, buf.Readable())]);
      case _ =>
        var text := DecodeString(buf, utf8);
        r := if text.Err? then Err(text.error) else Ok(out + [RpcFailure(requestId, text.value)]);
    }
  }
}
