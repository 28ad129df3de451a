/** The plaintext frame (proto/api.proto:79-83) and its incremental extraction from a growing receive
    buffer (src/proto.rs).

    `NextMessage` is the extraction as written: its completeness guard does not count the type
    varint, so it can ask the buffer for more bytes than it holds, which aborts the session.
    `NextChecked` is the same extraction with the guard counting every byte it will remove. */
module Framing {
  import opened Words
  import opened Varint

  /** No Rust allocation holds more than isize::MAX bytes. */
  type Body = p: seq<u8> | |p| < 0x8000_0000_0000_0000

  datatype Message = Message(msgType: u32, payload: seq<u8>)

  datatype Extraction = NoFrame | Frame(msg: Message, rest: seq<u8>) | Abort

  datatype Guard = AsWritten | CountsType

  /** Positions in the buffer once the zero byte and both varints have been decoded. */
  datatype Header = Header(typeAt: nat, bodyAt: nat, length: u64, msgType: u64)

  function ParseHeader(buf: seq<u8>): (h: Option<Header>)
    ensures h.Some? ==> 2 <= h.value.typeAt < h.value.bodyAt <= 21 && h.value.bodyAt <= |buf|
  {
    if buf == [] || buf[0] != 0 then None
    else match Decode(buf[1..])
      case Ok(length, lenSize) =>
        (match Decode(buf[1 + lenSize..])
         case Ok(msgType, typeSize) => Some(Header(1 + lenSize, 1 + lenSize + typeSize, length, msgType))
         case _ => None)
      case _ => None
  }

  /** src/proto.rs:48-74: `usize` sums wrap, and both splits abort when out of bounds. */
  function NextMessage(buf: seq<u8>): Extraction {
    if buf == [] || buf[0] != 0 then NoFrame
    else match Decode(buf[1..])
      case Ok(length, lenSize) =>
        var offset := 1 + lenSize;
        if |buf| < (offset + length) % TWO_64 then NoFrame
        else (match Decode(buf[offset..])
              case Ok(msgType, typeSize) =>
                var bodyAt := offset + typeSize;
                var total := (bodyAt + length) % TWO_64;
                if total > |buf| || bodyAt > total then Abort
                else Frame(Message(msgType % 0x1_0000_0000, buf[bodyAt..total]), buf[total..])
              case _ => NoFrame)
      case _ => NoFrame
  }

  /** Does the buffer hold the whole frame the header announces? */
  predicate Complete(h: Header, size: nat) {
    h.bodyAt + h.length < TWO_64 && h.bodyAt + h.length <= size
  }

  function NextChecked(buf: seq<u8>): Extraction {
    match ParseHeader(buf)
    case Some(h) =>
      if Complete(h, |buf|) then
        Frame(Message(h.msgType % 0x1_0000_0000, buf[h.bodyAt..h.bodyAt + h.length]), buf[h.bodyAt + h.length..])
      else NoFrame
    case None => NoFrame
  }

  function NextBy(g: Guard, buf: seq<u8>): Extraction {
    if g.AsWritten? then NextMessage(buf) else NextChecked(buf)
  }

  /** The guard is satisfied although the frame is not all there. */
  predicate ShortWindow(buf: seq<u8>) {
    var h := ParseHeader(buf);
    h.Some? && (h.value.typeAt + h.value.length) % TWO_64 <= |buf| && !Complete(h.value, |buf|)
  }

  // ---- The buffer, and the extraction in place ----

  class BytesMut {
    var data: seq<u8>

    constructor ()
      ensures data == []
    {
      data := [];
    }

    method Extend(more: seq<u8>)
      modifies this
      ensures data == old(data) + more
    {
      data := data + more;
    }

    /** Removes and returns the first `at` bytes; `None` stands for the abort. */
    method SplitTo(at: nat) returns (head: Option<BytesMut>)
      modifies this
      ensures head.Some? <==> at <= |old(data)|
      ensures head.None? ==> data == old(data)
      ensures head.Some? ==> fresh(head.value) && head.value.data == old(data)[..at] && data == old(data)[at..]
    {
      if at > |data| {
        return None;
      }
      var h := new BytesMut();
      h.data := data[..at];
      data := data[at..];
      return Some(h);
    }

    /** Removes and returns everything from `at` on; `None` stands for the abort. */
    method SplitOff(at: nat) returns (tail: Option<seq<u8>>)
      modifies this
      ensures tail.Some? <==> at <= |old(data)|
      ensures tail.None? ==> data == old(data)
      ensures tail.Some? ==> tail.value == old(data)[at..] && data == old(data)[..at]
    {
      if at > |data| {
        return None;
      }
      tail := Some(data[at..]);
      data := data[..at];
    }
  }

  datatype ExtractResult = Nothing | Got(msg: Message) | Aborted

  method ExtractMessage(buf: BytesMut) returns (r: ExtractResult)
    modifies buf
    ensures match NextMessage(old(buf.data))
            case NoFrame => r == Nothing && buf.data == old(buf.data)
            case Frame(msg, rest) => r == Got(msg) && buf.data == rest
            case Abort => r == Aborted
  {
    hide Decode;
    if buf.data == [] || buf.data[0] != 0 {
      return Nothing;
    }
    var offset := 1;
    var len := DecodeVarint(buf.data[offset..]);
    if !len.Ok? {
      return Nothing;
    }
    offset := offset + len.consumed;
    if |buf.data| < (offset + len.value) % TWO_64 {
      return Nothing;
    }
    var typ := DecodeVarint(buf.data[offset..]);
    if !typ.Ok? {
      return Nothing;
    }
    offset := offset + typ.consumed;
    var head := buf.SplitTo((offset + len.value) % TWO_64);
    if head.None? {
      return Aborted;
    }
    var payload := head.value.SplitOff(offset);
    if payload.None? {
      return Aborted;
    }
    return Got(Message(typ.value % 0x1_0000_0000, payload.value));
  }

  // ---- When the extraction aborts ----

  lemma AbortExactly(buf: seq<u8>)
    ensures NextMessage(buf) == (if ShortWindow(buf) then Abort else NextChecked(buf))
    ensures ShortWindow(buf) ==> NextChecked(buf) == NoFrame
  {
    hide Decode;
    var h := ParseHeader(buf);
    if h.Some? {
      var m, n := h.value.typeAt + h.value.length, h.value.bodyAt + h.value.length;
      assert m % TWO_64 == if m < TWO_64 then m else m - TWO_64;
      assert n % TWO_64 == if n < TWO_64 then n else n - TWO_64;
    }
  }

  /** For a buffer that fits in memory: both varints decode, and either the length overflows the
      sum, or the buffer holds everything but some of the last `typeSize` bytes. */
  lemma AbortInMemory(buf: Body)
    ensures NextMessage(buf) == Abort <==>
            var h := ParseHeader(buf);
            h.Some? && var m, n := h.value.typeAt + h.value.length, h.value.bodyAt + h.value.length;
                       m >= TWO_64 || m <= |buf| < n
  {
    hide ParseHeader, NextMessage, Decode;
    AbortExactly(buf);
  }

  // ---- Stability and confluence ----

  lemma HeaderStable(a: seq<u8>, b: seq<u8>)
    requires ParseHeader(a).Some?
    ensures ParseHeader(a + b) == ParseHeader(a)
  {
    hide Decode;
    var h := ParseHeader(a).value;
    assert (a + b)[1..] == a[1..] + b;
    DecodeStable(a[1..], b);
    assert (a + b)[h.typeAt..] == a[h.typeAt..] + b;
    DecodeStable(a[h.typeAt..], b);
  }

  /** A message already extractable is extracted unchanged after any further read, and leaves
      exactly what that read brought behind it. */
  lemma FrameStable(a: seq<u8>, b: seq<u8>)
    requires NextChecked(a).Frame?
    ensures NextChecked(a + b) == Frame(NextChecked(a).msg, NextChecked(a).rest + b)
    ensures |NextChecked(a).rest| + 3 <= |a|
  {
    hide ParseHeader;
    HeaderStable(a, b);
    var h := ParseHeader(a).value;
    var n := h.bodyAt + h.length;
    assert (a + b)[h.bodyAt..n] == a[h.bodyAt..n];
    assert (a + b)[n..] == a[n..] + b;
  }

  datatype Drained = Drained(msgs: seq<Message>, rest: seq<u8>)

  /** All complete messages at the front of the buffer, and what is left. */
  function Drain(buf: seq<u8>): (d: Drained)
    ensures |d.rest| + 3 * |d.msgs| <= |buf|
    ensures NextChecked(d.rest) == NoFrame
    decreases |buf|
  {
    match NextChecked(buf)
    case Frame(msg, rest) =>
      FrameStable(buf, []);
      var d := Drain(rest);
      Drained([msg] + d.msgs, d.rest)
    case _ => Drained([], buf)
  }

  /** Draining after each read gives the same messages and residue as draining once at the end. */
  lemma {:induction false} DrainConfluent(a: seq<u8>, b: seq<u8>)
    ensures var d, e := Drain(a), Drain(Drain(a).rest + b);
            Drain(a + b) == Drained(d.msgs + e.msgs, e.rest)
    decreases |a|
  {
    if NextChecked(a).Frame? {
      FrameStable(a, b);
      var rest := NextChecked(a).rest;
      DrainConfluent(rest, b);
      var d, e := Drain(rest), Drain(Drain(rest).rest + b);
      assert [NextChecked(a).msg] + (d.msgs + e.msgs) == [NextChecked(a).msg] + d.msgs + e.msgs;
    } else {
      assert [] + Drain(a + b).msgs == Drain(a + b).msgs;
    }
  }

  // ---- Encoding, and the frame round trip ----

  function FrameBytes(msgType: u32, payload: seq<u8>): (f: seq<u8>)
    ensures |f| >= 3 + |payload|
  {
    [0] + (Encode(|payload|) + (Encode(msgType) + payload))
  }

  /** src/handlers.rs:58-70, for a message that serialises to `body`. */
  method EncodeResponse(msgType: u32, body: Body) returns (out: seq<u8>)
    ensures out == FrameBytes(msgType, body)
  {
    var size: u64 := |body|;
    out := [];
    out := out + [0];
    var v := EncodeVarint(size);
    out := out + v;
    v := EncodeVarint(msgType);
    out := out + v;
    out := out + body;
  }

  function FrameHeader(msgType: u32, payload: Body): Header {
    var typeAt := 1 + |Encode(|payload|)|;
    Header(typeAt, typeAt + |Encode(msgType)|, |payload|, msgType)
  }

  lemma FrameNested(msgType: u32, payload: Body, rest: seq<u8>)
    ensures FrameBytes(msgType, payload) + rest
         == [0] + (Encode(|payload|) + (Encode(msgType) + (payload + rest)))
  {
    hide Encode;
    var l, t := Encode(|payload|), Encode(msgType);
    assert (t + payload) + rest == t + (payload + rest);
    assert (l + (t + payload)) + rest == l + (t + (payload + rest));
    assert ([0] + (l + (t + payload))) + rest == [0] + (l + (t + (payload + rest)));
  }

  lemma HeaderOf(l: seq<u8>, t: seq<u8>, rest: seq<u8>)
    requires Decode(l + (t + rest)).Ok? && Decode(l + (t + rest)).consumed == |l|
    requires Decode(t + rest).Ok? && Decode(t + rest).consumed == |t|
    ensures ParseHeader([0] + (l + (t + rest)))
         == Some(Header(1 + |l|, 1 + |l| + |t|, Decode(l + (t + rest)).value, Decode(t + rest).value))
  {
    hide Decode;
    var buf := [0] + (l + (t + rest));
    assert buf[1..] == l + (t + rest);
    assert buf[1 + |l|..] == t + rest;
  }

  lemma FrameHeaderParses(msgType: u32, payload: Body, rest: seq<u8>)
    ensures ParseHeader(FrameBytes(msgType, payload) + rest) == Some(FrameHeader(msgType, payload))
  {
    hide Encode, Decode, FrameBytes, ParseHeader, ContinuationRun, Value;
    var l, t, body := Encode(|payload|), Encode(msgType), payload + rest;
    VarintRoundTrip(|payload|, t + body);
    VarintRoundTrip(msgType, body);
    HeaderOf(l, t, body);
    FrameNested(msgType, payload, rest);
  }

  lemma HeaderFits(msgType: u32, payload: Body)
    ensures var h := FrameHeader(msgType, payload);
            h.bodyAt <= 16 && h.bodyAt + h.length == |FrameBytes(msgType, payload)|
  {
    EncodeFits(|payload|);
    EncodeFits(msgType);
  }

  lemma FrameSlices(msgType: u32, payload: Body, rest: seq<u8>)
    ensures var f, h := FrameBytes(msgType, payload) + rest, FrameHeader(msgType, payload);
            f[h.bodyAt..h.bodyAt + h.length] == payload && f[h.bodyAt + h.length..] == rest
  {
    hide Encode;
    var l, t := Encode(|payload|), Encode(msgType);
    var head := [0] + l + t;
    assert FrameBytes(msgType, payload) == head + payload;
    var f := head + payload + rest;
    assert f[|head|..|head| + |payload|] == payload;
    assert f[|head| + |payload|..] == rest;
  }

  lemma FrameRoundTrip(msgType: u32, payload: Body, rest: seq<u8>)
    ensures NextMessage(FrameBytes(msgType, payload) + rest) == Frame(Message(msgType, payload), rest)
    ensures NextChecked(FrameBytes(msgType, payload) + rest) == Frame(Message(msgType, payload), rest)
  {
    hide Encode, Decode, FrameBytes, ParseHeader, NextMessage;
    var f, h := FrameBytes(msgType, payload), FrameHeader(msgType, payload);
    FrameHeaderParses(msgType, payload, rest);
    HeaderFits(msgType, payload);
    FrameSlices(msgType, payload, rest);
    assert NextChecked(f + rest) == Frame(Message(msgType, payload), rest);
    AbortExactly(f + rest);
    assert (h.typeAt + h.length) % TWO_64 == h.typeAt + h.length;
  }

  /** The eleven bytes reserved for zero byte and varints are enough for every type exactly when
      the body is shorter than 2^35 bytes. */
  lemma ReserveSuffices(payload: Body)
    ensures (forall t: u32 :: |FrameBytes(t, payload)| <= 1 + 5 + 5 + |payload|) <==> |payload| < 0x8_0000_0000
  {
    hide Encode;
    Pow2Literals();
    EncodeLength(|payload|, 5);
    forall t: u32 ensures |Encode(t)| <= 5 { EncodeFits(t); }
    var big: u32 := 0x1000_0000;
    EncodeLength(big, 4);
    assert |FrameBytes(big, payload)| == 1 + |Encode(|payload|)| + |Encode(big)| + |payload|;
  }

  predicate AllFit(ms: seq<Message>) {
    forall i | 0 <= i < |ms| :: |ms[i].payload| < 0x8000_0000_0000_0000
  }

  function Concat(ms: seq<Message>): seq<u8> {
    if ms == [] then [] else FrameBytes(ms[0].msgType, ms[0].payload) + Concat(ms[1..])
  }

  lemma DrainStep(buf: seq<u8>, msg: Message, rest: seq<u8>)
    requires NextChecked(buf) == Frame(msg, rest)
    ensures Drain(buf) == Drained([msg] + Drain(rest).msgs, Drain(rest).rest)
  {
    FrameStable(buf, []);
  }

  /** Frames one after the other drain to exactly their list. */
  lemma {:induction false} ConcatDrains(ms: seq<Message>, tail: seq<u8>)
    requires AllFit(ms)
    ensures Drain(Concat(ms) + tail) == Drained(ms + Drain(tail).msgs, Drain(tail).rest)
  {
    hide FrameBytes, NextChecked, NextMessage, Drain;
    if ms == [] {
      assert Concat(ms) + tail == tail && [] + Drain(tail).msgs == Drain(tail).msgs;
    } else {
      var m := ms[0];
      var rest := Concat(ms[1..]) + tail;
      assert Concat(ms) + tail == FrameBytes(m.msgType, m.payload) + rest;
      FrameRoundTrip(m.msgType, m.payload, rest);
      DrainStep(Concat(ms) + tail, m, rest);
      ConcatDrains(ms[1..], tail);
      assert [m] + (ms[1..] + Drain(tail).msgs) == ms + Drain(tail).msgs;
    }
  }

  /** A frame cut short stays in the buffer untouched. */
  lemma FramePrefixWaits(msgType: u32, payload: Body, k: nat)
    requires k < |FrameBytes(msgType, payload)|
    ensures Drain(FrameBytes(msgType, payload)[..k]) == Drained([], FrameBytes(msgType, payload)[..k])
  {
    var f := FrameBytes(msgType, payload);
    assert f[..k] + f[k..] == f == f + [];
    FrameRoundTrip(msgType, payload, []);
    if NextChecked(f[..k]).Frame? {
      FrameStable(f[..k], f[k..]);
    }
  }

  lemma PrefixNested(l: seq<u8>, t: seq<u8>, payload: seq<u8>, k: nat)
    requires 1 + |l| + |t| <= k <= 1 + |l| + |t| + |payload|
    ensures var f := [0] + (l + (t + payload));
            f[..k] == [0] + (l + (t + f[1 + |l| + |t|..k]))
  {
  }

  lemma PrefixHeaderParses(msgType: u32, payload: Body, k: nat)
    requires FrameHeader(msgType, payload).bodyAt <= k <= |FrameBytes(msgType, payload)|
    ensures ParseHeader(FrameBytes(msgType, payload)[..k]) == Some(FrameHeader(msgType, payload))
  {
    var f, h := FrameBytes(msgType, payload), FrameHeader(msgType, payload);
    hide Encode, Decode, ParseHeader;
    var l, t, body := Encode(|payload|), Encode(msgType), f[h.bodyAt..k];
    VarintRoundTrip(|payload|, t + body);
    VarintRoundTrip(msgType, body);
    HeaderOf(l, t, body);
    PrefixNested(l, t, payload, k);
  }

  /** Where a read must not stop inside a frame: the last `typeSize` bytes of it, less the part in
      which the type varint itself is still incomplete. */
  lemma FrameShortWindow(msgType: u32, payload: Body, k: nat)
    requires k < |FrameBytes(msgType, payload)|
    ensures ShortWindow(FrameBytes(msgType, payload)[..k]) <==>
            var h := FrameHeader(msgType, payload); h.bodyAt <= k && h.typeAt + |payload| <= k
  {
    hide Encode, Decode, FrameBytes, ParseHeader;
    var f, h := FrameBytes(msgType, payload), FrameHeader(msgType, payload);
    var a := f[..k];
    HeaderFits(msgType, payload);
    if h.bodyAt <= k {
      PrefixHeaderParses(msgType, payload, k);
    } else if ParseHeader(a).Some? {
      assert a + f[k..] == f == f + [];
      HeaderStable(a, f[k..]);
      FrameHeaderParses(msgType, payload, []);
    }
  }

  /** With a one-byte type that is a single position: exactly one byte short of a non-empty body. */
  lemma FrameShortWindowSmallType(msgType: u32, payload: Body, k: nat)
    requires msgType < 0x80 && k < |FrameBytes(msgType, payload)|
    ensures ShortWindow(FrameBytes(msgType, payload)[..k]) <==>
            payload != [] && k == |FrameBytes(msgType, payload)| - 1
  {
    FrameShortWindow(msgType, payload, k);
  }

  /** A small frame, byte for byte. */
  lemma SmallFrame(msgType: u32, payload: Body, rest: seq<u8>)
    requires msgType < 0x80 && |payload| < 0x80
    ensures FrameBytes(msgType, payload) == [0, |payload|, msgType] + payload
    ensures NextMessage([0, |payload|, msgType] + payload + rest) == Frame(Message(msgType, payload), rest)
  {
    hide NextMessage;
    assert Encode(|payload|) == [|payload|] && Encode(msgType) == [msgType];
    FrameRoundTrip(msgType, payload, rest);
  }

  /** [0, 1, 1] announces a one-byte body of type 1; the body is still to come, but the guard holds. */
  lemma AbortExample()
    ensures NextMessage([0, 1, 1]) == Abort && NextChecked([0, 1, 1]) == NoFrame
    ensures NextMessage([0, 1, 1, 7]) == Frame(Message(1, [7]), [])
  {
    hide NextMessage, ParseHeader, FrameBytes;
    assert FrameBytes(1, [7]) == [0, 1, 1, 7] by { SmallFrame(1, [7], []); }
    assert FrameBytes(1, [7])[..3] == [0, 1, 1];
    FrameShortWindowSmallType(1, [7], 3);
    AbortExactly([0, 1, 1]);
    FrameRoundTrip(1, [7], []);
    assert [0, 1, 1, 7] + [] == [0, 1, 1, 7];
  }

  // ---- Desynchronisation ----

  /** The first byte is wrong, a varint is too long, or the announced frame exceeds the address space. */
  predicate Stuck(buf: seq<u8>) {
    buf != [] &&
    (buf[0] != 0 ||
     match Decode(buf[1..])
     case TooLong => true
     case Incomplete => false
     case Ok(length, lenSize) =>
       (match Decode(buf[1 + lenSize..])
        case TooLong => true
        case Incomplete => |buf| + 1 + length >= TWO_64
        case Ok(_, typeSize) => 1 + lenSize + typeSize + length >= TWO_64))
  }

  lemma ConsumesMore(a: seq<u8>, more: seq<u8>)
    requires Decode(a).Incomplete? && Decode(a + more).Ok?
    ensures Decode(a + more).consumed >= |a| + 1
  {
    RunIsFirst(a + more, |a|);
  }

  lemma StuckStaysStuck(buf: seq<u8>, more: seq<u8>)
    requires Stuck(buf)
    ensures NextChecked(buf + more) == NoFrame
  {
    hide ContinuationRun, Value, Decode;
    assert (buf + more)[0] == buf[0];
    if buf[0] == 0 {
      assert (buf + more)[1..] == buf[1..] + more;
      DecodeStable(buf[1..], more);
      if Decode(buf[1..]).Ok? {
        var at := 1 + Decode(buf[1..]).consumed;
        var a := buf[at..];
        assert (buf + more)[at..] == a + more;
        if Decode(a).Incomplete? {
          if Decode(a + more).Ok? { ConsumesMore(a, more); }
        } else {
          DecodeStable(a, more);
        }
      }
    }
  }

  function Zeros(n: nat): seq<u8> {
    seq(n, _ => 0)
  }

  lemma CompleteYields(buf: seq<u8>)
    requires ParseHeader(buf).Some? && Complete(ParseHeader(buf).value, |buf|)
    ensures NextChecked(buf).Frame?
  {
  }

  lemma ZeroDecodes(tail: seq<u8>)
    ensures Decode([0] + tail) == Ok(0, 1)
  {
    assert ([0] + tail)[..1] == [0];
    assert Value([0]) == 0 by { assert [0][1..] == []; }
  }

  lemma EndLength(buf: seq<u8>) returns (more: seq<u8>)
    requires buf != [] && buf[0] == 0 && Decode(buf[1..]).Incomplete?
    ensures NextChecked(buf + more).Frame?
  {
    hide ContinuationRun, Decode, ParseHeader, Pow2;
    var a := buf[1..];
    var length := Value(a);
    NoWrap(a);
    ValueSnoc(a, 0);
    var l := a + [0];
    var rest := Zeros(length);
    more := [0] + ([0] + rest);
    IncompleteCanEnd(a, 0);
    DecodeStable(l, [0] + rest);
    ZeroDecodes(rest);
    HeaderOf(l, [0], rest);
    assert buf + more == [0] + (l + ([0] + rest));
    CompleteYields(buf + more);
  }

  lemma HeaderGrown(buf: seq<u8>, a: seq<u8>, more: seq<u8>, length: u64)
    requires buf != [] && buf[0] == 0 && |a| < |buf| && more == [0] + Zeros(length)
    requires Decode(buf[1..] + more) == Ok(length, |buf| - 1 - |a|) && a == buf[|buf| - |a|..]
    requires Decode(a + [0] + Zeros(length)).Ok? && Decode(a + [0] + Zeros(length)).consumed == |a| + 1
    ensures var h := ParseHeader(buf + more);
            h.Some? && h.value.bodyAt == |buf| + 1 && h.value.length == length
  {
    hide Decode;
    assert (buf + more)[1..] == buf[1..] + more;
    assert (buf + more)[|buf| - |a|..] == a + [0] + Zeros(length);
  }

  lemma EndType(buf: seq<u8>) returns (more: seq<u8>)
    requires !Stuck(buf) && buf != [] && Decode(buf[1..]).Ok?
    requires Decode(buf[1 + Decode(buf[1..]).consumed..]).Incomplete?
    ensures NextChecked(buf + more).Frame?
  {
    hide ContinuationRun, Value;
    var length, at := Decode(buf[1..]).value, 1 + Decode(buf[1..]).consumed;
    var a := buf[at..];
    assert |buf| + 1 + length < TWO_64;
    more := [0] + Zeros(length);
    DecodeStable(buf[1..], more);
    IncompleteCanEnd(a, 0);
    DecodeStable(a + [0], Zeros(length));
    HeaderGrown(buf, a, more, length);
    CompleteYields(buf + more);
  }

  /** From any other buffer some continuation still completes a message. */
  lemma NotStuckCanComplete(buf: seq<u8>) returns (more: seq<u8>)
    requires !Stuck(buf)
    ensures NextChecked(buf + more).Frame?
  {
    if buf == [] {
      FrameRoundTrip(0, [], []);
      more := FrameBytes(0, []);
      assert buf + more == more + [];
      return;
    }
    match Decode(buf[1..])
    case Incomplete =>
      more := EndLength(buf);
    case Ok(length, lenSize) =>
      if Decode(buf[1 + lenSize..]).Ok? {
        more := Zeros(length);
        HeaderStable(buf, more);
        CompleteYields(buf + more);
      } else {
        more := EndType(buf);
      }
  }

  /** No later read ever yields another message exactly when the buffer is stuck. */
  lemma StuckExactly(buf: seq<u8>)
    ensures Stuck(buf) <==> forall more: seq<u8> :: !NextMessage(buf + more).Frame?
  {
    if Stuck(buf) {
      forall more: seq<u8> ensures !NextMessage(buf + more).Frame? {
        StuckStaysStuck(buf, more);
        AbortExactly(buf + more);
      }
    } else {
      var more := NotStuckCanComplete(buf);
      AbortExactly(buf + more);
      assert NextMessage(buf + more).Frame?;
    }
  }

  lemma StuckGrows(buf: seq<u8>, data: seq<u8>)
    requires Stuck(buf)
    ensures Stuck(buf + data)
  {
    hide Stuck;
    StuckExactly(buf);
    forall more: seq<u8> ensures !NextMessage(buf + data + more).Frame? {
      assert buf + data + more == buf + (data + more);
    }
    StuckExactly(buf + data);
  }
}
