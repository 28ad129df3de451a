/** The independent implementation of the same protocol in test_client.py: unbounded integers, one
    byte read at a time, and a blocking socket. */
module TestClient {
  import opened Words
  import opened Varint
  import opened Framing
  import opened Session
  import opened History

  /** What is still to come on the connection.  `Recv` blocks until `n` bytes are there or the peer
      has closed, so it returns less only at the end of the stream. */
  class Connection {
    var data: seq<u8>

    method Recv(n: nat) returns (bytes: seq<u8>)
      modifies this
      ensures var k := if n <= |old(data)| then n else |old(data)|;
              bytes == old(data)[..k] && data == old(data)[k..]
    {
      var k := if n <= |data| then n else |data|;
      bytes := data[..k];
      data := data[k..];
    }
  }

  datatype ReadResult = Number(value: nat, consumed: nat) | ClosedEarly | Overlong

  function ReadOf(data: seq<u8>): (r: ReadResult)
    ensures r.Number? ==> 1 <= r.consumed <= |data|
  {
    var n := ContinuationRun(data);
    if n >= 10 then Overlong
    else if n == |data| then ClosedEarly
    else Number(Value(data[..n + 1]), n + 1)
  }

  method ReadVarint(sock: Connection) returns (r: ReadResult)
    modifies sock
    ensures r == ReadOf(old(sock.data))
    ensures r.Number? ==> sock.data == old(sock.data)[r.consumed..]
  {
    ghost var all := sock.data;
    var result, shift, bytesRead: nat := 0, 0, 0;
    assert result == Value(all[..0]) < Pow2(0);
    hide Value, Pow2, BitAnd, BitOr;
    while true
      invariant shift == 7 * bytesRead && bytesRead < 10
      invariant bytesRead <= ContinuationRun(all) && sock.data == all[bytesRead..]
      invariant result == Value(all[..bytesRead]) < Pow2(shift)
      decreases 10 - bytesRead
    {
      var byte := sock.Recv(1);
      if byte == [] {
        return ClosedEarly;
      }
      var byteVal := byte[0];
      SevenBits(byteVal);
      OrIsSum(result, byteVal % 0x80, shift);
      ValueSnoc(all[..bytesRead], byteVal);
      ValueBound(all[..bytesRead + 1]);
      assert all[..bytesRead + 1] == all[..bytesRead] + [byteVal];
      RunIsFirst(all, bytesRead);
      result := BitOr(result, Shl(BitAnd(byteVal, 0x7F), shift));
      bytesRead := bytesRead + 1;
      if BitAnd(byteVal, 0x80) == 0 {
        break;
      }
      shift := shift + 7;
      if shift >= 64 {
        return Overlong;
      }
    }
    return Number(result, bytesRead);
  }

  method EncodeUnbounded(v: nat) returns (buf: seq<u8>)
    ensures buf == Encode(v)
  {
    hide BitAnd, BitOr, Pow2;
    var value := v;
    buf := [];
    while true
      invariant buf + Encode(value) == Encode(v)
      decreases value
    {
      SevenBits(value);
      ShrDivides(value, 7);
      Pow2Literals();
      var toWrite: u8 := BitAnd(value, 0x7F);
      value := Shr(value, 7);
      if value != 0 {
        SetContinuation(toWrite);
        buf := buf + [BitOr(toWrite, 0x80)];
      } else {
        buf := buf + [toWrite];
        break;
      }
    }
  }

  datatype Received =
    | Received(opcode: nat, payload: seq<u8>, rest: seq<u8>)
    | BadPreamble
    | Broken      // a varint too long, or the stream ends inside one
    | TooLarge    // a length `recv` cannot allocate or, past a C ssize_t, even take

  /** The longest buffer `recv` can allocate. */
  type Memory = n: nat | n < 0x8000_0000_0000_0000

  function ReceiveOf(data: seq<u8>, memory: Memory): Received {
    match ReadOf(data)
    case Number(preamble, p) =>
      if preamble != 0 then BadPreamble
      else (match ReadOf(data[p..])
            case Number(length, l) =>
              (match ReadOf(data[p + l..])
               case Number(opcode, t) =>
                 var body := data[p + l + t..];
                 if length > memory then TooLarge
                 else if length <= |body| then Received(opcode, body[..length], body[length..])
                 else Received(opcode, body, [])
               case _ => Broken)
            case _ => Broken)
    case _ => Broken
  }

  method ReceiveMessage(sock: Connection, memory: Memory) returns (r: Received)
    modifies sock
    ensures r == ReceiveOf(old(sock.data), memory) && (r.Received? ==> sock.data == r.rest)
  {
    hide ReadOf;
    var preamble := ReadVarint(sock);
    if !preamble.Number? { return Broken; }
    if preamble.value != 0 { return BadPreamble; }
    var length := ReadVarint(sock);
    if !length.Number? { return Broken; }
    var opcode := ReadVarint(sock);
    if !opcode.Number? { return Broken; }
    if length.value > memory { return TooLarge; }
    var payload := sock.Recv(length.value);
    return Received(opcode.value, payload, sock.data);
  }

  // ---- The two implementations agree ----

  /** Both decoders accept the same prefixes and consume the same count; the Rust value is the Python
      value mod 2^64. */
  lemma DecodersAgree(data: seq<u8>)
    ensures match Decode(data)
            case Ok(v, n) => ReadOf(data).Number? && ReadOf(data).consumed == n && v == ReadOf(data).value % TWO_64
            case TooLong => ReadOf(data) == Overlong
            case Incomplete => ReadOf(data) == ClosedEarly
    ensures Decode(data).Ok? <==> ReadOf(data).Number?
    ensures ReadOf(data).Number? && ReadOf(data).value >= TWO_64 ==> Decode(data).consumed == 10
  {
    hide Value;
    if Decode(data).Ok? && Decode(data).consumed <= 9 { NoWrap(data[..Decode(data).consumed]); }
  }

  lemma Suffixes(data: seq<u8>, l: seq<u8>, t: seq<u8>, body: seq<u8>)
    requires data == [0] + (l + (t + body))
    ensures data[1..] == l + (t + body) && data[1 + |l|..] == t + body && data[1 + |l| + |t|..] == body
  {
  }

  /** A message whose zero byte, two varints and length are known. */
  lemma ReceiveParts(data: seq<u8>, memory: Memory, typeAt: nat, bodyAt: nat, length: nat, opcode: nat)
    requires ReadOf(data) == Number(0, 1) && 1 <= typeAt <= bodyAt <= |data|
    requires ReadOf(data[1..]) == Number(length, typeAt - 1)
    requires ReadOf(data[typeAt..]) == Number(opcode, bodyAt - typeAt)
    ensures ReceiveOf(data, memory) ==
            var body := data[bodyAt..];
            if length > memory then TooLarge
            else if length <= |body| then Received(opcode, body[..length], body[length..])
            else Received(opcode, body, [])
  {
    hide ReadOf;
    assert 1 + (typeAt - 1) == typeAt && typeAt + (bodyAt - typeAt) == bodyAt;
  }

  lemma ZeroRead(tail: seq<u8>)
    ensures ReadOf([0] + tail) == Number(0, 1)
  {
    assert ([0] + tail)[..1] == [0];
    assert Value([0]) == 0 by { assert [0][1..] == []; }
  }

  lemma EncodedRead(v: u64, tail: seq<u8>)
    ensures ReadOf(Encode(v) + tail) == Number(v, |Encode(v)|)
  {
    hide Encode, Value;
    var e := Encode(v);
    EncodeShape(v);
    EncodeFits(v);
    RunIsFirst(e + tail, |e| - 1);
    assert (e + tail)[..|e|] == e;
  }

  /** Every frame the proxy sends is received intact, if its body can be allocated at all. */
  lemma FramesReceived(msgType: u32, payload: Body, rest: seq<u8>, memory: Memory)
    ensures ReceiveOf(FrameBytes(msgType, payload) + rest, memory)
         == if |payload| <= memory then Received(msgType, payload, rest) else TooLarge
  {
    hide Encode, ReadOf, ReceiveOf;
    var l, t, body := Encode(|payload|), Encode(msgType), payload + rest;
    var data := FrameBytes(msgType, payload) + rest;
    FrameNested(msgType, payload, rest);
    assert data == [0] + (l + (t + body));
    ZeroRead(l + (t + body));
    EncodedRead(|payload|, t + body);
    EncodedRead(msgType, body);
    Suffixes(data, l, t, body);
    ReceiveParts(data, memory, 1 + |l|, 1 + |l| + |t|, |payload|, msgType);
    assert body[..|payload|] == payload && body[|payload|..] == rest;
  }

  predicate Same(r: Received, msg: Message, rest: seq<u8>) {
    r.Received? && r.payload == msg.payload && r.rest == rest && r.opcode % 0x1_0000_0000 == msg.msgType
  }

  lemma FrameHasHeader(buf: seq<u8>)
    requires NextChecked(buf).Frame?
    ensures ParseHeader(buf).Some?
  {
    hide ParseHeader;
  }

  lemma ModMod(x: nat)
    ensures x % TWO_64 % 0x1_0000_0000 == x % 0x1_0000_0000
  {
    var r := x % TWO_64;
    var q := r / 0x1_0000_0000;
    assert x == (x / TWO_64 * 0x1_0000_0000 + q) * 0x1_0000_0000 + r % 0x1_0000_0000;
  }

  lemma BodySlices(buf: seq<u8>, at: nat, n: nat)
    requires at + n <= |buf|
    ensures buf[at..][..n] == buf[at..at + n] && buf[at..][n..] == buf[at + n..]
  {
  }

  lemma SameParts(buf: seq<u8>, h: Header, opcode: nat)
    requires ParseHeader(buf) == Some(h) && NextChecked(buf).Frame? && h.msgType == opcode % TWO_64
    ensures h.length <= |buf[h.bodyAt..]|
    ensures var body := buf[h.bodyAt..];
            Same(Received(opcode, body[..h.length], body[h.length..]), NextChecked(buf).msg, NextChecked(buf).rest)
  {
    hide ParseHeader;
    BodySlices(buf, h.bodyAt, h.length);
    ModMod(opcode);
  }

  lemma FirstZero(buf: seq<u8>)
    requires buf != [] && buf[0] == 0
    ensures ReadOf(buf) == Number(0, 1)
  {
    assert buf == [0] + buf[1..];
    ZeroRead(buf[1..]);
  }

  lemma HeaderRead(buf: seq<u8>)
    requires ParseHeader(buf).Some?
    ensures ReadOf(buf) == Number(0, 1)
    ensures var h, r := ParseHeader(buf).value, ReadOf(buf[1..]);
            r.Number? && r.consumed == h.typeAt - 1 && h.length == r.value % TWO_64
    ensures var h := ParseHeader(buf).value;
            var r := ReadOf(buf[h.typeAt..]);
            r.Number? && r.consumed == h.bodyAt - h.typeAt && h.msgType == r.value % TWO_64
  {
    hide Decode, ReadOf;
    FirstZero(buf);
    DecodersAgree(buf[1..]);
    DecodersAgree(buf[ParseHeader(buf).value.typeAt..]);
  }

  /** Whenever the proxy would extract a message, the test client receives the same one exactly when
      the length, not reduced mod 2^64, can be allocated. */
  lemma ReceiveAgrees(buf: seq<u8>, memory: Memory)
    requires NextChecked(buf).Frame?
    ensures var f, r := NextChecked(buf), ReceiveOf(buf, memory);
            ReadOf(buf[1..]).Number? && (Same(r, f.msg, f.rest) <==> ReadOf(buf[1..]).value <= memory)
  {
    hide ParseHeader, ReadOf, ReceiveOf, Decode, NextChecked;
    FrameHasHeader(buf);
    var h := ParseHeader(buf).value;
    HeaderRead(buf);
    var length, opcode := ReadOf(buf[1..]).value, ReadOf(buf[h.typeAt..]).value;
    ReceiveParts(buf, memory, h.typeAt, h.bodyAt, length, opcode);
    if length <= memory {
      SameParts(buf, h, opcode);
    }
  }

  /** Conversely, a message the test client receives in full is one the proxy would extract exactly
      when it starts with the zero byte: the client reads its preamble as a varint. */
  lemma PreambleIsTheDifference(data: seq<u8>, memory: Memory)
    requires ReceiveOf(data, memory).Received?
    requires |ReceiveOf(data, memory).payload| == ReadOf(data[ReadOf(data).consumed..]).value
    ensures NextChecked(data).Frame? <==> data[0] == 0
  {
    hide Decode, ReadOf;
    DecodersAgree(data[1..]);
    if data[0] == 0 {
      FirstZero(data);
      DecodersAgree(data[1 + ReadOf(data[1..]).consumed..]);
    }
  }

  lemma {:induction false} ValueZero(bs: seq<u8>)
    ensures Value(bs) == 0 <==> forall i | 0 <= i < |bs| :: bs[i] % 0x80 == 0
  {
    if bs != [] {
      ValueZero(bs[1..]);
      assert forall i | 1 <= i < |bs| :: bs[i] == bs[1..][i - 1];
      assert forall i | 0 <= i < |bs[1..]| :: bs[1..][i] == bs[i + 1];
    }
  }

  /** The first varint of the data ends at n and is zero, or is not. */
  predicate Preamble(data: seq<u8>, n: nat, zero: bool) {
    Terminated(data, n) && (zero <==> forall i | 0 <= i < n :: data[i] % 0x80 == 0)
  }

  lemma PreambleRead(data: seq<u8>, zero: bool)
    ensures ReadOf(data).Number? && (ReadOf(data).value == 0 <==> zero) <==> exists n: nat :: Preamble(data, n, zero)
  {
    if ReadOf(data).Number? {
      var n := ReadOf(data).consumed;
      ValueZero(data[..n]);
      assert forall i | 0 <= i < n :: data[..n][i] == data[i];
      assert (ReadOf(data).value == 0 <==> zero) ==> Preamble(data, n, zero);
    }
    forall n: nat | Preamble(data, n, zero) ensures ReadOf(data).Number? && ReadOf(data).consumed == n {
      RunIsFirst(data, n - 1);
    }
  }

  /** The preamble is refused if and only if it is a varint other than zero, so by any first byte from
      1 to 7F; what is received has 80 bytes and a final 00, or just 00, before its length. */
  lemma BadPreambleExactly(data: seq<u8>, memory: Memory)
    ensures ReceiveOf(data, memory) == BadPreamble <==>
            exists n: nat :: Terminated(data, n) && exists i :: 0 <= i < n && data[i] % 0x80 != 0
    ensures data != [] && 1 <= data[0] <= 0x7F ==> ReceiveOf(data, memory) == BadPreamble
    ensures ReceiveOf(data, memory).Received? ==>
            exists n: nat :: Terminated(data, n) && data[n - 1] == 0 && forall i | 0 <= i < n - 1 :: data[i] == 0x80
  {
    hide ReadOf;
    PreambleRead(data, true);
    PreambleRead(data, false);
    assert ReceiveOf(data, memory) == BadPreamble <==> exists n: nat :: Preamble(data, n, false);
    if n: nat :| Preamble(data, n, false) { assert Terminated(data, n); }
    if n: nat :| Terminated(data, n) && exists i :: 0 <= i < n && data[i] % 0x80 != 0 {
      assert Preamble(data, n, false);
    }
    if data != [] && 1 <= data[0] <= 0x7F { assert Preamble(data, 1, false); }
    if n: nat :| Preamble(data, n, true) { assert Terminated(data, n); }
  }

  /** 80 00 is a long way of writing the zero preamble; the proxy never leaves it. */
  lemma LongPreamble(memory: Memory)
    ensures ReceiveOf([0x80, 0, 0, 7], memory) == Received(7, [], []) && Stuck([0x80, 0, 0, 7])
  {
    var d: seq<u8> := [0x80, 0, 0, 7];
    assert d[2..] == [0] + [7] && d[3..] == [7] && d[..2] == [0x80, 0];
    assert ContinuationRun(d) == 1;
    assert Value([0]) == 0 by { assert [0][1..] == []; }
    assert Value([0x80, 0]) == 0 by { assert [0x80, 0][1..] == [0]; }
    assert ReadOf(d) == Number(0, 2);
    ZeroRead([7]);
    assert ReadOf([7]) == Number(7, 1) by { assert [7][..1] == [7]; assert [7][1..] == []; assert Value([7]) == 7; }
    assert d[4..] == [];
  }

  // ---- A whole connection ----

  datatype Packet = Packet(opcode: nat, payload: seq<u8>)

  /** What the receive loop of `main` gets until a receive fails, and how that one failed. */
  datatype Reception = Reception(packets: seq<Packet>, failure: Received)

  lemma ReceiveShrinks(data: seq<u8>, memory: Memory)
    ensures ReceiveOf(data, memory).Received? ==> |ReceiveOf(data, memory).rest| < |data|
  {
    hide ContinuationRun, Value;
  }

  function ReceiveAll(data: seq<u8>, memory: Memory): Reception
    decreases |data|
  {
    match ReceiveOf(data, memory)
    case Received(opcode, payload, rest) =>
      ReceiveShrinks(data, memory);
      var later := ReceiveAll(rest, memory);
      Reception([Packet(opcode, payload)] + later.packets, later.failure)
    case failure => Reception([], failure)
  }

  function AsPackets(ms: seq<Message>): (r: seq<Packet>)
    ensures |r| == |ms|
  {
    seq(|ms|, i requires 0 <= i < |ms| => Packet(ms[i].msgType, ms[i].payload))
  }

  lemma NothingReceived(memory: Memory)
    ensures ReceiveOf([], memory) == Broken
  {
  }

  predicate AllAllocatable(ms: seq<Message>, memory: Memory) {
    forall i | 0 <= i < |ms| :: |ms[i].payload| <= memory
  }

  lemma FrameThenRest(m: Message, rest: seq<u8>, memory: Memory)
    requires |m.payload| <= memory
    ensures var later := ReceiveAll(rest, memory);
            ReceiveAll(FrameBytes(m.msgType, m.payload) + rest, memory) ==
            Reception([Packet(m.msgType, m.payload)] + later.packets, later.failure)
  {
    hide FrameBytes, ReceiveOf;
    FramesReceived(m.msgType, m.payload, rest, memory);
  }

  lemma PacketsFirst(ms: seq<Message>, later: seq<Packet>)
    requires ms != []
    ensures AsPackets(ms) + later == [Packet(ms[0].msgType, ms[0].payload)] + (AsPackets(ms[1..]) + later)
  {
  }

  /** Frames one after the other are received as exactly their list, then whatever follows them. */
  lemma {:induction false} StreamReceived(ms: seq<Message>, tail: seq<u8>, memory: Memory)
    requires AllAllocatable(ms, memory)
    ensures ReceiveAll(Concat(ms) + tail, memory) ==
            var later := ReceiveAll(tail, memory); Reception(AsPackets(ms) + later.packets, later.failure)
  {
    hide FrameBytes, ReceiveAll, AsPackets;
    var later := ReceiveAll(tail, memory);
    if ms == [] {
      assert Concat(ms) + tail == tail && AsPackets(ms) + later.packets == later.packets;
    } else {
      var m, rest := ms[0], Concat(ms[1..]) + tail;
      assert Concat(ms) + tail == FrameBytes(m.msgType, m.payload) + rest;
      FrameThenRest(m, rest, memory);
      StreamReceived(ms[1..], tail, memory);
      PacketsFirst(ms, later.packets);
    }
  }

  lemma FirstPacket(m: Message, xs: seq<Packet>, ys: seq<Packet>)
    ensures var p := Packet(m.msgType, m.payload); [p] + xs == [p] + ys <==> xs == ys
  {
    var p := Packet(m.msgType, m.payload);
    assert ([p] + xs)[1..] == xs && ([p] + ys)[1..] == ys;
  }

  /** The independent client hears exactly the frames sent, then the end of the stream, if and only if
      it can allocate every body. */
  lemma {:induction false} StreamExactly(ms: seq<Message>, memory: Memory)
    requires AllFit(ms)
    ensures ReceiveAll(Concat(ms), memory) == Reception(AsPackets(ms), Broken) <==> AllAllocatable(ms, memory)
  {
    hide FrameBytes, ReceiveOf;
    NothingReceived(memory);
    if ms != [] {
      var m, rest := ms[0], ms[1..];
      FramesReceived(m.msgType, m.payload, Concat(rest), memory);
      StreamExactly(rest, memory);
      assert AsPackets(ms) == [Packet(m.msgType, m.payload)] + AsPackets(rest);
      assert AllAllocatable(ms, memory) <==> |m.payload| <= memory && AllAllocatable(rest, memory) by {
        assert forall i | 1 <= i < |ms| :: ms[i] == rest[i - 1];
      }
      FirstPacket(m, ReceiveAll(Concat(rest), memory).packets, AsPackets(rest));
    }
  }

  lemma HeaderMissing(data: seq<u8>, memory: Memory)
    requires data != [] && data[0] == 0 && ParseHeader(data).None?
    ensures ReceiveOf(data, memory) == Broken
  {
    hide Decode, ReadOf;
    FirstZero(data);
    DecodersAgree(data[1..]);
    if Decode(data[1..]).Ok? { DecodersAgree(data[1 + Decode(data[1..]).consumed..]); }
  }

  lemma HeaderCut(msgType: u32, payload: Body, k: nat)
    requires k < FrameHeader(msgType, payload).bodyAt && k < |FrameBytes(msgType, payload)|
    ensures ParseHeader(FrameBytes(msgType, payload)[..k]).None?
  {
    hide ParseHeader, FrameBytes;
    var f := FrameBytes(msgType, payload);
    if ParseHeader(f[..k]).Some? {
      assert f[..k] + f[k..] == f == f + [];
      HeaderStable(f[..k], f[k..]);
      FrameHeaderParses(msgType, payload, []);
    }
  }

  lemma HeaderKept(msgType: u32, payload: Body, k: nat, memory: Memory)
    requires FrameHeader(msgType, payload).bodyAt <= k < |FrameBytes(msgType, payload)|
    ensures var cut := FrameBytes(msgType, payload)[..k];
            var body := cut[FrameHeader(msgType, payload).bodyAt..];
            ReceiveOf(cut, memory) == if |payload| > memory then TooLarge else Received(msgType, body, [])
  {
    hide Encode, ReadOf, ReceiveOf;
    var l, t, cut := Encode(|payload|), Encode(msgType), FrameBytes(msgType, payload)[..k];
    var body := cut[1 + |l| + |t|..];
    PrefixNested(l, t, payload, k);
    ZeroRead(l + (t + body));
    EncodedRead(|payload|, t + body);
    EncodedRead(msgType, body);
    Suffixes(cut, l, t, body);
    ReceiveParts(cut, memory, 1 + |l|, 1 + |l| + |t|, |payload|, msgType);
    HeaderFits(msgType, payload);
    assert body[..|body|] == body && body[|body|..] == [];
  }

  /** A frame cut by the end of the stream is a message with a cut payload once its header is there,
      if that can be allocated, since `recv` then returns what is left. */
  lemma CutFrameReceived(msgType: u32, payload: Body, k: nat, memory: Memory)
    requires k < |FrameBytes(msgType, payload)|
    ensures var h, cut := FrameHeader(msgType, payload), FrameBytes(msgType, payload)[..k];
            ReceiveOf(cut, memory) == if k < h.bodyAt then Broken
                                    else if |payload| > memory then TooLarge
                                    else Received(msgType, cut[h.bodyAt..], [])
  {
    hide ReceiveOf, ParseHeader, FrameHeader;
    if k >= FrameHeader(msgType, payload).bodyAt {
      HeaderKept(msgType, payload, k, memory);
    } else {
      HeaderCut(msgType, payload, k);
      NothingReceived(memory);
      if k > 0 { HeaderMissing(FrameBytes(msgType, payload)[..k], memory); }
    }
  }

  /** What is received of a frame that was cut. */
  function CutPacket(m: Message, cut: seq<u8>): seq<Packet>
    requires |m.payload| < 0x8000_0000_0000_0000
  {
    var at := FrameHeader(m.msgType, m.payload).bodyAt;
    if |cut| < at then [] else [Packet(m.msgType, cut[at..])]
  }

  lemma CutReceived(m: Message, cut: seq<u8>, memory: Memory)
    requires |m.payload| <= memory && cut < Framed(m)
    ensures ReceiveAll(cut, memory) == Reception(CutPacket(m, cut), Broken)
  {
    hide ReceiveOf, FrameBytes, FrameHeader;
    assert cut == Framed(m)[..|cut|];
    CutFrameReceived(m.msgType, m.payload, |cut|, memory);
    NothingReceived(memory);
    assert ReceiveAll([], memory) == Reception([], Broken);
  }

  /** End to end: for every trace of the program as written whose frames the independent client can
      allocate, it receives exactly the frames the history asks for, in order, all of them unless the
      session failed or aborted; then at most a part of the next one, and the end of the stream. */
  lemma ProgramHeard(env: Env, es: seq<Event>, memory: Memory) returns (sent: seq<Message>, partial: seq<u8>)
    requires AllAllocatable(Attempts(env, ItemsOf([], es), |ItemsOf([], es)|), memory)
    ensures var c := Run(env, AsWritten, Accepted(env), es).core;
            var all := Attempts(env, ItemsOf([], es), |ItemsOf([], es)|);
            var heard := ReceiveAll(c.wire.out, memory);
            && sent <= all && heard.failure == Broken
            && (c.status == Running || c.status == Finished ==> sent == all)
            && (c.status != Failed || partial == [] ==> heard.packets == AsPackets(sent))
            && (partial != [] ==>
                  && |sent| < |all| && partial < Framed(all[|sent|])
                  && heard.packets == AsPackets(sent) + CutPacket(all[|sent|], partial))
  {
    hide Run, Attempts, ItemsOf, Framed, FirstShortRead, Concat, Drain, ReceiveOf, CutPacket;
    var all := Attempts(env, ItemsOf([], es), |ItemsOf([], es)|);
    var j;
    sent, partial, j := ProgramOutput(env, es);
    StreamReceived(sent, partial, memory);
    if partial == [] {
      NothingReceived(memory);
      assert ReceiveAll([], memory) == Reception([], Broken);
      assert AsPackets(sent) + [] == AsPackets(sent);
    } else {
      CutReceived(all[|sent|], partial, memory);
    }
  }
}
