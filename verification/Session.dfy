/** One client's session as a state machine: `handle_client` in src/server.rs with the request and
    forwarding handlers of src/handlers.rs.

    `select!` runs the arm it picks to completion, so each event is one step.  Everything the
    program cannot see is a parameter in `Env`. */
module Session {
  import opened Words
  import opened Framing

  // ---- Subscription flags ----

  datatype Flags = Flags(regular: bool, raw: bool)

  const NO_FLAGS := Flags(false, false)

  function FromFlags(flags: u32): Flags {
    Flags(flags == 0 || BitAnd(flags, 1) == 0, BitAnd(flags, 1) != 0)
  }

  /** A subscription always turns on exactly one of the two forms. */
  lemma FromFlagsChoosesOne(flags: u32)
    ensures FromFlags(flags) == Flags(flags % 2 == 0, flags % 2 == 1)
  {
    assert BitAnd(flags, 1) == flags % 2 by {
      if flags > 0 { assert BitAnd(flags / 2, 0) == 0; }
    }
  }

  // ---- Environment, events and state ----

  datatype Advert = Advert(legacy: Body, raw: Body)

  /** What lies outside the program.  `parses` and `flagsOf` stand for protobuf parsing, `body` for
      the serialised response of a type; `peerOk(k)` says whether the peer address could be read
      while item k was handled; the socket accepts `room` bytes and fails the write after that. */
  datatype Env = Env(
    parses: Message -> bool,
    flagsOf: seq<u8> -> u32,
    body: u32 -> Body,
    peerOk: nat -> bool,
    shutdownOk: bool,
    room: nat)

  /** A read of no bytes is how the stream reports its end. */
  datatype Event = Read(data: seq<u8>) | ReadErr | Recv(advert: Advert) | Lagged(n: nat) | Closed

  /** What the session acts on: an extracted message or a received advertisement. */
  datatype Item = Msg(msg: Message) | Adv(advert: Advert)

  datatype Status = Running | Finished | Failed | Panicked

  datatype Wire = Wire(out: seq<u8>, room: nat, closed: bool)

  /** `tick` counts the items handled. */
  datatype Core = Core(flags: Flags, wire: Wire, tick: nat, status: Status)

  datatype SessionState = SessionState(buf: seq<u8>, core: Core)

  function Start(env: Env): Core {
    Core(NO_FLAGS, Wire([], env.room, false), 0, Running)
  }

  function Accepted(env: Env): SessionState {
    SessionState([], Start(env))
  }

  // ---- Writing ----

  datatype Written = Written(wire: Wire, ok: bool)

  /** `write_all`: every byte, or a prefix and an error; nothing once the write side is shut. */
  function WriteAll(w: Wire, bytes: seq<u8>): Written {
    if w.closed then Written(w, false)
    else if |bytes| <= w.room then Written(w.(out := w.out + bytes, room := w.room - |bytes|), true)
    else Written(w.(out := w.out + bytes[..w.room], room := 0), false)
  }

  /** The socket takes all bytes it has room for, in order, and fails exactly when that is not all of
      them or the write side is shut; nothing is written then. */
  lemma WriteTakes(w: Wire, bytes: seq<u8>)
    ensures var r := WriteAll(w, bytes);
            && w.out <= r.wire.out <= w.out + bytes
            && |r.wire.out| + r.wire.room == |w.out| + w.room && r.wire.closed == w.closed
            && (r.ok <==> r.wire.out == w.out + bytes && !w.closed)
            && (w.closed ==> r.wire == w)
            && (!w.closed && !r.ok ==> r.wire.room == 0)
  {
  }

  function Send(c: Core, msgType: u32, body: Body): Core {
    var w := WriteAll(c.wire, FrameBytes(msgType, body));
    c.(wire := w.wire, status := if w.ok then c.status else Failed)
  }

  // ---- Handling one item ----

  const RAW_ADVERTISEMENTS: u32 := 93
  const LEGACY_ADVERTISEMENT: u32 := 67
  const DISCONNECT: u32 := 0x05
  const DISCONNECT_RESPONSE: u32 := 6
  const SUBSCRIBE: u32 := 0x42
  const UNSUBSCRIBE: u32 := 0x57

  /** The response message of each request the proxy answers (`option (id)` in proto/api.proto). */
  function ReplyType(request: u32): Option<u32> {
    match request
    case 0x01 => Some(2)
    case 0x03 => Some(4)
    case 0x05 => Some(DISCONNECT_RESPONSE)
    case 0x07 => Some(8)
    case 0x09 => Some(10)
    case 0x0b => Some(19)
    case 0x50 => Some(81)
    case _ => None
  }

  function HandleMessage(env: Env, c: Core, m: Message): Core {
    if m.msgType == UNSUBSCRIBE then c.(flags := NO_FLAGS)
    else if m.msgType == SUBSCRIBE then
      if env.peerOk(c.tick) && env.parses(m) then c.(flags := FromFlags(env.flagsOf(m.payload))) else c
    else match ReplyType(m.msgType)
      case None => if env.peerOk(c.tick) then c else c.(status := Failed)
      case Some(reply) =>
        if !env.peerOk(c.tick) || !env.parses(m) then c.(status := Failed)
        else
          var sent := Send(c, reply, env.body(reply));
          if m.msgType != DISCONNECT || sent.status != Running then sent
          else if env.shutdownOk then sent.(wire := sent.wire.(closed := true))
          else sent.(status := Failed)
  }

  function HandleAdvert(env: Env, c: Core, a: Advert): Core {
    if !c.flags.raw && !c.flags.regular then c
    else if !env.peerOk(c.tick) then c.(status := Failed)
    else if c.flags.raw then Send(c, RAW_ADVERTISEMENTS, a.raw)
    else Send(c, LEGACY_ADVERTISEMENT, a.legacy)
  }

  function Handle(env: Env, c: Core, item: Item): Core {
    var after := match item case Msg(m) => HandleMessage(env, c, m) case Adv(a) => HandleAdvert(env, c, a);
    after.(tick := c.tick + 1)
  }

  /** What src/server.rs:54-79 and proto/api.proto promise of one message, in their own numbers: which
      requests are answered and by which type, what a subscription decides, and what ends the session. */
  predicate Answered(env: Env, c: Core, m: Message, next: Core) {
    var replies: map<int, u32> := map[0x01 := 2, 0x03 := 4, 0x05 := 6, 0x07 := 8, 0x09 := 10, 0x0b := 19, 0x50 := 81];
    var able := env.peerOk(c.tick) && env.parses(m);
    && next.tick == c.tick + 1
    && (if m.msgType in replies && able then
          var w := WriteAll(c.wire, FrameBytes(replies[m.msgType], env.body(replies[m.msgType])));
          && next.flags == c.flags && next.wire.out == w.wire.out && next.wire.room == w.wire.room
          && next.wire.closed == (c.wire.closed || (w.ok && m.msgType == 0x05 && env.shutdownOk))
          && next.status == if w.ok && (m.msgType == 0x05 ==> env.shutdownOk) then Running else Failed
        else
          && next.wire == c.wire
          && next.flags == (if m.msgType == 0x57 then Flags(false, false)
                            else if m.msgType == 0x42 && able
                            then Flags(env.flagsOf(m.payload) % 2 == 0, env.flagsOf(m.payload) % 2 == 1)
                            else c.flags)
          && next.status == if m.msgType in {0x42, 0x57} || (m.msgType !in replies && env.peerOk(c.tick))
                            then Running else Failed)
  }

  lemma RequestsAnswered(env: Env, c: Core, m: Message)
    requires c.status == Running
    ensures Answered(env, c, m, Handle(env, c, Msg(m)))
  {
    hide FrameBytes, FromFlags;
    FromFlagsChoosesOne(env.flagsOf(m.payload));
  }

  // ---- Events ----

  /** A session that ends drops its receive buffer. */
  function End(c: Core, status: Status): SessionState {
    SessionState([], c.(status := status))
  }

  function Settle(buf: seq<u8>, c: Core): SessionState {
    if c.status == Running then SessionState(buf, c) else SessionState([], c)
  }

  lemma NextShrinks(g: Guard, buf: seq<u8>)
    requires NextBy(g, buf).Frame?
    ensures |NextBy(g, buf).rest| < |buf|
  {
    AbortExactly(buf);
    FrameStable(buf, []);
  }

  /** The inner `while let Some(..) = next_message(..)` loop. */
  function Serve(env: Env, g: Guard, buf: seq<u8>, c: Core): SessionState
    decreases |buf|
  {
    match NextBy(g, buf)
    case NoFrame => SessionState(buf, c)
    case Abort => End(c, Panicked)
    case Frame(msg, rest) =>
      NextShrinks(g, buf);
      var next := Handle(env, c, Msg(msg));
      if next.status == Running then Serve(env, g, rest, next) else SessionState([], next)
  }

  function Step(env: Env, g: Guard, s: SessionState, e: Event): SessionState {
    if s.core.status != Running then s
    else match e
      case Read(data) => if data == [] then End(s.core, Finished) else Serve(env, g, s.buf + data, s.core)
      case ReadErr => End(s.core, Finished)
      case Recv(a) => Settle(s.buf, Handle(env, s.core, Adv(a)))
      case Lagged(_) => s
      case Closed => End(s.core, Finished)
  }

  function Run(env: Env, g: Guard, s: SessionState, es: seq<Event>): SessionState
    decreases |es|
  {
    if es == [] then s else Run(env, g, Step(env, g, s, es[0]), es[1..])
  }

  lemma {:induction false} RunAppends(env: Env, g: Guard, s: SessionState, es: seq<Event>, fs: seq<Event>)
    ensures Run(env, g, s, es + fs) == Run(env, g, Run(env, g, s, es), fs)
    decreases |es|
  {
    if es == [] {
      assert es + fs == fs;
    } else {
      RunAppends(env, g, Step(env, g, s, es[0]), es[1..], fs);
      assert (es + fs)[1..] == es[1..] + fs;
    }
  }

  lemma {:induction false} RunEnded(env: Env, g: Guard, s: SessionState, es: seq<Event>)
    requires s.core.status != Running
    ensures Run(env, g, s, es) == s
    decreases |es|
  {
    if es != [] { RunEnded(env, g, s, es[1..]); }
  }

  lemma RunFirst(env: Env, g: Guard, s: SessionState, e: Event, later: seq<Event>)
    ensures Run(env, g, s, [e] + later) == Run(env, g, Step(env, g, s, e), later)
  {
    hide Step;
    assert ([e] + later)[1..] == later;
  }

  lemma RunReaches(env: Env, g: Guard, s: SessionState, es: seq<Event>, n: nat)
    requires n < |es|
    ensures var t := Step(env, g, Run(env, g, s, es[..n]), es[n]);
            Run(env, g, s, es[..n + 1]) == t && (t.core.status != Running ==> Run(env, g, s, es) == t)
  {
    hide Step;
    var r := Run(env, g, s, es[..n]);
    var t := Step(env, g, r, es[n]);
    assert es[..n + 1] == es[..n] + [es[n]];
    RunAppends(env, g, s, es[..n], [es[n]]);
    assert Run(env, g, r, [es[n]]) == Run(env, g, t, []) == t;
    if t.core.status != Running {
      assert es == es[..n + 1] + es[n + 1..];
      RunAppends(env, g, s, es[..n + 1], es[n + 1..]);
      RunEnded(env, g, t, es[n + 1..]);
    }
  }

  // ---- The same run, item by item ----

  function HandleAll(env: Env, c: Core, items: seq<Item>): Core
    decreases |items|
  {
    if items == [] || c.status != Running then c
    else HandleAll(env, Handle(env, c, items[0]), items[1..])
  }

  function AsItems(ms: seq<Message>): (r: seq<Item>)
    ensures |r| == |ms|
  {
    seq(|ms|, i requires 0 <= i < |ms| => Msg(ms[i]))
  }

  lemma {:induction false} HandleAllAppends(env: Env, c: Core, xs: seq<Item>, ys: seq<Item>)
    ensures HandleAll(env, c, xs + ys) == HandleAll(env, HandleAll(env, c, xs), ys)
    decreases |xs|
  {
    if xs == [] {
      assert xs + ys == ys;
    } else if c.status == Running {
      HandleAllAppends(env, Handle(env, c, xs[0]), xs[1..], ys);
      assert (xs + ys)[1..] == xs[1..] + ys;
    }
  }

  lemma HandleAllStopped(env: Env, c: Core, items: seq<Item>)
    requires c.status != Running
    ensures HandleAll(env, c, items) == c
  {
  }

  /** With the guard that counts the type, serving a buffer is: drain it, then handle in order. */
  lemma {:induction false} ServeIsDrain(env: Env, buf: seq<u8>, c: Core)
    requires c.status == Running
    ensures Serve(env, CountsType, buf, c)
         == Settle(Drain(buf).rest, HandleAll(env, c, AsItems(Drain(buf).msgs)))
    decreases |buf|
  {
    hide Handle, NextChecked, FrameBytes;
    if NextChecked(buf).Frame? {
      NextShrinks(CountsType, buf);
      var m, rest := NextChecked(buf).msg, NextChecked(buf).rest;
      var next := Handle(env, c, Msg(m));
      DrainStep(buf, m, rest);
      assert AsItems(Drain(buf).msgs)[1..] == AsItems(Drain(rest).msgs);
      if next.status == Running { ServeIsDrain(env, rest, next); }
    }
  }

  /** The guard as written serves the same messages, then aborts if what is left is in the short window. */
  lemma {:induction false} ServeAsWritten(env: Env, buf: seq<u8>, c: Core)
    requires c.status == Running
    ensures var s := Serve(env, CountsType, buf, c);
            Serve(env, AsWritten, buf, c) ==
            if s.core.status == Running && ShortWindow(s.buf) then End(s.core, Panicked) else s
    decreases |buf|
  {
    AbortExactly(buf);
    if NextChecked(buf).Frame? {
      NextShrinks(CountsType, buf);
      var next := Handle(env, c, Msg(NextChecked(buf).msg));
      if next.status == Running { ServeAsWritten(env, NextChecked(buf).rest, next); }
    }
  }

  // ---- Chunking ----

  /** A session between events has nothing extractable in its buffer. */
  predicate Quiet(s: SessionState) {
    if s.core.status == Running then NextChecked(s.buf) == NoFrame else s.buf == []
  }

  lemma StepQuiet(env: Env, s: SessionState, e: Event)
    requires Quiet(s)
    ensures Quiet(Step(env, CountsType, s, e))
  {
    if s.core.status == Running && e.Read? && e.data != [] {
      ServeIsDrain(env, s.buf + e.data, s.core);
    }
  }

  function Single(data: seq<u8>): seq<Event> {
    if data == [] then [] else [Read([data[0]])] + Single(data[1..])
  }

  function Bytewise(es: seq<Event>): seq<Event> {
    if es == [] then []
    else (if es[0].Read? && es[0].data != [] then Single(es[0].data) else [es[0]]) + Bytewise(es[1..])
  }

  /** One read of two pieces is the same as two reads. */
  lemma ReadSplits(env: Env, s: SessionState, a: seq<u8>, b: seq<u8>)
    requires Quiet(s) && a != [] && b != []
    ensures Step(env, CountsType, s, Read(a + b))
         == Step(env, CountsType, Step(env, CountsType, s, Read(a)), Read(b))
  {
    hide Serve, Handle, Drain, NextChecked, HandleAll;
    if s.core.status == Running {
      var d := Drain(s.buf + a);
      var e := Drain(d.rest + b);
      assert s.buf + (a + b) == (s.buf + a) + b;
      DrainConfluent(s.buf + a, b);
      assert AsItems(d.msgs + e.msgs) == AsItems(d.msgs) + AsItems(e.msgs);
      HandleAllAppends(env, s.core, AsItems(d.msgs), AsItems(e.msgs));
      ServeIsDrain(env, s.buf + (a + b), s.core);
      ServeIsDrain(env, s.buf + a, s.core);
      var mid := HandleAll(env, s.core, AsItems(d.msgs));
      if mid.status == Running {
        ServeIsDrain(env, d.rest + b, mid);
      } else {
        HandleAllStopped(env, mid, AsItems(e.msgs));
      }
    }
  }

  lemma {:induction false} ReadBytewise(env: Env, s: SessionState, data: seq<u8>)
    requires Quiet(s) && data != []
    ensures Run(env, CountsType, s, Single(data)) == Step(env, CountsType, s, Read(data))
    decreases |data|
  {
    hide Step;
    var head, tail := [data[0]], data[1..];
    var s1 := Step(env, CountsType, s, Read(head));
    if tail == [] {
      assert data == head && Single(tail) == [];
    } else {
      StepQuiet(env, s, Read(head));
      ReadBytewise(env, s1, tail);
      assert data == head + tail;
      ReadSplits(env, s, head, tail);
    }
    assert Single(data)[1..] == Single(tail);
  }

  /** Session refinement: every run equals the run fed one byte at a time. */
  lemma {:induction false} ChunkingIrrelevant(env: Env, s: SessionState, es: seq<Event>)
    requires Quiet(s)
    ensures Run(env, CountsType, s, es) == Run(env, CountsType, s, Bytewise(es))
    decreases |es|
  {
    if es != [] {
      var first := if es[0].Read? && es[0].data != [] then Single(es[0].data) else [es[0]];
      var s1 := Step(env, CountsType, s, es[0]);
      StepQuiet(env, s, es[0]);
      ChunkingIrrelevant(env, s1, es[1..]);
      RunAppends(env, CountsType, s, first, Bytewise(es[1..]));
      if es[0].Read? && es[0].data != [] {
        ReadBytewise(env, s, es[0].data);
      } else {
        assert Run(env, CountsType, s1, []) == s1;
      }
    }
  }

  /** Two traces with the same bytes in the same places between the other events end alike. */
  lemma SameBytesSameRun(env: Env, es: seq<Event>, fs: seq<Event>)
    requires Bytewise(es) == Bytewise(fs)
    ensures Run(env, CountsType, Accepted(env), es) == Run(env, CountsType, Accepted(env), fs)
  {
    ChunkingIrrelevant(env, Accepted(env), es);
    ChunkingIrrelevant(env, Accepted(env), fs);
  }

  // ---- The guard as written ----

  /** Read n leaves a session that is still running with its buffer in the short window. */
  predicate HitAt(env: Env, s: SessionState, es: seq<Event>, n: nat)
    requires n < |es|
  {
    var t := Run(env, CountsType, s, es[..n + 1]);
    es[n].Read? && t.core.status == Running && ShortWindow(t.buf)
  }

  lemma HitAtFirst(env: Env, s: SessionState, es: seq<Event>)
    requires es != []
    ensures var t := Step(env, CountsType, s, es[0]);
            HitAt(env, s, es, 0) <==> es[0].Read? && t.core.status == Running && ShortWindow(t.buf)
  {
    hide Step, ShortWindow;
    var t := Step(env, CountsType, s, es[0]);
    assert es[..1] == [es[0]] + [];
    RunFirst(env, CountsType, s, es[0], []);
    assert Run(env, CountsType, t, []) == t;
  }

  lemma HitAtLater(env: Env, s: SessionState, es: seq<Event>, n: nat)
    requires n + 1 < |es|
    ensures HitAt(env, s, es, n + 1) <==> HitAt(env, Step(env, CountsType, s, es[0]), es[1..], n)
  {
    hide Step, ShortWindow, Run;
    assert es[..n + 2] == [es[0]] + es[1..][..n + 1];
    RunFirst(env, CountsType, s, es[0], es[1..][..n + 1]);
  }

  lemma NoHitEnded(env: Env, s: SessionState, es: seq<Event>, n: nat)
    requires s.core.status != Running && n < |es|
    ensures !HitAt(env, s, es, n)
  {
    RunEnded(env, CountsType, s, es[..n + 1]);
  }

  /** Some read leaves a running session's buffer in the short window. */
  predicate Hits(env: Env, s: SessionState, es: seq<Event>)
    decreases |es|
  {
    es != [] && s.core.status == Running &&
    var next := Step(env, CountsType, s, es[0]);
    (es[0].Read? && next.core.status == Running && ShortWindow(next.buf)) || Hits(env, next, es[1..])
  }

  lemma {:induction false} HitsSomewhere(env: Env, s: SessionState, es: seq<Event>)
    ensures Hits(env, s, es) <==> exists n: nat :: n < |es| && HitAt(env, s, es, n)
    decreases |es|
  {
    hide Step, ShortWindow, HitAt;
    if s.core.status != Running {
      forall n: nat | n < |es| ensures !HitAt(env, s, es, n) { NoHitEnded(env, s, es, n); }
    } else if es != [] {
      var next, rest := Step(env, CountsType, s, es[0]), es[1..];
      HitsSomewhere(env, next, rest);
      HitAtFirst(env, s, es);
      if n: nat :| n < |es| && HitAt(env, s, es, n) {
        if n > 0 { HitAtLater(env, s, es, n - 1); }
      }
      if n: nat :| n < |rest| && HitAt(env, next, rest, n) {
        HitAtLater(env, s, es, n);
      }
    }
  }

  lemma HandleNeverPanics(env: Env, c: Core, item: Item)
    requires c.status == Running
    ensures Handle(env, c, item).status != Panicked && Handle(env, c, item).status != Finished
  {
  }

  lemma {:induction false} HandleAllNeverPanics(env: Env, c: Core, items: seq<Item>)
    requires c.status == Running || c.status == Failed
    ensures HandleAll(env, c, items).status == Running || HandleAll(env, c, items).status == Failed
    decreases |items|
  {
    if items != [] && c.status == Running {
      HandleNeverPanics(env, c, items[0]);
      HandleAllNeverPanics(env, Handle(env, c, items[0]), items[1..]);
    }
  }

  lemma StepNeverPanics(env: Env, s: SessionState, e: Event)
    requires s.core.status != Panicked
    ensures Step(env, CountsType, s, e).core.status != Panicked
  {
    if s.core.status == Running && e.Read? && e.data != [] {
      ServeIsDrain(env, s.buf + e.data, s.core);
      HandleAllNeverPanics(env, s.core, AsItems(Drain(s.buf + e.data).msgs));
    }
  }

  lemma {:induction false} NeverPanics(env: Env, s: SessionState, es: seq<Event>)
    requires s.core.status != Panicked
    ensures Run(env, CountsType, s, es).core.status != Panicked
    decreases |es|
  {
    if es != [] {
      StepNeverPanics(env, s, es[0]);
      NeverPanics(env, Step(env, CountsType, s, es[0]), es[1..]);
    }
  }

  /** The program as written follows the refined machine on a trace exactly when no read stops in the
      short window; otherwise the session aborts at the first such read, everything before it done. */
  lemma {:induction false} AsWrittenExactly(env: Env, s: SessionState, es: seq<Event>) returns (k: nat)
    requires s.core.status != Panicked
    ensures Run(env, AsWritten, s, es) == Run(env, CountsType, s, es) <==> !Hits(env, s, es)
    ensures k <= |es|
    ensures Hits(env, s, es) ==> Run(env, AsWritten, s, es) == End(Run(env, CountsType, s, es[..k]).core, Panicked)
    ensures Hits(env, s, es) ==>
              k > 0 && es[k - 1].Read? && !Hits(env, s, es[..k - 1]) &&
              var t := Run(env, CountsType, s, es[..k]); t.core.status == Running && ShortWindow(t.buf)
    ensures !Hits(env, s, es) ==> k == |es|
    decreases |es|
  {
    hide Serve, Handle, ShortWindow;
    NeverPanics(env, s, es);
    if es == [] {
      k := 0;
    } else if s.core.status != Running {
      RunEnded(env, AsWritten, s, es);
      RunEnded(env, CountsType, s, es);
      k := |es|;
    } else {
      var next := Step(env, CountsType, s, es[0]);
      StepNeverPanics(env, s, es[0]);
      if es[0].Read? && es[0].data != [] { ServeAsWritten(env, s.buf + es[0].data, s.core); }
      if es[0].Read? && next.core.status == Running && ShortWindow(next.buf) {
        RunEnded(env, AsWritten, End(next.core, Panicked), es[1..]);
        k := 1;
        assert es[..1] == [es[0]];
        assert Run(env, CountsType, next, []) == next;
      } else {
        assert Step(env, AsWritten, s, es[0]) == next;
        var j := AsWrittenExactly(env, next, es[1..]);
        k := j + 1;
        assert es[..k][0] == es[0] && es[..k][1..] == es[1..][..j];
        if Hits(env, next, es[1..]) {
          assert es[..j][0] == es[0] && es[..j][1..] == es[1..][..j - 1];
        }
      }
    }
  }

  lemma EmptyWaits()
    ensures NextMessage([]) == NoFrame
  {
  }

  lemma ServeOne(env: Env, buf: seq<u8>, m: Message, c: Core)
    requires NextMessage(buf) == Frame(m, []) && c.status == Running
    ensures Serve(env, AsWritten, buf, c).core == Handle(env, c, Msg(m))
  {
    hide NextMessage, Handle;
    var next := Handle(env, c, Msg(m));
    EmptyWaits();
    assert Serve(env, AsWritten, [], next) == SessionState([], next);
  }

  /** The guard as written makes the session depend on chunking: a first read that stops one byte
      short of a frame with a non-empty body and a one-byte type aborts the session, while the same
      bytes in one read are served. */
  lemma OneByteShortAborts(env: Env, msgType: u32, payload: Body, later: seq<Event>)
    requires msgType < 0x80 && payload != []
    ensures var f := FrameBytes(msgType, payload);
            var n := |f| - 1;
            && Run(env, AsWritten, Accepted(env), [Read(f[..n])] + later).core.status == Panicked
            && Step(env, AsWritten, Accepted(env), Read(f)).core
            == Handle(env, Start(env), Msg(Message(msgType, payload)))
  {
    var f := FrameBytes(msgType, payload);
    var n := |f| - 1;
    hide NextMessage, NextChecked, ShortWindow, Handle, FrameBytes, Run;
    FrameShortWindowSmallType(msgType, payload, n);
    AbortExactly(f[..n]);
    FrameRoundTrip(msgType, payload, []);
    EmptyWaits();
    assert [] + f[..n] == f[..n] && [] + f == f == f + [];
    ServeOne(env, f, Message(msgType, payload), Start(env));
    var s := Step(env, AsWritten, Accepted(env), Read(f[..n]));
    assert s == End(Start(env), Panicked);
    RunFirst(env, AsWritten, Accepted(env), Read(f[..n]), later);
    RunEnded(env, AsWritten, s, later);
  }

  // ---- What is in the buffer ----

  function BytesOf(es: seq<Event>): seq<u8> {
    if es == [] then [] else (if es[0].Read? then es[0].data else []) + BytesOf(es[1..])
  }

  lemma BytesOfFirst(es: seq<Event>)
    requires es != []
    ensures BytesOf(es) == BytesOf([es[0]]) + BytesOf(es[1..])
    ensures BytesOf([es[0]]) == if es[0].Read? then es[0].data else []
  {
    var own := if es[0].Read? then es[0].data else [];
    assert [es[0]][1..] == [] && own + [] == own;
  }

  lemma QuietDrains(s: SessionState)
    requires Quiet(s) && s.core.status == Running
    ensures Drain(s.buf) == Drained([], s.buf)
  {
  }

  /** The buffer of a running session depends on the bytes read alone. */
  lemma {:induction false} BufferIsResidue(env: Env, s: SessionState, es: seq<Event>)
    requires Quiet(s) && Run(env, CountsType, s, es).core.status == Running
    ensures s.core.status == Running && Run(env, CountsType, s, es).buf == Drain(s.buf + BytesOf(es)).rest
    decreases |es|
  {
    hide Serve, Handle, Drain, NextChecked, HandleAll;
    if es == [] {
      assert s.buf + [] == s.buf;
      QuietDrains(s);
    } else {
      if s.core.status != Running { RunEnded(env, CountsType, s, es); }
      var next := Step(env, CountsType, s, es[0]);
      StepQuiet(env, s, es[0]);
      BufferIsResidue(env, next, es[1..]);
      if es[0].Read? {
        ServeIsDrain(env, s.buf + es[0].data, s.core);
        DrainConfluent(s.buf + es[0].data, BytesOf(es[1..]));
        Assoc(s.buf, es[0].data, BytesOf(es[1..]));
      } else {
        assert BytesOf(es) == BytesOf(es[1..]);
      }
    }
  }

  lemma AcceptedQuiet(env: Env)
    ensures Quiet(Accepted(env))
  {
  }
}
