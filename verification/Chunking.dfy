/** When the program as written depends on how its byte stream was cut into reads, said of the bytes
    themselves: no step of the session is mentioned, and in the end not even its environment. */
module Chunking {
  import opened Words
  import opened Varint
  import opened Framing
  import opened Session
  import opened History

  /** Read n stops where the undrained residue of all bytes so far is in the short window. */
  predicate ShortRead(buf: seq<u8>, es: seq<Event>, n: nat)
    requires n < |es|
  {
    es[n].Read? && ShortWindow(Drain(buf + BytesOf(es[..n + 1])).rest)
  }

  predicate RunsTo(env: Env, s: SessionState, es: seq<Event>, n: nat)
    requires n < |es|
  {
    Run(env, CountsType, s, es[..n + 1]).core.status == Running
  }

  /** The condition under which the guard as written goes its own way, in bytes. */
  lemma HitsInBytes(env: Env, s: SessionState, es: seq<Event>)
    requires Quiet(s)
    ensures Hits(env, s, es) <==> exists n: nat :: n < |es| && ShortRead(s.buf, es, n) && RunsTo(env, s, es, n)
  {
    hide Run, Hits, Drain, ShortWindow, BytesOf;
    HitsSomewhere(env, s, es);
    forall n: nat | n < |es| ensures HitAt(env, s, es, n) <==> ShortRead(s.buf, es, n) && RunsTo(env, s, es, n) {
      if RunsTo(env, s, es, n) { BufferIsResidue(env, s, es[..n + 1]); }
    }
  }

  /** Both guards run alike if and only if no read that a running session makes is short. */
  lemma AsWrittenInBytes(env: Env, es: seq<Event>)
    ensures Run(env, AsWritten, Accepted(env), es) == Run(env, CountsType, Accepted(env), es) <==>
            forall n: nat :: n < |es| && ShortRead([], es, n) ==> !RunsTo(env, Accepted(env), es, n)
  {
    AcceptedQuiet(env);
    hide Run, Hits, ShortRead, RunsTo;
    HitsInBytes(env, Accepted(env), es);
    var k := AsWrittenExactly(env, Accepted(env), es);
  }

  // ---- Without the environment ----

  predicate Asks(item: Item) {
    item.Msg? && ReplyType(item.msg.msgType).Some?
  }

  predicate IsDisconnect(item: Item) {
    item.Msg? && item.msg.msgType == DISCONNECT
  }

  predicate Polite(items: seq<Item>) {
    forall i, j | 0 <= i < j < |items| :: IsDisconnect(items[i]) ==> !Asks(items[j])
  }

  /** Some environment lets a session run to the end of this trace: nothing ends it, and no request is
      left to answer after a DisconnectRequest. */
  predicate CanRun(es: seq<Event>) {
    (forall i | 0 <= i < |es| :: !Ending(es[i])) && Polite(ItemsOf([], es))
  }

  lemma LivesAfterDisconnect(env: Env, items: seq<Item>, i: nat, j: nat)
    requires i < j < |items| && Lives(env, items, i) && Lives(env, items, j) && IsDisconnect(items[i])
    ensures !Asks(items[j])
  {
    hide Concat, Attempts, FlagsAt;
    assert ShutsDown(env, items, i);
  }

  lemma RunningCanRun(env: Env, es: seq<Event>)
    requires Run(env, CountsType, Accepted(env), es).core.status == Running
    ensures CanRun(es)
  {
    hide Run, HandleAll, Attempts, Concat, Lives, ItemsOf;
    var items := ItemsOf([], es);
    RunIsItems(env, Accepted(env), es);
    assert items[..|items|] == items;
    var k := HistoryExactly(env, items, |items|);
    forall i, j | 0 <= i < j < |items| && IsDisconnect(items[i]) ensures !Asks(items[j]) {
      LivesAfterDisconnect(env, items, i, j);
    }
  }

  /** Every payload parses except a subscription, every write is taken, every peer address is read. */
  function Generous(room: nat): Env {
    Env((m: Message) => m.msgType != SUBSCRIBE, p => 0, t => [], k => true, true, room)
  }

  lemma {:induction false} GenerousFlags(items: seq<Item>, n: nat, room: nat)
    requires n <= |items|
    ensures FlagsAt(Generous(room), items, n) == NO_FLAGS
  {
    if n > 0 { GenerousFlags(items, n - 1, room); }
  }

  lemma GenerousAttempt(items: seq<Item>, i: nat, room: nat)
    requires i < |items|
    ensures var a := AttemptAt(Generous(room), items, i);
            && (a.Some? <==> Asks(items[i]))
            && (a.Some? ==> |FrameBytes(a.value.msgType, a.value.payload)| == 3)
            && (ShutsDown(Generous(room), items, i) <==> IsDisconnect(items[i]))
            && !Fatal(Generous(room), items, i)
  {
    hide FlagsAt, FrameBytes;
    GenerousFlags(items, i, room);
    if Asks(items[i]) { SmallFrame(ReplyType(items[i].msg.msgType).value, [], []); }
  }

  lemma {:induction false} GenerousOutput(items: seq<Item>, n: nat, room: nat)
    requires n <= |items|
    ensures |Concat(Attempts(Generous(room), items, n))| <= 3 * n
  {
    if n > 0 {
      hide AttemptAt, FrameBytes;
      GenerousOutput(items, n - 1, room);
      GenerousAttempt(items, n - 1, room);
      OutGrows(Generous(room), items, n - 1);
    }
  }

  lemma GenerousLives(items: seq<Item>, i: nat, room: nat)
    requires i < |items| && Polite(items) && room >= 3 * |items|
    ensures Lives(Generous(room), items, i)
  {
    hide AttemptAt, FrameBytes, Attempts, Concat, Fatal, ShutsDown, FlagsAt, Asks, IsDisconnect;
    GenerousAttempt(items, i, room);
    GenerousOutput(items, i + 1, room);
    if Asks(items[i]) {
      forall j | 0 <= j < i ensures !ShutsDown(Generous(room), items, j) { GenerousAttempt(items, j, room); }
    }
  }

  lemma CanRunRuns(es: seq<Event>) returns (env: Env)
    requires CanRun(es)
    ensures Run(env, CountsType, Accepted(env), es).core.status == Running
  {
    hide Run, HandleAll, Attempts, Concat, Lives, ItemsOf;
    var items := ItemsOf([], es);
    env := Generous(3 * |items|);
    RunIsItems(env, Accepted(env), es);
    assert items[..|items|] == items;
    var k := HistoryExactly(env, items, |items|);
    if k < |items| { GenerousLives(items, k, 3 * |items|); }
  }

  /** The trace is one some environment can tell the two guards apart on. */
  predicate Separates(es: seq<Event>, n: nat)
    requires n < |es|
  {
    ShortRead([], es, n) && CanRun(es[..n + 1])
  }

  /** Whatever the environment, both guards run alike on a trace if and only if it has no short read
      that a session could ever make. */
  lemma EveryEnvironment(es: seq<Event>)
    ensures (forall env: Env :: Run(env, AsWritten, Accepted(env), es) == Run(env, CountsType, Accepted(env), es)) <==>
            forall n: nat :: n < |es| ==> !Separates(es, n)
  {
    hide Run, ShortRead, CanRun;
    forall env: Env | forall n: nat :: n < |es| ==> !Separates(es, n)
      ensures Run(env, AsWritten, Accepted(env), es) == Run(env, CountsType, Accepted(env), es)
    {
      AsWrittenInBytes(env, es);
      forall n: nat | n < |es| && ShortRead([], es, n) ensures !RunsTo(env, Accepted(env), es, n) {
        assert !Separates(es, n);
        if RunsTo(env, Accepted(env), es, n) { RunningCanRun(env, es[..n + 1]); }
      }
    }
    if n: nat :| n < |es| && Separates(es, n) {
      var env := CanRunRuns(es[..n + 1]);
      AsWrittenInBytes(env, es);
      assert RunsTo(env, Accepted(env), es, n);
    }
  }

  // ---- A stream of whole frames ----

  /** Position p of the frames' bytes is a cut the guard as written does not survive: it lies in the
      last `typeSize` bytes of a frame, behind a complete type varint. */
  predicate BadCut(ms: seq<Message>, p: nat)
    requires AllFit(ms)
  {
    ms != [] &&
    var f, h := Framed(ms[0]), FrameHeader(ms[0].msgType, ms[0].payload);
    if p < |f| then h.bodyAt <= p && h.typeAt + |ms[0].payload| <= p else BadCut(ms[1..], p - |f|)
  }

  lemma NothingShort()
    ensures !ShortWindow([])
  {
  }

  lemma {:induction false} ShortAtCut(ms: seq<Message>, p: nat)
    requires AllFit(ms) && p <= |Concat(ms)|
    ensures ShortWindow(Drain(Concat(ms)[..p]).rest) <==> BadCut(ms, p)
  {
    hide ShortWindow, FrameBytes, Drain, FrameHeader;
    if ms == [] {
      EmptyDrains();
      NothingShort();
    } else {
      var m := ms[0];
      var f, rest := FrameBytes(m.msgType, m.payload), Concat(ms[1..]);
      if p < |f| {
        assert Concat(ms)[..p] == f[..p];
        FramePrefixWaits(m.msgType, m.payload, p);
        FrameShortWindow(m.msgType, m.payload, p);
      } else {
        assert Concat(ms)[..p] == f + rest[..p - |f|];
        FrameRoundTrip(m.msgType, m.payload, rest[..p - |f|]);
        DrainStep(f + rest[..p - |f|], m, rest[..p - |f|]);
        ShortAtCut(ms[1..], p - |f|);
      }
    }
  }

  lemma {:induction false} BytesOfPrefix(es: seq<Event>, n: nat)
    requires n <= |es|
    ensures BytesOf(es[..n]) <= BytesOf(es)
  {
    if n > 0 {
      assert es[..n][0] == es[0] && es[..n][1..] == es[1..][..n - 1];
      BytesOfPrefix(es[1..], n - 1);
    }
  }

  /** Read n of a client's stream ends at a bad cut. */
  predicate CutsBadly(ms: seq<Message>, es: seq<Event>, n: nat)
    requires n < |es| && AllFit(ms)
  {
    es[n].Read? && BadCut(ms, |BytesOf(es[..n + 1])|)
  }

  lemma ShortReadIsBadCut(ms: seq<Message>, es: seq<Event>, n: nat)
    requires n < |es| && AllFit(ms) && BytesOf(es) <= Concat(ms)
    ensures ShortRead([], es, n) <==> CutsBadly(ms, es, n)
  {
    hide ShortWindow, Concat, Drain, BadCut, BytesOf;
    var read := BytesOf(es[..n + 1]);
    BytesOfPrefix(es, n + 1);
    assert read == Concat(ms)[..|read|] && [] + read == read;
    ShortAtCut(ms, |read|);
  }

  /** A client that sends whole frames, cut anywhere: the session as written follows the refined one if
      and only if no read of the running session ends at a bad cut; otherwise it aborts. */
  lemma CutFrameAborts(env: Env, ms: seq<Message>, es: seq<Event>)
    requires AllFit(ms) && BytesOf(es) <= Concat(ms)
    ensures var alike := forall n: nat :: n < |es| && CutsBadly(ms, es, n) ==> !RunsTo(env, Accepted(env), es, n);
            && (Run(env, AsWritten, Accepted(env), es) == Run(env, CountsType, Accepted(env), es) <==> alike)
            && (Run(env, AsWritten, Accepted(env), es).core.status == Panicked <==> !alike)
  {
    hide Run, Hits, ShortRead, RunsTo, CutsBadly, BytesOf, Concat;
    forall n: nat | n < |es| ensures ShortRead([], es, n) <==> CutsBadly(ms, es, n) { ShortReadIsBadCut(ms, es, n); }
    AsWrittenInBytes(env, es);
    NeverPanics(env, Accepted(env), es);
    var k := AsWrittenExactly(env, Accepted(env), es);
  }

  /** Whatever the environment, both guards run alike on whole frames if and only if no read that a
      session could ever make ends at a bad cut. */
  lemma SafeCuts(ms: seq<Message>, es: seq<Event>)
    requires AllFit(ms) && BytesOf(es) <= Concat(ms)
    ensures (forall env: Env :: Run(env, AsWritten, Accepted(env), es) == Run(env, CountsType, Accepted(env), es)) <==>
            forall n: nat :: n < |es| && CutsBadly(ms, es, n) ==> !CanRun(es[..n + 1])
  {
    hide Run, ShortRead, CanRun, CutsBadly, BytesOf, Concat;
    forall n: nat | n < |es| ensures Separates(es, n) <==> CutsBadly(ms, es, n) && CanRun(es[..n + 1]) {
      ShortReadIsBadCut(ms, es, n);
    }
    EveryEnvironment(es);
  }

  lemma BadCutFirst(m: Message, p: nat)
    requires |m.payload| < 0x8000_0000_0000_0000 && m.msgType < 0x80 && p < |Framed(m)|
    ensures var h := FrameHeader(m.msgType, m.payload);
            h.bodyAt <= p && h.typeAt + |m.payload| <= p <==> m.payload != [] && p + 1 == |Framed(m)|
  {
    assert |Encode(m.msgType)| == 1;
  }

  /** Where frame i ends in the stream. */
  function EndOf(ms: seq<Message>, i: nat): nat
    requires i < |ms|
  {
    |Concat(ms[..i + 1])|
  }

  lemma EndOfLater(ms: seq<Message>, i: nat)
    requires i < |ms|
    ensures if i == 0 then EndOf(ms, i) == |Framed(ms[0])|
            else EndOf(ms, i) == |Framed(ms[0])| + EndOf(ms[1..], i - 1) > |Framed(ms[0])|
  {
    hide FrameBytes;
    assert ms[..i + 1][1..] == ms[1..][..i];
    if i == 0 { assert Concat(ms[..1][1..]) == []; } else { assert |Framed(ms[1])| > 0; }
  }

  /** With one-byte types, a cut is bad exactly when one byte of a frame with a body is missing. */
  lemma {:induction false} BadCutSmallTypes(ms: seq<Message>, p: nat)
    requires AllFit(ms) && forall i | 0 <= i < |ms| :: ms[i].msgType < 0x80
    ensures BadCut(ms, p) <==> exists i: nat :: i < |ms| && ms[i].payload != [] && p + 1 == EndOf(ms, i)
  {
    hide FrameBytes, FrameHeader, EndOf;
    if ms != [] {
      var size, rest := |Framed(ms[0])|, ms[1..];
      EndOfLater(ms, 0);
      if p < size {
        BadCutFirst(ms[0], p);
        forall i: nat | 0 < i < |ms| ensures EndOf(ms, i) > p + 1 { EndOfLater(ms, i); }
      } else {
        BadCutSmallTypes(rest, p - size);
        forall i: nat | 0 < i < |ms| ensures ms[i] == rest[i - 1] && EndOf(ms, i) == size + EndOf(rest, i - 1) {
          EndOfLater(ms, i);
        }
        if i: nat :| i < |rest| && rest[i].payload != [] && p - size + 1 == EndOf(rest, i) {
          assert ms[i + 1].payload != [] && p + 1 == EndOf(ms, i + 1);
        }
      }
    }
  }
}
