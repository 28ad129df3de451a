/** A session whose receive buffer has lost the frame boundary: what it still does, and when the guard
    as written aborts it. */
module Desync {
  import opened Words
  import opened Varint
  import opened Framing
  import opened Session
  import opened Chunking

  /** The trace with its non-empty reads taken out. */
  function WithoutReads(es: seq<Event>): seq<Event> {
    if es == [] then []
    else (if es[0].Read? && es[0].data != [] then [] else [es[0]]) + WithoutReads(es[1..])
  }

  lemma StuckStep(env: Env, g: Guard, s: SessionState, deaf: SessionState, e: Event)
    requires s.core.status == Running && Stuck(s.buf) && deaf.core == s.core
    ensures var t := Step(env, g, s, e);
            && t.core.flags == s.core.flags
            && (t.core.status == Running ==> t.buf == s.buf + BytesOf([e]) && Stuck(t.buf))
            && (t.core.status == Panicked ==> g.AsWritten? && e.Read?)
            && (t.core.status != Panicked ==>
                  t.core == if e.Read? && e.data != [] then s.core else Step(env, g, deaf, e).core)
  {
    hide Stuck, FrameBytes, NextMessage, NextChecked;
    if e.Read? {
      StuckGrows(s.buf, e.data);
      StuckStaysStuck(s.buf, e.data);
      AbortExactly(s.buf + e.data);
    }
    assert BytesOf([e]) == if e.Read? then e.data else [];
    assert s.buf + [] == s.buf;
  }

  /** A session whose buffer is stuck has stopped reading for good: whatever else arrives, it keeps its
      flags, its buffer only grows, and it does exactly what it would do had those reads not happened.
      When the guard as written aborts it all the same is the subject of the rest of this module. */
  lemma {:induction false} Absorbing(env: Env, g: Guard, s: SessionState, deaf: SessionState, es: seq<Event>)
    requires s.core.status == Running && Stuck(s.buf) && deaf.core == s.core
    ensures var t := Run(env, g, s, es);
            && t.core.flags == s.core.flags
            && (t.core.status == Running ==> t.buf == s.buf + BytesOf(es) && Stuck(t.buf))
            && (t.core.status != Panicked ==> t.core == Run(env, g, deaf, WithoutReads(es)).core)
            && (g.CountsType? ==> t.core.status != Panicked)
    decreases |es|
  {
    hide Step, Stuck;
    if es == [] {
      assert s.buf + [] == s.buf;
    } else {
      var e, later := es[0], WithoutReads(es[1..]);
      var next := Step(env, g, s, e);
      StuckStep(env, g, s, deaf, e);
      var deaf' := deaf;
      if !e.Read? || e.data == [] {
        deaf' := Step(env, g, deaf, e);
        RunFirst(env, g, deaf, e, later);
      } else {
        assert WithoutReads(es) == later;
      }
      if next.core.status == Running {
        Absorbing(env, g, next, deaf', es[1..]);
        BytesOfFirst(es);
        Assoc(s.buf, BytesOf([e]), BytesOf(es[1..]));
      } else {
        RunEnded(env, g, next, es[1..]);
        if next.core.status != Panicked { RunEnded(env, g, deaf', later); }
      }
    }
  }

  // ---- Stuck before any length could overflow ----

  /** The first byte is wrong, or one of the two varints is too long. */
  predicate Hopeless(buf: seq<u8>) {
    buf != [] &&
    (buf[0] != 0 ||
     match Decode(buf[1..])
     case TooLong => true
     case Incomplete => false
     case Ok(_, lenSize) => Decode(buf[1 + lenSize..]).TooLong?)
  }

  lemma HopelessGrows(buf: seq<u8>, more: seq<u8>)
    requires Hopeless(buf)
    ensures Hopeless(buf + more)
  {
    hide Decode;
    assert (buf + more)[0] == buf[0] && (buf + more)[1..] == buf[1..] + more;
    if buf[0] == 0 {
      DecodeStable(buf[1..], more);
      if Decode(buf[1..]).Ok? {
        var at := 1 + Decode(buf[1..]).consumed;
        assert (buf + more)[at..] == buf[at..] + more;
        DecodeStable(buf[at..], more);
      }
    }
  }

  lemma HopelessNotShort(buf: seq<u8>)
    requires Hopeless(buf)
    ensures Stuck(buf) && !ShortWindow(buf)
  {
    hide Decode;
  }

  lemma StuckResidue(s: SessionState, read: seq<u8>)
    requires s.core.status == Running && Stuck(s.buf)
    ensures Quiet(s) && Drain(s.buf + read).rest == s.buf + read
  {
    hide Stuck;
    StuckStaysStuck(s.buf, []);
    assert s.buf + [] == s.buf;
    StuckStaysStuck(s.buf, read);
  }

  /** After a wrong first byte or a varint too long the program as written never aborts: every later
      read only grows the buffer, under either guard and whatever else happens. */
  lemma HopelessAbsorbing(env: Env, g: Guard, s: SessionState, deaf: SessionState, es: seq<Event>)
    requires s.core.status == Running && Hopeless(s.buf) && deaf.core == s.core
    ensures var t := Run(env, g, s, es);
            && t.core.status != Panicked
            && t.core.flags == s.core.flags
            && t.core == Run(env, g, deaf, WithoutReads(es)).core
            && (t.core.status == Running ==> t.buf == s.buf + BytesOf(es) && Hopeless(t.buf))
  {
    hide Run, Hits, Stuck, Hopeless, ShortWindow, Drain, BytesOf, WithoutReads, RunsTo;
    HopelessNotShort(s.buf);
    StuckResidue(s, []);
    HitsInBytes(env, s, es);
    forall n: nat | n < |es| ensures !ShortRead(s.buf, es, n) {
      HopelessGrows(s.buf, BytesOf(es[..n + 1]));
      HopelessNotShort(s.buf + BytesOf(es[..n + 1]));
      StuckResidue(s, BytesOf(es[..n + 1]));
    }
    var k := AsWrittenExactly(env, s, es);
    NeverPanics(env, s, es);
    Absorbing(env, g, s, deaf, es);
    HopelessGrows(s.buf, BytesOf(es));
  }

  // ---- Stuck on an overflowing length ----

  /** The announced length overflows the sum the guard compares with. */
  predicate Overflows(buf: seq<u8>) {
    var h := ParseHeader(buf);
    h.Some? && h.value.typeAt + h.value.length >= TWO_64
  }

  lemma StuckIncomplete(buf: seq<u8>)
    requires Stuck(buf) && ParseHeader(buf).Some?
    ensures ParseHeader(buf).value.bodyAt + ParseHeader(buf).value.length >= TWO_64
  {
    hide Decode;
  }

  lemma StuckShort(buf: Body)
    requires Stuck(buf)
    ensures ShortWindow(buf) <==> Overflows(buf)
  {
    hide ParseHeader, Decode, Stuck;
    AbortExactly(buf);
    AbortInMemory(buf);
    if ParseHeader(buf).Some? { StuckIncomplete(buf); }
  }

  /** A stuck session is aborted by the program as written if and only if some read that it makes while
      running completes a header whose length overflows the guard's sum; up to there it does what it
      would do without its reads.  (No Rust buffer outgrows the bound on what is read.) */
  lemma AbortsOnOverflow(env: Env, s: SessionState, deaf: SessionState, es: seq<Event>) returns (k: nat)
    requires s.core.status == Running && Stuck(s.buf) && deaf.core == s.core
    requires |s.buf| + |BytesOf(es)| < 0x8000_0000_0000_0000
    ensures k <= |es|
    ensures Run(env, AsWritten, s, es).core.status == Panicked ==>
              k > 0 && es[k - 1].Read? && Overflows(s.buf + BytesOf(es[..k]))
    ensures var t := Run(env, AsWritten, s, es);
            && (t.core.status == Panicked <==>
                  exists n: nat :: n < |es| && es[n].Read? && RunsTo(env, s, es, n) &&
                                   Overflows(s.buf + BytesOf(es[..n + 1])))
            && t.core == if t.core.status == Panicked
                         then End(Run(env, CountsType, deaf, WithoutReads(es[..k])).core, Panicked).core
                         else Run(env, CountsType, deaf, WithoutReads(es)).core
  {
    hide Run, Hits, Stuck, ShortWindow, Overflows, Drain, BytesOf, WithoutReads, RunsTo;
    StuckResidue(s, []);
    HitsInBytes(env, s, es);
    forall n: nat | n < |es|
      ensures ShortRead(s.buf, es, n) <==> es[n].Read? && Overflows(s.buf + BytesOf(es[..n + 1]))
    {
      var read := BytesOf(es[..n + 1]);
      BytesOfPrefix(es, n + 1);
      StuckGrows(s.buf, read);
      StuckResidue(s, read);
      StuckShort(s.buf + read);
    }
    k := AsWrittenExactly(env, s, es);
    NeverPanics(env, s, es);
    Absorbing(env, CountsType, s, deaf, es);
    Absorbing(env, CountsType, s, deaf, es[..k]);
    if Hits(env, s, es) {
      BufferIsResidue(env, s, es[..k]);
      assert ShortRead(s.buf, es, k - 1);
    }
  }

  lemma NothingDecodes()
    ensures Decode([]) == Incomplete
  {
  }

  lemma LengthAlone(length: u64)
    requires 1 + |Encode(length)| + length >= TWO_64
    ensures var b := [0] + Encode(length); Stuck(b) && ParseHeader(b).None?
  {
    var l := Encode(length);
    VarintRoundTrip(length, []);
    NothingDecodes();
    hide Decode, Encode, Value, ContinuationRun;
    var b := [0] + l;
    assert b[1..] == l + [] && b[1 + |l|..] == [];
  }

  lemma OverflowHeader(length: u64, msgType: u32)
    requires 1 + |Encode(length)| + length >= TWO_64
    ensures Overflows([0] + Encode(length) + Encode(msgType))
  {
    var l, t := Encode(length), Encode(msgType);
    hide Decode, Encode, Value, ContinuationRun, ParseHeader;
    VarintRoundTrip(length, t);
    VarintRoundTrip(msgType, []);
    assert t + [] == t && [0] + l + t == [0] + (l + (t + []));
    HeaderOf(l, t, []);
  }

  lemma RunTwo(env: Env, s: SessionState, a: Event, b: Event)
    ensures var t := Step(env, AsWritten, s, a);
            Run(env, AsWritten, s, [a]) == t && Run(env, AsWritten, s, [a, b]) == Step(env, AsWritten, t, b)
  {
    hide Step;
    var t := Step(env, AsWritten, s, a);
    RunFirst(env, AsWritten, s, a, []);
    RunFirst(env, AsWritten, s, a, [b]);
    RunFirst(env, AsWritten, t, b, []);
    assert [a] + [] == [a] && [b] + [] == [b] && [a] + [b] == [a, b];
  }

  lemma NotEmpty(b: seq<u8>)
    requires Stuck(b)
    ensures b != []
  {
  }

  lemma LastByteAborts(env: Env, b: seq<u8>, t: Body)
    requires Stuck(b) && ParseHeader(b).None? && Overflows(b + t) && t != [] && |b + t| < 0x8000_0000_0000_0000
    ensures Run(env, AsWritten, Accepted(env), [Read(b)]) == SessionState(b, Start(env))
    ensures Run(env, AsWritten, Accepted(env), [Read(b), Read(t)]) == End(Start(env), Panicked)
  {
    hide ParseHeader, Stuck, Overflows, NextMessage, NextChecked, Handle, Run;
    assert b != [] by { NotEmpty(b); }
    assert [] + b == b == b + [];
    StuckStaysStuck(b, []);
    AbortExactly(b);
    StuckGrows(b, t);
    StuckShort(b + t);
    AbortExactly(b + t);
    RunTwo(env, Accepted(env), Read(b), Read(t));
  }

  /** Any length that overflows with its own size: the session is stuck once the length is read, and
      aborted by whatever type varint follows. */
  lemma OverflowingLengthAborts(env: Env, length: u64, msgType: u32)
    requires 1 + |Encode(length)| + length >= TWO_64
    ensures var b := [0] + Encode(length);
            && Stuck(b) && Overflows(b + Encode(msgType))
            && Run(env, AsWritten, Accepted(env), [Read(b)]) == SessionState(b, Start(env))
            && Run(env, AsWritten, Accepted(env), [Read(b), Read(Encode(msgType))]) == End(Start(env), Panicked)
  {
    hide Encode, Stuck, Overflows, ParseHeader, Run;
    EncodeFits(length);
    EncodeFits(msgType);
    LengthAlone(length);
    OverflowHeader(length, msgType);
    LastByteAborts(env, [0] + Encode(length), Encode(msgType));
  }

  lemma SevenOnes(v: nat)
    requires v > 0
    ensures Encode(0x80 * v + 0x7F) == [0xFF] + Encode(v)
  {
  }

  lemma LongestLength()
    ensures Encode(0xFFFF_FFFF_FFFF_FFFF) == [0xFF, 0xFF, 0xFF, 0xFF, 0xFF, 0xFF, 0xFF, 0xFF, 0xFF, 1]
  {
    assert Encode(1) == [1];
    hide Encode;
    SevenOnes(1);
    SevenOnes(0xFF);
    SevenOnes(0x7FFF);
    SevenOnes(0x3F_FFFF);
    SevenOnes(0x1FFF_FFFF);
    SevenOnes(0xF_FFFF_FFFF);
    SevenOnes(0x7FF_FFFF_FFFF);
    SevenOnes(0x3_FFFF_FFFF_FFFF);
    SevenOnes(0x1FF_FFFF_FFFF_FFFF);
  }

  /** A zero byte and the length 2^64 - 1, then a type. */
  lemma OverflowExample(env: Env, b: seq<u8>, msgType: u32)
    requires b == [0, 0xFF, 0xFF, 0xFF, 0xFF, 0xFF, 0xFF, 0xFF, 0xFF, 0xFF, 1]
    ensures Stuck(b) && Run(env, AsWritten, Accepted(env), [Read(b)]) == SessionState(b, Start(env))
    ensures Run(env, AsWritten, Accepted(env), [Read(b), Read(Encode(msgType))]) == End(Start(env), Panicked)
  {
    hide Stuck, Run, Encode;
    LongestLength();
    assert b == [0] + Encode(0xFFFF_FFFF_FFFF_FFFF);
    OverflowingLengthAborts(env, 0xFFFF_FFFF_FFFF_FFFF, msgType);
  }
}
