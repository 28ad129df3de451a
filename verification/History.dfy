/** What a whole run of one client's session adds up to, said without the state machine: the flags
    and the output as functions of the items handled so far. */
module History {
  import opened Words
  import opened Framing
  import opened Session

  // ---- Reading the answers off the history ----

  /** The flags item i sets, if it is a successful subscribe or an unsubscribe. */
  function Decision(env: Env, items: seq<Item>, i: nat): Option<Flags>
    requires i < |items|
  {
    match items[i]
    case Msg(m) =>
      if m.msgType == UNSUBSCRIBE then Some(NO_FLAGS)
      else if m.msgType == SUBSCRIBE && env.peerOk(i) && env.parses(m) then Some(FromFlags(env.flagsOf(m.payload)))
      else None
    case Adv(_) => None
  }

  /** The last decision among the first n items. */
  function FlagsAt(env: Env, items: seq<Item>, n: nat): Flags
    requires n <= |items|
  {
    if n == 0 then NO_FLAGS
    else match Decision(env, items, n - 1)
      case Some(f) => f
      case None => FlagsAt(env, items, n - 1)
  }

  /** The frame item i asks to send. */
  function AttemptAt(env: Env, items: seq<Item>, i: nat): Option<Message>
    requires i < |items|
  {
    if !env.peerOk(i) then None
    else match items[i]
      case Msg(m) =>
        if ReplyType(m.msgType).Some? && env.parses(m)
        then Some(Message(ReplyType(m.msgType).value, env.body(ReplyType(m.msgType).value)))
        else None
      case Adv(a) =>
        var f := FlagsAt(env, items, i);
        if f.raw then Some(Message(RAW_ADVERTISEMENTS, a.raw))
        else if f.regular then Some(Message(LEGACY_ADVERTISEMENT, a.legacy))
        else None
  }

  function Attempts(env: Env, items: seq<Item>, n: nat): seq<Message>
    requires n <= |items|
  {
    if n == 0 then []
    else Attempts(env, items, n - 1) +
         match AttemptAt(env, items, n - 1) case Some(m) => [m] case None => []
  }

  predicate ShutsDown(env: Env, items: seq<Item>, i: nat)
    requires i < |items|
  {
    var a := AttemptAt(env, items, i);
    a.Some? && a.value.msgType == DISCONNECT_RESPONSE
  }

  predicate ShutBy(env: Env, items: seq<Item>, n: nat)
    requires n <= |items|
  {
    exists j :: 0 <= j < n && ShutsDown(env, items, j)
  }

  /** Item i ends the session whatever the socket does. */
  predicate Fatal(env: Env, items: seq<Item>, i: nat)
    requires i < |items|
  {
    match items[i]
    case Msg(m) =>
      m.msgType != SUBSCRIBE && m.msgType != UNSUBSCRIBE &&
      (!env.peerOk(i) || (ReplyType(m.msgType).Some? && !env.parses(m)))
    case Adv(_) => FlagsAt(env, items, i) != NO_FLAGS && !env.peerOk(i)
  }

  /** The session survives item i. */
  predicate Lives(env: Env, items: seq<Item>, i: nat)
    requires i < |items|
  {
    && !Fatal(env, items, i)
    && (AttemptAt(env, items, i).Some? ==>
          && |Concat(Attempts(env, items, i + 1))| <= env.room
          && !ShutBy(env, items, i)
          && (ShutsDown(env, items, i) ==> env.shutdownOk))
  }

  // ---- The machine computes them ----

  /** The state after n items of a session that is still running. */
  predicate Tracks(env: Env, items: seq<Item>, n: nat, c: Core)
    requires n <= |items|
  {
    && c.status == Running && c.tick == n
    && c.flags == FlagsAt(env, items, n)
    && c.wire.out == Concat(Attempts(env, items, n))
    && c.wire.room + |c.wire.out| == env.room
    && c.wire.closed == ShutBy(env, items, n)
  }

  lemma {:induction false} ConcatSnoc(ms: seq<Message>, m: Message)
    ensures Concat(ms + [m]) == Concat(ms) + FrameBytes(m.msgType, m.payload)
  {
    hide FrameBytes;
    if ms == [] {
      assert ms + [m] == [m] && Concat([m][1..]) == [];
    } else {
      ConcatSnoc(ms[1..], m);
      assert (ms + [m])[1..] == ms[1..] + [m];
    }
  }

  lemma OutGrows(env: Env, items: seq<Item>, i: nat)
    requires i < |items|
    ensures Concat(Attempts(env, items, i + 1)) == Concat(Attempts(env, items, i)) +
            match AttemptAt(env, items, i) case Some(m) => FrameBytes(m.msgType, m.payload) case None => []
  {
    hide FrameBytes, AttemptAt;
    match AttemptAt(env, items, i)
    case Some(m) => ConcatSnoc(Attempts(env, items, i), m);
    case None => assert Attempts(env, items, i + 1) == Attempts(env, items, i);
  }

  lemma FlagsExclusive(env: Env, items: seq<Item>, n: nat)
    requires n <= |items|
    ensures !(FlagsAt(env, items, n).raw && FlagsAt(env, items, n).regular)
  {
    if n > 0 {
      match Decision(env, items, n - 1)
      case Some(f) =>
        if items[n - 1].msg.msgType == SUBSCRIBE { FromFlagsChoosesOne(env.flagsOf(items[n - 1].msg.payload)); }
      case None => FlagsExclusive(env, items, n - 1);
    }
  }

  lemma ShutStep(env: Env, items: seq<Item>, i: nat)
    requires i < |items|
    ensures ShutBy(env, items, i + 1) <==> ShutBy(env, items, i) || ShutsDown(env, items, i)
  {
  }

  lemma FlagsStep(env: Env, items: seq<Item>, i: nat)
    requires i < |items|
    ensures FlagsAt(env, items, i + 1)
         == match Decision(env, items, i) case Some(f) => f case None => FlagsAt(env, items, i)
  {
  }

  /** The output of a session that fails at item i. */
  function DeadOut(env: Env, items: seq<Item>, i: nat): seq<u8>
    requires i < |items|
  {
    var before := Concat(Attempts(env, items, i));
    match AttemptAt(env, items, i)
    case Some(m) =>
      if ShutBy(env, items, i) then before
      else
        var f := FrameBytes(m.msgType, m.payload);
        if |before| + |f| <= env.room then before + f
        else if |before| <= env.room then before + f[..env.room - |before|]
        else before
    case None => before
  }

  lemma HandleTrackedMessage(env: Env, items: seq<Item>, i: nat, c: Core)
    requires i < |items| && items[i].Msg? && Tracks(env, items, i, c)
    ensures var next := Handle(env, c, items[i]);
            if Lives(env, items, i) then Tracks(env, items, i + 1, next)
            else next.status == Failed && next.flags == c.flags && next.wire.out == DeadOut(env, items, i)
  {
    hide FrameBytes, FlagsAt, Concat, FromFlags, Attempts, ShutBy;
    OutGrows(env, items, i);
    FlagsStep(env, items, i);
    ShutStep(env, items, i);
  }

  /** One item from a tracked state: it is survived exactly when `Lives`; otherwise the frame it asks
      for is written as far as the socket allows and the session has failed. */
  lemma HandleTracked(env: Env, items: seq<Item>, i: nat, c: Core)
    requires i < |items| && Tracks(env, items, i, c)
    ensures var next := Handle(env, c, items[i]);
            if Lives(env, items, i) then Tracks(env, items, i + 1, next)
            else next.status == Failed && next.flags == c.flags && next.wire.out == DeadOut(env, items, i)
  {
    hide FrameBytes, FlagsAt, Concat, FromFlags, Attempts, ShutBy;
    OutGrows(env, items, i);
    FlagsStep(env, items, i);
    ShutStep(env, items, i);
    match items[i]
    case Msg(m) => HandleTrackedMessage(env, items, i, c);
    case Adv(_) =>
      FlagsExclusive(env, items, i);
  }

  lemma HandleOne(env: Env, c: Core, item: Item)
    requires c.status == Running
    ensures HandleAll(env, c, [item]) == Handle(env, c, item)
  {
    assert HandleAll(env, Handle(env, c, item), []) == Handle(env, c, item);
  }

  /** After n items the session is running exactly when each of them was survived, and then flags,
      output and write-closed bit are the functions of the history above; a session that failed did so
      at the first item it did not survive. */
  lemma {:induction false} HistoryExactly(env: Env, items: seq<Item>, n: nat) returns (k: nat)
    requires n <= |items|
    ensures k <= n && (forall i | 0 <= i < k :: Lives(env, items, i))
    ensures var c := HandleAll(env, Start(env), items[..n]);
            if k == n then Tracks(env, items, n, c)
            else !Lives(env, items, k) && c.status == Failed && c.flags == FlagsAt(env, items, k)
                 && c.wire.out == DeadOut(env, items, k)
  {
    hide Handle, Lives, DeadOut, Decision;
    if n == 0 {
      k := 0;
      assert items[..0] == [];
      assert Attempts(env, items, 0) == [];
    } else {
      k := HistoryExactly(env, items, n - 1);
      var c := HandleAll(env, Start(env), items[..n - 1]);
      assert items[..n] == items[..n - 1] + [items[n - 1]];
      HandleAllAppends(env, Start(env), items[..n - 1], [items[n - 1]]);
      if k == n - 1 {
        HandleTracked(env, items, k, c);
        HandleOne(env, c, items[k]);
        if Lives(env, items, k) { k := n; }
      } else {
        HandleAllStopped(env, c, [items[n - 1]]);
      }
    }
  }

  lemma {:induction false} LastDecision(env: Env, items: seq<Item>, n: nat, j: int)
    requires -1 <= j < n <= |items|
    requires forall i | j < i < n :: Decision(env, items, i) == None
    requires j >= 0 ==> Decision(env, items, j).Some?
    ensures FlagsAt(env, items, n) == if j < 0 then NO_FLAGS else Decision(env, items, j).value
    decreases n
  {
    if n > j + 1 { LastDecision(env, items, n - 1, j); }
  }

  lemma LastDecisionHolds(env: Env, items: seq<Item>, n: nat)
    requires n <= |items|
    ensures !(FlagsAt(env, items, n).raw && FlagsAt(env, items, n).regular)
    ensures (forall i | 0 <= i < n :: Decision(env, items, i) == None) ==> FlagsAt(env, items, n) == NO_FLAGS
    ensures forall j | 0 <= j < n && Decision(env, items, j).Some? &&
                       (forall i | j < i < n :: Decision(env, items, i) == None) ::
              FlagsAt(env, items, n) == Decision(env, items, j).value
  {
    FlagsExclusive(env, items, n);
    if forall i | 0 <= i < n :: Decision(env, items, i) == None { LastDecision(env, items, n, -1); }
    forall j | 0 <= j < n && Decision(env, items, j).Some? && (forall i | j < i < n :: Decision(env, items, i) == None)
      ensures FlagsAt(env, items, n) == Decision(env, items, j).value
    {
      LastDecision(env, items, n, j);
    }
  }

  /** In every reachable state: never both forms on; the flags are those of the last successful
      subscribe or unsubscribe (so a malformed subscribe leaves them), none before the first. */
  lemma SubscriptionHistory(env: Env, items: seq<Item>, n: nat, c: Core)
    requires n <= |items| && c == HandleAll(env, Start(env), items[..n]) && c.status == Running
    ensures !(c.flags.raw && c.flags.regular)
    ensures (forall i | 0 <= i < n :: Decision(env, items, i) == None) ==> c.flags == NO_FLAGS
    ensures forall j | 0 <= j < n && Decision(env, items, j).Some? &&
                       (forall i | j < i < n :: Decision(env, items, i) == None) ::
              c.flags == Decision(env, items, j).value
  {
    var k := HistoryExactly(env, items, n);
    LastDecisionHolds(env, items, n);
  }

  lemma AdvertStep(env: Env, c: Core, a: Advert)
    requires c.status == Running && !(c.flags.raw && c.flags.regular)
    ensures var f, next := c.flags, Handle(env, c, Adv(a));
            var frame := if f == Flags(false, true) then FrameBytes(93, a.raw) else FrameBytes(67, a.legacy);
            var w := WriteAll(c.wire, frame);
            if f == Flags(false, false) then next == c.(tick := c.tick + 1)
            else if !env.peerOk(c.tick) then next == Core(f, c.wire, c.tick + 1, Failed)
            else next == Core(f, w.wire, c.tick + 1, if w.ok then Running else Failed) &&
                 if w.ok then w.wire.out == c.wire.out + frame else c.wire.out <= w.wire.out < c.wire.out + frame
  {
    hide FrameBytes;
  }

  /** What an advertisement does to a running session: nothing before the first successful subscribe or
      after an unsubscribe; after the last decision f it is one raw or one legacy frame to write, and the
      session ends if the peer address cannot be read or the write fails. */
  lemma AdvertForwarding(env: Env, items: seq<Item>, i: nat, c: Core)
    requires i < |items| && items[i].Adv?
    requires c == HandleAll(env, Start(env), items[..i]) && c.status == Running
    ensures (forall k | 0 <= k < i :: Decision(env, items, k) == None) ==>
              Handle(env, c, items[i]) == c.(tick := c.tick + 1)
    ensures forall j | 0 <= j < i && Decision(env, items, j).Some? &&
                       (forall k | j < k < i :: Decision(env, items, k) == None) ::
              var f, a, next := Decision(env, items, j).value, items[i].advert, Handle(env, c, items[i]);
              var frame := if f == Flags(false, true) then FrameBytes(93, a.raw) else FrameBytes(67, a.legacy);
              var w := WriteAll(c.wire, frame);
              if f == Flags(false, false) then next == c.(tick := c.tick + 1)
              else if !env.peerOk(i) then next == Core(f, c.wire, i + 1, Failed)
              else next == Core(f, w.wire, i + 1, if w.ok then Running else Failed) &&
                   if w.ok then w.wire.out == c.wire.out + frame else c.wire.out <= w.wire.out < c.wire.out + frame
  {
    var k := HistoryExactly(env, items, i);
    hide HandleAll, Handle, WriteAll, Attempts, Concat, FrameBytes, Lives, Decision, FlagsAt;
    LastDecisionHolds(env, items, i);
    AdvertStep(env, c, items[i].advert);
  }

  // ---- From events to items ----

  /** The items a trace delivers, whatever the reads were cut into. */
  function ItemsOf(buf: seq<u8>, es: seq<Event>): seq<Item>
    decreases |es|
  {
    if es == [] then []
    else match es[0]
      case Read(data) =>
        if data == [] then []
        else var d := Drain(buf + data); AsItems(d.msgs) + ItemsOf(d.rest, es[1..])
      case Recv(a) => [Adv(a)] + ItemsOf(buf, es[1..])
      case Lagged(_) => ItemsOf(buf, es[1..])
      case _ => []
  }

  predicate Ending(e: Event) {
    e.ReadErr? || e.Closed? || e == Read([])
  }

  function Finish(c: Core, es: seq<Event>): Core {
    if c.status == Running && exists i :: 0 <= i < |es| && Ending(es[i]) then c.(status := Finished) else c
  }

  lemma {:induction false} ServeNeverFinishes(env: Env, g: Guard, buf: seq<u8>, c: Core)
    requires c.status == Running
    ensures Serve(env, g, buf, c).core.status != Finished
    decreases |buf|
  {
    hide Handle;
    if NextBy(g, buf).Frame? {
      NextShrinks(g, buf);
      var m := NextBy(g, buf).msg;
      HandleNeverPanics(env, c, Msg(m));
      if Handle(env, c, Msg(m)).status == Running {
        ServeNeverFinishes(env, g, NextBy(g, buf).rest, Handle(env, c, Msg(m)));
      }
    }
  }

  lemma OneStep(env: Env, g: Guard, s: SessionState, e: Event)
    requires s.core.status == Running
    ensures var t := Step(env, g, s, e);
            if e in {Read([]), ReadErr, Closed} then t == SessionState([], s.core.(status := Finished))
            else t.core.status != Finished
  {
    hide Serve, Handle;
    if e.Read? { ServeNeverFinishes(env, g, s.buf + e.data, s.core); }
    if e.Recv? { HandleNeverPanics(env, s.core, Adv(e.advert)); }
  }

  /** What one event delivers when `residue` is in the buffer: a read the messages its bytes complete,
      an advertisement itself, anything else nothing. */
  function Share(residue: seq<u8>, e: Event): seq<Item> {
    match e
    case Read(data) => AsItems(Drain(residue + data).msgs)
    case Recv(a) => [Adv(a)]
    case _ => []
  }

  lemma NothingDrained(buf: seq<u8>)
    requires NextChecked(buf) == NoFrame
    ensures Drain(buf) == Drained([], buf) && buf + [] == buf
  {
  }

  lemma ItemsFirst(buf: seq<u8>, es: seq<Event>)
    requires es != [] && !Ending(es[0]) && NextChecked(buf) == NoFrame
    ensures ItemsOf(buf, es) == Share(buf, es[0]) + ItemsOf(Drain(buf + BytesOf([es[0]])).rest, es[1..])
  {
    hide NextChecked, Drain, AsItems, BytesOf;
    BytesOfFirst(es);
    NothingDrained(buf);
    match es[0] {
      case Read(data) =>
      case Recv(a) =>
      case Lagged(n) => assert [] + ItemsOf(buf, es[1..]) == ItemsOf(buf, es[1..]);
    }
  }

  lemma ResidueFirst(buf: seq<u8>, es: seq<Event>)
    requires es != []
    ensures Drain(Drain(buf + BytesOf([es[0]])).rest + BytesOf(es[1..])).rest == Drain(buf + BytesOf(es)).rest
  {
    hide Drain, BytesOf;
    BytesOfFirst(es);
    DrainConfluent(buf + BytesOf([es[0]]), BytesOf(es[1..]));
    Assoc(buf, BytesOf([es[0]]), BytesOf(es[1..]));
  }

  lemma ItemsOfEnd(buf: seq<u8>, e: Event)
    requires NextChecked(buf) == NoFrame
    ensures ItemsOf(buf, [e]) == Share(buf, e)
  {
    hide NextChecked;
    NothingDrained(buf);
    assert [e][1..] == [];
    assert Share(buf, e) + [] == Share(buf, e);
  }

  lemma NoItems(buf: seq<u8>)
    ensures ItemsOf(buf, []) == []
  {
  }

  /** Every event adds its share to the items, the residue being that of all bytes read before it. */
  lemma {:induction false} ItemsGrow(buf: seq<u8>, es: seq<Event>, e: Event)
    requires NextChecked(buf) == NoFrame && forall i | 0 <= i < |es| :: es[i] !in {Read([]), ReadErr, Closed}
    ensures ItemsOf(buf, es + [e]) == ItemsOf(buf, es) + Share(Drain(buf + BytesOf(es)).rest, e)
    decreases |es|
  {
    hide Drain, NextChecked, ItemsOf, Share;
    NothingDrained(buf);
    if es == [] {
      ItemsOfEnd(buf, e);
      NoItems(buf);
      assert es + [e] == [e];
    } else {
      var rest := es[1..];
      assert (es + [e])[1..] == rest + [e];
      assert forall i | 0 <= i < |rest| :: rest[i] == es[i + 1];
      var next := Drain(buf + BytesOf([es[0]])).rest;
      ItemsGrow(next, rest, e);
      assert !Ending(es[0]);
      ResidueFirst(buf, es);
      ItemsFirst(buf, es);
      ItemsFirst(buf, es + [e]);
    }
  }

  /** A session that ran to the end of a trace met no end of stream, read error or closed channel; one
      that finished did so at the first of these, as it was. */
  lemma {:induction false} FinishedBy(env: Env, g: Guard, s: SessionState, es: seq<Event>) returns (k: nat)
    requires s.core.status == Running
    ensures var t := Run(env, g, s, es);
            && (t.core.status == Running ==> forall i | 0 <= i < |es| :: es[i] !in {Read([]), ReadErr, Closed})
            && (t.core.status == Finished ==>
                  && k < |es| && es[k] in {Read([]), ReadErr, Closed}
                  && Run(env, g, s, es[..k]).core.status == Running
                  && t == SessionState([], Run(env, g, s, es[..k]).core.(status := Finished)))
    decreases |es|
  {
    hide Serve, Handle;
    k := 0;
    if es != [] {
      var next := Step(env, g, s, es[0]);
      OneStep(env, g, s, es[0]);
      if next.core.status == Running {
        k := FinishedBy(env, g, next, es[1..]);
        assert forall i | 1 <= i < |es| :: es[i] == es[1..][i - 1];
        if k < |es[1..]| { assert es[..k + 1][0] == es[0] && es[..k + 1][1..] == es[1..][..k]; }
        k := k + 1;
      } else {
        RunEnded(env, g, next, es[1..]);
      }
    }
  }

  lemma FinishLater(c: Core, es: seq<Event>)
    requires es != [] && !Ending(es[0])
    ensures Finish(c, es) == Finish(c, es[1..])
  {
    if i :| 0 <= i < |es| && Ending(es[i]) { assert Ending(es[1..][i - 1]); }
    if i :| 0 <= i < |es[1..]| && Ending(es[1..][i]) { assert Ending(es[i + 1]); }
  }

  lemma StoppedEarly(env: Env, s: SessionState, es: seq<Event>, now: seq<Item>, c: Core)
    requires es != [] && c == HandleAll(env, s.core, now) && c.status != Running
    requires now <= ItemsOf(s.buf, es)
    ensures HandleAll(env, s.core, ItemsOf(s.buf, es)) == c
  {
    var items := ItemsOf(s.buf, es);
    assert items == now + items[|now|..];
    HandleAllAppends(env, s.core, now, items[|now|..]);
    HandleAllStopped(env, c, items[|now|..]);
  }

  lemma {:induction false} RunIsItems(env: Env, s: SessionState, es: seq<Event>)
    requires s.core.status == Running
    ensures Run(env, CountsType, s, es).core == Finish(HandleAll(env, s.core, ItemsOf(s.buf, es)), es)
    decreases |es|
  {
    hide Handle, Drain, Serve;
    if es != [] {
      var e, rest := es[0], es[1..];
      var next := Step(env, CountsType, s, e);
      assert forall i | 1 <= i < |es| :: es[i] == rest[i - 1];
      if Ending(e) {
        RunEnded(env, CountsType, next, rest);
      } else {
        var now := if e.Read? then AsItems(Drain(s.buf + e.data).msgs) else if e.Recv? then [Adv(e.advert)] else [];
        if e.Read? { ServeIsDrain(env, s.buf + e.data, s.core); }
        if e.Recv? { HandleOne(env, s.core, Adv(e.advert)); }
        assert next.core == HandleAll(env, s.core, now);
        if next.core.status == Running {
          RunIsItems(env, next, rest);
          var later := ItemsOf(next.buf, rest);
          assert ItemsOf(s.buf, es) == now + later;
          HandleAllAppends(env, s.core, now, later);
          FinishLater(HandleAll(env, s.core, now + later), es);
        } else {
          RunEnded(env, CountsType, next, rest);
          StoppedEarly(env, s, es, now, next.core);
        }
      }
    }
  }

  // ---- The output of the program as written ----

  lemma {:induction false} ItemsPrefix(buf: seq<u8>, es: seq<Event>, j: nat)
    requires j <= |es|
    ensures ItemsOf(buf, es[..j]) <= ItemsOf(buf, es)
    decreases |es|
  {
    hide Drain;
    if j > 0 {
      var e, rest := es[0], es[1..];
      assert es[..j][0] == e && es[..j][1..] == rest[..j - 1];
      var next := if e.Read? then Drain(buf + e.data).rest else buf;
      ItemsPrefix(next, rest, j - 1);
    }
  }

  lemma {:induction false} HistoryOfPrefix(env: Env, items: seq<Item>, all: seq<Item>, n: nat)
    requires n <= |items| && items <= all
    ensures FlagsAt(env, items, n) == FlagsAt(env, all, n) && Attempts(env, items, n) == Attempts(env, all, n)
  {
    if n > 0 {
      HistoryOfPrefix(env, items, all, n - 1);
      assert items[n - 1] == all[n - 1];
    }
  }

  lemma {:induction false} AttemptsGrow(env: Env, items: seq<Item>, m: nat, n: nat)
    requires m <= n <= |items|
    ensures Attempts(env, items, m) <= Attempts(env, items, n)
  {
    if m < n { AttemptsGrow(env, items, m, n - 1); }
  }

  lemma {:induction false} AttemptsFit(env: Env, items: seq<Item>, n: nat)
    requires n <= |items|
    ensures AllFit(Attempts(env, items, n))
  {
    if n > 0 { AttemptsFit(env, items, n - 1); }
  }

  predicate NoneAfterDisconnect(sent: seq<Message>) {
    forall i | 0 <= i < |sent| - 1 :: sent[i].msgType != DISCONNECT_RESPONSE
  }

  lemma {:induction false} AttemptsBeforeShut(env: Env, items: seq<Item>, n: nat)
    requires n <= |items| && !ShutBy(env, items, n)
    ensures forall i | 0 <= i < |Attempts(env, items, n)| :: Attempts(env, items, n)[i].msgType != DISCONNECT_RESPONSE
  {
    if n > 0 {
      ShutStep(env, items, n - 1);
      AttemptsBeforeShut(env, items, n - 1);
    }
  }

  lemma {:induction false} DisconnectIsLast(env: Env, items: seq<Item>, n: nat)
    requires n <= |items| && forall i | 0 <= i < n :: Lives(env, items, i)
    ensures NoneAfterDisconnect(Attempts(env, items, n))
  {
    if n > 0 {
      DisconnectIsLast(env, items, n - 1);
      assert Lives(env, items, n - 1);
      if AttemptAt(env, items, n - 1).Some? { AttemptsBeforeShut(env, items, n - 1); }
    }
  }

  function Framed(m: Message): seq<u8> {
    FrameBytes(m.msgType, m.payload)
  }

  /** Splits the output of a session that stopped at item k (or not at all) into whole frames and a
      cut one. */
  lemma SplitOutput(env: Env, items: seq<Item>, k: nat) returns (sent: seq<Message>, partial: seq<u8>)
    requires k < |items| && (forall i | 0 <= i < k :: Lives(env, items, i)) && !Lives(env, items, k)
    ensures DeadOut(env, items, k) == Concat(sent) + partial
    ensures sent <= Attempts(env, items, k + 1) && NoneAfterDisconnect(sent)
    ensures partial != [] ==>
              var all := Attempts(env, items, k + 1);
              && |sent| < |all| && partial < Framed(all[|sent|])
              && NoneAfterDisconnect(sent + [all[|sent|]])
  {
    hide FrameBytes, Concat, AttemptAt, Lives;
    var before := Attempts(env, items, k);
    DisconnectIsLast(env, items, k);
    OutGrows(env, items, k);
    AttemptsGrow(env, items, k, k + 1);
    sent, partial := before, [];
    assert Concat(before) + [] == Concat(before);
    if AttemptAt(env, items, k).Some? && !ShutBy(env, items, k) {
      var m := AttemptAt(env, items, k).value;
      var f := FrameBytes(m.msgType, m.payload);
      AttemptsBeforeShut(env, items, k);
      if |Concat(before)| + |f| <= env.room {
        sent := before + [m];
        assert Concat(sent) + [] == Concat(sent);
      } else if |Concat(before)| <= env.room {
        partial := f[..env.room - |Concat(before)|];
      }
    }
  }

  /** The first read of a trace that leaves the residue of the bytes so far in the short window. */
  predicate FirstShortRead(env: Env, es: seq<Event>, j: nat) {
    && 0 < j <= |es| && es[j - 1].Read?
    && ShortWindow(Drain(BytesOf(es[..j])).rest)
    && !Hits(env, Accepted(env), es[..j - 1])
  }

  /** The output of the refined session. */
  lemma RefinedOutput(env: Env, es: seq<Event>) returns (sent: seq<Message>, partial: seq<u8>)
    ensures var c := Run(env, CountsType, Accepted(env), es).core;
            var all := Attempts(env, ItemsOf([], es), |ItemsOf([], es)|);
            && c.wire.out == Concat(sent) + partial
            && sent <= all && NoneAfterDisconnect(sent)
            && (c.status == Running || c.status == Finished ==> sent == all && partial == [])
            && (partial != [] ==>
                  |sent| < |all| && partial < Framed(all[|sent|]) && c.status == Failed &&
                  NoneAfterDisconnect(sent + [all[|sent|]]))
  {
    hide Handle, Serve, Drain, Lives, DeadOut, Concat, Framed, AttemptAt, ItemsOf, HandleAll;
    var part := ItemsOf([], es);
    RunIsItems(env, Accepted(env), es);
    assert part[..|part|] == part;
    var k := HistoryExactly(env, part, |part|);
    if k == |part| {
      DisconnectIsLast(env, part, k);
      sent, partial := Attempts(env, part, k), [];
      assert Concat(sent) + [] == Concat(sent);
    } else {
      sent, partial := SplitOutput(env, part, k);
      AttemptsGrow(env, part, k + 1, |part|);
    }
  }

  lemma FirstHitIsShort(env: Env, es: seq<Event>, j: nat)
    requires 0 < j <= |es| && es[j - 1].Read? && !Hits(env, Accepted(env), es[..j - 1])
    requires var t := Run(env, CountsType, Accepted(env), es[..j]); t.core.status == Running && ShortWindow(t.buf)
    ensures FirstShortRead(env, es, j)
  {
    AcceptedQuiet(env);
    BufferIsResidue(env, Accepted(env), es[..j]);
    assert Accepted(env).buf + BytesOf(es[..j]) == BytesOf(es[..j]);
  }

  lemma EmptyDrains()
    ensures Drain([]) == Drained([], [])
  {
  }

  lemma PeerDrains(sent: seq<Message>, partial: seq<u8>, next: Message)
    requires AllFit(sent + [next]) && (partial != [] ==> partial < Framed(next))
    ensures Drain(Concat(sent) + partial) == Drained(sent, partial)
  {
    hide Concat, Drain;
    EmptyDrains();
    assert AllFit(sent) by { assert forall i | 0 <= i < |sent| :: (sent + [next])[i] == sent[i]; }
    ConcatDrains(sent, partial);
    if partial != [] {
      assert (sent + [next])[|sent|] == next;
      assert partial == Framed(next)[..|partial|];
      FramePrefixWaits(next.msgType, next.payload, |partial|);
    }
    assert sent + [] == sent;
  }

  /** Everything the program as written puts on the wire, for every trace: whole frames, a prefix of
      those the history asks for and in that order, then at most a cut one if a write failed; nothing
      follows a DisconnectResponse; and a peer draining the bytes recovers exactly the frames.  A
      session that aborted has sent exactly what the events up to the first short read ask for. */
  lemma ProgramOutput(env: Env, es: seq<Event>) returns (sent: seq<Message>, partial: seq<u8>, j: nat)
    ensures var s := Run(env, AsWritten, Accepted(env), es);
            var all := Attempts(env, ItemsOf([], es), |ItemsOf([], es)|);
            && s.core.wire.out == Concat(sent) + partial
            && Drain(s.core.wire.out) == Drained(sent, partial)
            && sent <= all && NoneAfterDisconnect(sent)
            && (s.core.status == Running || s.core.status == Finished ==> sent == all && partial == [])
            && (partial != [] ==>
                  |sent| < |all| && partial < Framed(all[|sent|]) && s.core.status == Failed &&
                  NoneAfterDisconnect(sent + [all[|sent|]]))
            && (s.core.status == Panicked ==>
                  FirstShortRead(env, es, j) && partial == [] &&
                  sent == Attempts(env, ItemsOf([], es[..j]), |ItemsOf([], es[..j])|))
  {
    hide Handle, Serve, Run, Hits, Drain, Concat, Framed, Attempts, ItemsOf, FirstShortRead;
    j := AsWrittenExactly(env, Accepted(env), es);
    assert es[..|es|] == es;
    NeverPanics(env, Accepted(env), es);
    if Hits(env, Accepted(env), es) { FirstHitIsShort(env, es, j); }
    ItemsPrefix([], es, j);
    var items, part := ItemsOf([], es), ItemsOf([], es[..j]);
    AttemptsGrow(env, items, |part|, |items|);
    HistoryOfPrefix(env, part, items, |part|);
    sent, partial := RefinedOutput(env, es[..j]);
    AttemptsFit(env, items, |items|);
    PeerDrains(sent, partial, if partial == [] then Message(0, []) else Attempts(env, items, |items|)[|sent|]);
  }

  /** The flags of the program as written, for every trace: those of the last decision among the items
      it has handled, never both forms at once.  It has handled all items of the trace, unless it failed
      at the first one it did not survive or aborted at the first short read. */
  lemma ProgramFlags(env: Env, es: seq<Event>) returns (j: nat, k: nat)
    ensures j <= |es| && k <= |ItemsOf([], es[..j])| && ItemsOf([], es[..j]) <= ItemsOf([], es)
    ensures var c, items := Run(env, AsWritten, Accepted(env), es).core, ItemsOf([], es[..j]);
            && (forall i | 0 <= i < k :: Lives(env, items, i))
            && (c.status == Failed <==> k < |items|)
            && (c.status == Failed ==> !Lives(env, items, k))
            && (c.status == Panicked ==> FirstShortRead(env, es, j))
            && (c.status == Running || c.status == Finished ==> j == |es|)
            && c.flags == FlagsAt(env, items, k)
            && !(c.flags.raw && c.flags.regular)
            && ((forall i | 0 <= i < k :: Decision(env, items, i) == None) ==> c.flags == NO_FLAGS)
            && forall d | 0 <= d < k && Decision(env, items, d).Some? &&
                          (forall i | d < i < k :: Decision(env, items, i) == None) ::
                 c.flags == Decision(env, items, d).value
  {
    hide Handle, Serve, Drain, Run, Hits, Lives, DeadOut, Concat, AttemptAt, ItemsOf, HandleAll, FirstShortRead;
    j := AsWrittenExactly(env, Accepted(env), es);
    assert es[..|es|] == es;
    NeverPanics(env, Accepted(env), es);
    if Hits(env, Accepted(env), es) { FirstHitIsShort(env, es, j); }
    var items := ItemsOf([], es[..j]);
    ItemsPrefix([], es, j);
    RunIsItems(env, Accepted(env), es[..j]);
    assert items[..|items|] == items;
    k := HistoryExactly(env, items, |items|);
    LastDecisionHolds(env, items, k);
  }
}
