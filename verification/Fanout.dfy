/** Many clients on one broadcast channel: `run_tcp_server` in src/server.rs spawns a session per
    connection, each with its own receiver resubscribed at the tail of the channel.

    The channel is the environment's: an append-only log, a cursor per receiver, and a capacity.
    A receiver that is more than `cap` behind is told how many it missed and moved to the oldest
    advertisement still held. */
module Fanout {
  import opened Words
  import opened Framing
  import opened Session
  import opened History

  /** `start` is the log position at accept; `got` the positions received; `trace` all events so far. */
  datatype Subscriber = Subscriber(
    start: nat, cursor: nat, got: seq<nat>, lost: nat, trace: seq<Event>, session: SessionState)

  datatype System = System(log: seq<Advert>, open: bool, clients: seq<Subscriber>)

  datatype Action =
    | Publish(advert: Advert)
    | DropSenders
    | Accept
    | Socket(client: nat, event: Event)
    | Receive(client: nat)

  datatype Config = Config(cap: nat, env: nat -> Env)

  const IDLE := System([], true, [])

  function Deliver(env: Env, c: Subscriber, e: Event): Subscriber {
    c.(trace := c.trace + [e], session := Step(env, AsWritten, c.session, e))
  }

  /** `rx.recv()` resolving, or nothing if it is still pending. */
  function ReceiveOne(cap: nat, env: Env, log: seq<Advert>, open: bool, c: Subscriber): Subscriber
    requires c.cursor <= |log|
  {
    var unread := |log| - c.cursor;
    if unread > cap then
      Deliver(env, c, Lagged(unread - cap)).(cursor := |log| - cap, lost := c.lost + (unread - cap))
    else if unread > 0 then
      Deliver(env, c, Recv(log[c.cursor])).(cursor := c.cursor + 1, got := c.got + [c.cursor])
    else if !open then Deliver(env, c, Closed)
    else c
  }

  predicate Bounded(sys: System) {
    forall i | 0 <= i < |sys.clients| :: sys.clients[i].cursor <= |sys.log|
  }

  function Transition(cfg: Config, sys: System, a: Action): System
    requires Bounded(sys)
  {
    match a
    case Publish(advert) => if sys.open then sys.(log := sys.log + [advert]) else sys
    case DropSenders => sys.(open := false)
    case Accept =>
      var env := cfg.env(|sys.clients|);
      sys.(clients := sys.clients + [Subscriber(|sys.log|, |sys.log|, [], 0, [], Accepted(env))])
    case Socket(i, e) =>
      if i < |sys.clients| && sys.clients[i].session.core.status == Running && (e.Read? || e.ReadErr?)
      then sys.(clients := sys.clients[i := Deliver(cfg.env(i), sys.clients[i], e)])
      else sys
    case Receive(i) =>
      if i < |sys.clients| && sys.clients[i].session.core.status == Running
      then sys.(clients := sys.clients[i := ReceiveOne(cfg.cap, cfg.env(i), sys.log, sys.open, sys.clients[i])])
      else sys
  }

  function Reach(cfg: Config, sys: System, acts: seq<Action>): (r: System)
    requires Bounded(sys)
    ensures Bounded(r)
    decreases |acts|
  {
    if acts == [] then sys else Reach(cfg, Transition(cfg, sys, acts[0]), acts[1..])
  }

  // ---- What every interleaving keeps ----

  /** The advertisements a trace carries, and how many it was told it missed. */
  function AdvertsIn(es: seq<Event>): seq<Advert> {
    if es == [] then []
    else AdvertsIn(es[..|es| - 1]) + match es[|es| - 1] case Recv(a) => [a] case _ => []
  }

  function MissedIn(es: seq<Event>): nat {
    if es == [] then 0
    else MissedIn(es[..|es| - 1]) + match es[|es| - 1] case Lagged(n) => n case _ => 0
  }

  function Pick(log: seq<Advert>, at: seq<nat>): seq<Advert>
    requires forall k | 0 <= k < |at| :: at[k] < |log|
  {
    seq(|at|, k requires 0 <= k < |at| => log[at[k]])
  }

  predicate Ordered(at: seq<nat>, lo: nat, hi: nat) {
    && (forall k | 0 <= k < |at| :: lo <= at[k] < hi)
    && (forall j, k | 0 <= j < k < |at| :: at[j] < at[k])
  }

  predicate Served(cap: nat, env: Env, log: seq<Advert>, c: Subscriber) {
    && c.start <= c.cursor <= |log|
    && Ordered(c.got, c.start, c.cursor)
    && |c.got| + c.lost == c.cursor - c.start
    && AdvertsIn(c.trace) == Pick(log, c.got)
    && MissedIn(c.trace) == c.lost
    && (forall p | c.start <= p < c.cursor && p !in c.got :: p + cap < |log|)
    && c.session == Run(env, AsWritten, Accepted(env), c.trace)
  }

  predicate Inv(cfg: Config, sys: System) {
    Bounded(sys) && forall i | 0 <= i < |sys.clients| :: Served(cfg.cap, cfg.env(i), sys.log, sys.clients[i])
  }

  lemma DeliverRuns(env: Env, c: Subscriber, e: Event)
    requires c.session == Run(env, AsWritten, Accepted(env), c.trace)
    ensures var d := Deliver(env, c, e);
            && d.session == Run(env, AsWritten, Accepted(env), d.trace)
            && AdvertsIn(d.trace) == AdvertsIn(c.trace) + (match e case Recv(a) => [a] case _ => [])
            && MissedIn(d.trace) == MissedIn(c.trace) + (match e case Lagged(n) => n case _ => 0)
  {
    hide Step;
    RunAppends(env, AsWritten, Accepted(env), c.trace, [e]);
    var t := Step(env, AsWritten, c.session, e);
    assert Run(env, AsWritten, c.session, [e]) == Run(env, AsWritten, t, []) == t;
    assert (c.trace + [e])[..|c.trace|] == c.trace;
  }

  lemma DeliverKeeps(env: Env, c: Subscriber, e: Event)
    ensures var d := Deliver(env, c, e);
            d == Subscriber(c.start, c.cursor, c.got, c.lost, d.trace, d.session)
  {
  }

  lemma OneServed(cap: nat, env: Env, log: seq<Advert>, c: Subscriber)
    requires Served(cap, env, log, c) && c.cursor < |log|
    ensures var d := Deliver(env, c, Recv(log[c.cursor]));
            Served(cap, env, log, d.(cursor := c.cursor + 1, got := c.got + [c.cursor]))
  {
    hide Run, Step, AdvertsIn, MissedIn, Deliver;
    DeliverRuns(env, c, Recv(log[c.cursor]));
    DeliverKeeps(env, c, Recv(log[c.cursor]));
    var got := c.got + [c.cursor];
    assert Pick(log, got) == Pick(log, c.got) + [log[c.cursor]];
    assert forall p | p in c.got :: p in got;
    assert c.cursor == got[|c.got|] && c.cursor in got;
  }

  lemma ReceiveServed(cap: nat, env: Env, log: seq<Advert>, open: bool, c: Subscriber)
    requires Served(cap, env, log, c)
    ensures Served(cap, env, log, ReceiveOne(cap, env, log, open, c))
  {
    hide Run, Step, AdvertsIn, MissedIn;
    if |log| - c.cursor > cap {
      DeliverRuns(env, c, Lagged(|log| - c.cursor - cap));
    } else if |log| > c.cursor {
      OneServed(cap, env, log, c);
    } else if !open {
      DeliverRuns(env, c, Closed);
    }
  }

  lemma PublishServed(cap: nat, env: Env, log: seq<Advert>, c: Subscriber, a: Advert)
    requires Served(cap, env, log, c)
    ensures Served(cap, env, log + [a], c)
  {
    hide Run, AdvertsIn, MissedIn;
    assert Pick(log + [a], c.got) == Pick(log, c.got);
  }

  lemma ServedBounded(cap: nat, env: Env, log: seq<Advert>, c: Subscriber)
    requires Served(cap, env, log, c)
    ensures c.cursor <= |log|
  {
  }

  lemma AcceptServed(cap: nat, env: Env, log: seq<Advert>)
    ensures Served(cap, env, log, Subscriber(|log|, |log|, [], 0, [], Accepted(env)))
  {
  }

  lemma SocketServed(cap: nat, env: Env, log: seq<Advert>, c: Subscriber, e: Event)
    requires Served(cap, env, log, c) && (e.Read? || e.ReadErr?)
    ensures Served(cap, env, log, Deliver(env, c, e))
  {
    hide Run, Step, AdvertsIn, MissedIn;
    DeliverRuns(env, c, e);
  }

  lemma TransitionInv(cfg: Config, sys: System, a: Action)
    requires Inv(cfg, sys)
    ensures Inv(cfg, Transition(cfg, sys, a))
  {
    hide Run, Step, AdvertsIn, MissedIn, Served, ReceiveOne;
    match a
    case Publish(advert) =>
      forall i | 0 <= i < |sys.clients| ensures Served(cfg.cap, cfg.env(i), sys.log + [advert], sys.clients[i]) {
        PublishServed(cfg.cap, cfg.env(i), sys.log, sys.clients[i], advert);
      }
      assert Bounded(Transition(cfg, sys, a));
    case DropSenders =>
    case Accept => AcceptServed(cfg.cap, cfg.env(|sys.clients|), sys.log);
    case Socket(i, e) =>
      if i < |sys.clients| && (e.Read? || e.ReadErr?) {
        SocketServed(cfg.cap, cfg.env(i), sys.log, sys.clients[i], e);
      }
    case Receive(i) =>
      if i < |sys.clients| {
        ReceiveServed(cfg.cap, cfg.env(i), sys.log, sys.open, sys.clients[i]);
        ServedBounded(cfg.cap, cfg.env(i), sys.log, ReceiveOne(cfg.cap, cfg.env(i), sys.log, sys.open, sys.clients[i]));
      }
  }

  lemma {:induction false} ReachInv(cfg: Config, sys: System, acts: seq<Action>)
    requires Inv(cfg, sys)
    ensures Inv(cfg, Reach(cfg, sys, acts))
    decreases |acts|
  {
    if acts != [] {
      TransitionInv(cfg, sys, acts[0]);
      ReachInv(cfg, Transition(cfg, sys, acts[0]), acts[1..]);
    }
  }

  // ---- Fan-out ----

  /** For every interleaving: each client has received an in-order, duplicate-free selection of what was
      sent since its accept; received, missed and unread add up to what was sent; only advertisements
      with more than `cap` newer ones were missed; and its session is the run of its own events. */
  lemma Conservation(cfg: Config, acts: seq<Action>, i: nat)
    requires i < |Reach(cfg, IDLE, acts).clients|
    ensures var sys := Reach(cfg, IDLE, acts);
            var c := sys.clients[i];
            && c.start <= c.cursor <= |sys.log|
            && Ordered(c.got, c.start, c.cursor) && AdvertsIn(c.trace) == Pick(sys.log, c.got)
            && |AdvertsIn(c.trace)| + MissedIn(c.trace) + (|sys.log| - c.cursor) == |sys.log| - c.start
            && (forall p | c.start <= p < c.cursor && p !in c.got :: p + cfg.cap < |sys.log|)
            && c.session == Run(cfg.env(i), AsWritten, Accepted(cfg.env(i)), c.trace)
  {
    ReachInv(cfg, IDLE, acts);
  }

  /** End to end: what client i finds on its socket drains to whole frames, a prefix in order of what
      its own requests and the advertisements it received ask for, none after a DisconnectResponse. */
  lemma ClientSees(cfg: Config, acts: seq<Action>, i: nat) returns (sent: seq<Message>, partial: seq<u8>)
    requires i < |Reach(cfg, IDLE, acts).clients|
    ensures var c := Reach(cfg, IDLE, acts).clients[i];
            var items := ItemsOf([], c.trace);
            && Drain(c.session.core.wire.out) == Drained(sent, partial)
            && sent <= Attempts(cfg.env(i), items, |items|) && NoneAfterDisconnect(sent)
            && (c.session.core.status == Running ==> sent == Attempts(cfg.env(i), items, |items|) && partial == [])
  {
    hide Run, Reach, Attempts, ItemsOf, Drain;
    Conservation(cfg, acts, i);
    var j;
    sent, partial, j := ProgramOutput(cfg.env(i), Reach(cfg, IDLE, acts).clients[i].trace);
  }

  lemma {:induction false} OrderedSpread(at: seq<nat>, lo: nat, hi: nat, k: nat)
    requires Ordered(at, lo, hi) && k < |at|
    ensures at[k] >= lo + k
  {
    if k > 0 { OrderedSpread(at, lo, hi, k - 1); }
  }

  lemma {:induction false} Dense(at: seq<nat>, lo: nat, hi: nat, k: nat)
    requires Ordered(at, lo, hi) && |at| == hi - lo && k < |at|
    ensures at[k] == lo + k
    decreases |at| - k
  {
    OrderedSpread(at, lo, hi, k);
    if k + 1 < |at| { Dense(at, lo, hi, k + 1); }
  }

  /** A client that was never told it lagged has received everything up to its cursor. */
  lemma NoLagNoLoss(cfg: Config, acts: seq<Action>, i: nat)
    requires i < |Reach(cfg, IDLE, acts).clients|
    ensures var sys := Reach(cfg, IDLE, acts);
            var c := sys.clients[i];
            c.start <= c.cursor <= |sys.log| &&
            (MissedIn(c.trace) == 0 <==> AdvertsIn(c.trace) == sys.log[c.start..c.cursor])
  {
    ReachInv(cfg, IDLE, acts);
    var c := Reach(cfg, IDLE, acts).clients[i];
    if MissedIn(c.trace) == 0 {
      forall k | 0 <= k < |c.got| ensures c.got[k] == c.start + k { Dense(c.got, c.start, c.cursor, k); }
    }
  }

  lemma TransitionBounded(cfg: Config, sys: System, a: Action)
    requires Bounded(sys)
    ensures Bounded(Transition(cfg, sys, a))
  {
  }

  lemma {:induction false} ReachAppends(cfg: Config, sys: System, acts: seq<Action>, more: seq<Action>)
    requires Bounded(sys)
    ensures Reach(cfg, sys, acts + more) == Reach(cfg, Reach(cfg, sys, acts), more)
    decreases |acts|
  {
    if acts == [] {
      assert acts + more == more;
    } else {
      hide Transition;
      TransitionBounded(cfg, sys, acts[0]);
      assert (acts + more)[0] == acts[0] && (acts + more)[1..] == acts[1..] + more;
      ReachAppends(cfg, Transition(cfg, sys, acts[0]), acts[1..], more);
    }
  }

  lemma {:induction false} StartKept(cfg: Config, sys: System, acts: seq<Action>, i: nat)
    requires Bounded(sys) && i < |sys.clients|
    ensures i < |Reach(cfg, sys, acts).clients| && Reach(cfg, sys, acts).clients[i].start == sys.clients[i].start
    decreases |acts|
  {
    if acts != [] {
      TransitionBounded(cfg, sys, acts[0]);
      StartKept(cfg, Transition(cfg, sys, acts[0]), acts[1..], i);
    }
  }

  /** The receiver of a new client is resubscribed at the tail: whatever happens later, its start is
      what had been sent when it was accepted. */
  lemma StartIsTail(cfg: Config, acts: seq<Action>, later: seq<Action>)
    ensures var sys, end := Reach(cfg, IDLE, acts), Reach(cfg, IDLE, acts + [Accept] + later);
            |sys.clients| < |end.clients| && end.clients[|sys.clients|].start == |sys.log|
  {
    var sys := Reach(cfg, IDLE, acts);
    ReachAppends(cfg, IDLE, acts + [Accept], later);
    ReachAppends(cfg, IDLE, acts, [Accept]);
    var next := Transition(cfg, sys, Accept);
    TransitionBounded(cfg, sys, Accept);
    assert Reach(cfg, sys, [Accept]) == Reach(cfg, next, []) == next;
    StartKept(cfg, next, later, |sys.clients|);
  }

  predicate Heard(log: seq<Advert>, open: bool, c: Subscriber) {
    Closed in c.trace ==> !open && c.cursor == |log|
  }

  predicate HeardAll(sys: System) {
    forall i | 0 <= i < |sys.clients| :: Heard(sys.log, sys.open, sys.clients[i])
  }

  lemma HeardTransition(cfg: Config, sys: System, a: Action)
    requires Bounded(sys) && HeardAll(sys)
    ensures HeardAll(Transition(cfg, sys, a))
  {
    hide Step;
    assert forall c: Subscriber, e: Event :: Closed in c.trace + [e] <==> Closed in c.trace || e == Closed;
  }

  lemma {:induction false} HeardReach(cfg: Config, sys: System, acts: seq<Action>)
    requires Bounded(sys) && HeardAll(sys)
    ensures HeardAll(Reach(cfg, sys, acts))
    decreases |acts|
  {
    if acts != [] {
      TransitionBounded(cfg, sys, acts[0]);
      HeardTransition(cfg, sys, acts[0]);
      HeardReach(cfg, Transition(cfg, sys, acts[0]), acts[1..]);
    }
  }

  /** A client hears that the channel is closed only once every sender is gone and it has read to the end. */
  lemma ClosedLast(cfg: Config, acts: seq<Action>, i: nat)
    requires i < |Reach(cfg, IDLE, acts).clients|
    ensures var sys := Reach(cfg, IDLE, acts);
            Closed in sys.clients[i].trace ==> !sys.open && sys.clients[i].cursor == |sys.log|
  {
    HeardReach(cfg, IDLE, acts);
  }

  // ---- What reaches the clients is what was done ----

  /** What the socket of a client delivered in a trace. */
  function SocketIn(es: seq<Event>): seq<Event> {
    if es == [] then []
    else
      var last := es[|es| - 1];
      SocketIn(es[..|es| - 1]) + if last.Read? || last.ReadErr? then [last] else []
  }

  /** What the actions present on the socket of client i. */
  function SocketEvents(acts: seq<Action>, i: nat): seq<Event> {
    if acts == [] then []
    else (match acts[0] case Socket(j, e) => (if j == i && (e.Read? || e.ReadErr?) then [e] else []) case _ => [])
         + SocketEvents(acts[1..], i)
  }

  /** What the actions publish before the senders are dropped. */
  function Published(acts: seq<Action>): seq<Advert> {
    if acts == [] || acts[0] == DropSenders then []
    else (match acts[0] case Publish(a) => [a] case _ => []) + Published(acts[1..])
  }

  function Accepts(acts: seq<Action>): nat {
    if acts == [] then 0 else (if acts[0] == Accept then 1 else 0) + Accepts(acts[1..])
  }

  lemma SocketInSnoc(es: seq<Event>, e: Event)
    ensures SocketIn(es + [e]) == SocketIn(es) + if e.Read? || e.ReadErr? then [e] else []
  {
    assert (es + [e])[..|es|] == es;
  }

  /** One action: the channel, the number of clients, and what client i has read from its socket. */
  lemma TransitionTakes(cfg: Config, sys: System, a: Action, i: nat)
    requires Bounded(sys)
    ensures var next := Transition(cfg, sys, a);
            && next.open == (sys.open && a != DropSenders)
            && next.log == sys.log + (if sys.open then Published([a]) else [])
            && |next.clients| == |sys.clients| + Accepts([a])
            && (i < |sys.clients| ==>
                  var c, d, more := sys.clients[i], next.clients[i], SocketEvents([a], i);
                  && SocketIn(c.trace) <= SocketIn(d.trace) <= SocketIn(c.trace) + more
                  && (c.session.core.status == Running ==> SocketIn(d.trace) == SocketIn(c.trace) + more)
                  && (c.session.core.status != Running ==> d == c))
            && (i == |sys.clients| && a == Accept ==> next.clients[i].trace == [])
  {
    hide Step, SocketIn;
    assert [a][1..] == [] && sys.log + [] == sys.log;
    if i < |sys.clients| {
      var c, d := sys.clients[i], Transition(cfg, sys, a).clients[i];
      assert SocketIn(c.trace) + [] == SocketIn(c.trace);
      if |d.trace| > |c.trace| { SocketInSnoc(c.trace, d.trace[|c.trace|]); }
    }
  }

  lemma FirstAction(acts: seq<Action>, i: nat)
    requires acts != []
    ensures SocketEvents(acts, i) == SocketEvents([acts[0]], i) + SocketEvents(acts[1..], i)
    ensures Published(acts) == Published([acts[0]]) + if acts[0] == DropSenders then [] else Published(acts[1..])
    ensures Accepts(acts) == Accepts([acts[0]]) + Accepts(acts[1..])
  {
    assert [acts[0]][1..] == [];
    assert SocketEvents([], i) == [] && Published([]) == [];
  }

  lemma NoActions(i: nat)
    ensures SocketEvents([], i) == [] && Published([]) == [] && Accepts([]) == 0
  {
  }

  /** For every interleaving: the channel holds what was published before the senders were dropped, there
      is one client per accept, and a running client has read exactly what its socket presented, in
      order; one that ended, a first part of it. */
  lemma {:induction false} Taken(cfg: Config, sys: System, acts: seq<Action>, i: nat)
    requires Bounded(sys)
    ensures var end := Reach(cfg, sys, acts);
            && end.open == (sys.open && DropSenders !in acts)
            && end.log == sys.log + (if sys.open then Published(acts) else [])
            && |end.clients| == |sys.clients| + Accepts(acts)
            && (i < |sys.clients| ==>
                  var c, d := sys.clients[i], end.clients[i];
                  && SocketIn(c.trace) <= SocketIn(d.trace) <= SocketIn(c.trace) + SocketEvents(acts, i)
                  && (d.session.core.status == Running ==>
                        SocketIn(d.trace) == SocketIn(c.trace) + SocketEvents(acts, i))
                  && (c.session.core.status != Running ==> d == c))
    decreases |acts|
  {
    hide Transition, SocketIn, SocketEvents, Published, Accepts;
    NoActions(i);
    if acts == [] {
      assert sys.log + [] == sys.log;
      if i < |sys.clients| { assert SocketIn(sys.clients[i].trace) + [] == SocketIn(sys.clients[i].trace); }
    } else {
      var next := Transition(cfg, sys, acts[0]);
      TransitionBounded(cfg, sys, acts[0]);
      TransitionTakes(cfg, sys, acts[0], i);
      FirstAction(acts, i);
      Taken(cfg, next, acts[1..], i);
      Assoc(sys.log, Published([acts[0]]), Published(acts[1..]));
      if i < |sys.clients| {
        Assoc(SocketIn(sys.clients[i].trace), SocketEvents([acts[0]], i), SocketEvents(acts[1..], i));
      }
    }
  }

  /** A client is given an advertisement only while the channel still holds it; one that is further
      behind is told exactly how many it has missed, and nothing else then. */
  lemma ReceivesHeld(cap: nat, env: Env, log: seq<Advert>, open: bool, c: Subscriber)
    requires c.cursor <= |log|
    ensures var d := ReceiveOne(cap, env, log, open, c);
            && (|log| - c.cursor > cap ==>
                  d.trace == c.trace + [Lagged(|log| - c.cursor - cap)] && d.got == c.got && d.cursor + cap == |log|)
            && (0 < |log| - c.cursor <= cap ==>
                  && d.trace == c.trace + [Recv(log[c.cursor])] && d.got == c.got + [c.cursor]
                  && d.cursor == c.cursor + 1)
            && (c.cursor == |log| ==>
                  d.got == c.got && d.cursor == c.cursor && d.trace == if open then c.trace else c.trace + [Closed])
  {
    hide Step;
  }

  /** A position is new among those received only when the client received while the channel still held it. */
  lemma NewlyReceived(cfg: Config, sys: System, a: Action, i: nat, p: nat)
    requires Bounded(sys) && i < |Transition(cfg, sys, a).clients| && p in Transition(cfg, sys, a).clients[i].got
    ensures (i < |sys.clients| && p in sys.clients[i].got) ||
            (i < |sys.clients| && a == Receive(i) && p < |sys.log| <= p + cfg.cap)
  {
    hide Step;
    if i < |sys.clients| && a == Receive(i) {
      ReceivesHeld(cfg.cap, cfg.env(i), sys.log, sys.open, sys.clients[i]);
    }
  }

  /** Over every interleaving: whatever a client has received, it received in some step n at which the
      channel still held it. */
  lemma {:induction false} HeldWhenReceived(cfg: Config, acts: seq<Action>, i: nat, p: nat) returns (n: nat)
    requires i < |Reach(cfg, IDLE, acts).clients| && p in Reach(cfg, IDLE, acts).clients[i].got
    ensures n < |acts| && acts[n] == Receive(i) && p < |Reach(cfg, IDLE, acts[..n]).log| <= p + cfg.cap
    decreases |acts|
  {
    hide Transition;
    if acts != [] {
      var pre, last := acts[..|acts| - 1], acts[|acts| - 1];
      var sys := Reach(cfg, IDLE, pre);
      assert acts == pre + [last];
      ReachAppends(cfg, IDLE, pre, [last]);
      TransitionBounded(cfg, sys, last);
      assert Reach(cfg, sys, [last]) == Reach(cfg, Transition(cfg, sys, last), []) == Transition(cfg, sys, last);
      NewlyReceived(cfg, sys, last, i, p);
      if i < |sys.clients| && p in sys.clients[i].got {
        n := HeldWhenReceived(cfg, pre, i, p);
        assert acts[..n] == pre[..n];
      } else {
        n := |pre|;
      }
    }
  }

  // ---- Keeping up ----

  /** How often client i receives in a run. */
  function Receipts(acts: seq<Action>, i: nat): nat {
    if acts == [] then 0 else (if acts[0] == Receive(i) then 1 else 0) + Receipts(acts[1..], i)
  }

  /** Client i's socket delivers nothing in a run. */
  predicate SocketIdle(acts: seq<Action>, i: nat) {
    forall k | 0 <= k < |acts| :: acts[k].Socket? ==> acts[k].client != i
  }

  /** Client i has not ended, or ended on a failure, or by the closure with nothing unread. */
  predicate Orderly(sys: System, i: nat)
    requires i < |sys.clients|
  {
    var c := sys.clients[i];
    c.session.core.status != Panicked && (c.session.core.status == Finished ==> !sys.open && c.cursor == |sys.log|)
  }

  lemma HandleSurvivesOrFails(env: Env, c: Core, item: Item)
    requires c.status == Running
    ensures Handle(env, c, item).status in {Running, Failed}
  {
    HandleNeverPanics(env, c, item);
  }

  /** One action: the log only grows and a closed one stays as it is; client i moves forward, past at
      least one advertisement if it receives and any are unread. */
  lemma TransitionPaces(cfg: Config, sys: System, a: Action, i: nat)
    requires Bounded(sys) && i < |sys.clients|
    ensures var next := Transition(cfg, sys, a);
            && i < |next.clients| && sys.log <= next.log && (!sys.open ==> !next.open && next.log == sys.log)
            && var c, d := sys.clients[i], next.clients[i];
               && c.cursor <= d.cursor
               && (d.session.core.status == Running ==> c.session.core.status == Running)
               && (d.session.core.status == Running && a == Receive(i) ==>
                     if c.cursor < |sys.log| then c.cursor < d.cursor else sys.open)
               && (Orderly(sys, i) && (a.Socket? ==> a.client != i) ==> Orderly(next, i))
               && (a != DropSenders ==> next.open == sys.open)
  {
    hide Handle;
    var c := sys.clients[i];
    if a == Receive(i) && c.session.core.status == Running && c.cursor < |sys.log| {
      HandleSurvivesOrFails(cfg.env(i), c.session.core, Adv(sys.log[c.cursor]));
    }
  }

  /** For every interleaving: a client still running at the end has moved past one advertisement per
      receive, or has everything that was sent before; once the senders are gone it cannot have received
      more often than that.  If its socket was idle it ends only on a failure, or by the closure with
      nothing unread. */
  lemma {:induction false} Paced(cfg: Config, sys: System, acts: seq<Action>, i: nat)
    requires Bounded(sys) && i < |sys.clients|
    ensures var end := Reach(cfg, sys, acts);
            && i < |end.clients|
            && var c, d, n := sys.clients[i], end.clients[i], Receipts(acts, i);
               && (d.session.core.status == Running ==>
                     && c.session.core.status == Running
                     && (d.cursor >= |sys.log| || d.cursor >= c.cursor + n)
                     && (!sys.open ==> n <= |sys.log| - c.cursor))
               && (Orderly(sys, i) && SocketIdle(acts, i) ==> Orderly(end, i))
               && (DropSenders !in acts ==> end.open == sys.open)
    decreases |acts|
  {
    hide Transition, Orderly;
    if acts != [] {
      TransitionBounded(cfg, sys, acts[0]);
      TransitionPaces(cfg, sys, acts[0], i);
      Paced(cfg, Transition(cfg, sys, acts[0]), acts[1..], i);
      assert SocketIdle(acts, i) ==> SocketIdle(acts[1..], i) by {
        assert forall k | 1 <= k < |acts| :: acts[k] == acts[1..][k - 1];
      }
    }
  }

  /** Once the senders are gone, a client ends after at most one receive per unread advertisement and
      one for the closure, whatever comes in between; with an idle socket it has then failed, or heard the
      closure with nothing unread. */
  lemma CatchesUp(cfg: Config, sys: System, acts: seq<Action>, i: nat)
    requires Bounded(sys) && i < |sys.clients| && !sys.open && sys.clients[i].session.core.status == Running
    requires Receipts(acts, i) > |sys.log| - sys.clients[i].cursor
    ensures var end := Reach(cfg, sys, acts);
            && i < |end.clients|
            && var d := end.clients[i];
               && d.session.core.status != Running
               && (SocketIdle(acts, i) ==>
                     d.session.core.status == Failed || (d.session.core.status == Finished && d.cursor == |end.log|))
  {
    hide Reach;
    Paced(cfg, sys, acts, i);
  }

  /** A client that received as often as it had unread advertisements and is still running has everything
      that had been sent before, whatever came in between.  While senders remain, as they do until the
      program exits, a client with an idle socket runs on unless it failed: on a write, or on an
      unreadable peer address. */
  lemma KeepsUp(cfg: Config, sys: System, acts: seq<Action>, i: nat)
    requires Bounded(sys) && i < |sys.clients| && sys.clients[i].session.core.status == Running
    requires Receipts(acts, i) >= |sys.log| - sys.clients[i].cursor
    ensures var end := Reach(cfg, sys, acts);
            && i < |end.clients|
            && var d := end.clients[i];
               && (d.session.core.status == Running ==> d.cursor >= |sys.log|)
               && (sys.open && DropSenders !in acts && SocketIdle(acts, i) ==>
                     d.session.core.status in {Running, Failed})
  {
    hide Reach;
    Paced(cfg, sys, acts, i);
  }

  // ---- Clients do not interfere ----

  /** The actions that concern client i: its own, and those of the channel and the listener. */
  function Own(acts: seq<Action>, i: nat): seq<Action> {
    if acts == [] then []
    else (if (acts[0].Socket? || acts[0].Receive?) && acts[0].client != i then [] else [acts[0]]) + Own(acts[1..], i)
  }

  predicate Alike(a: System, b: System, i: nat) {
    a.log == b.log && a.open == b.open && |a.clients| == |b.clients| &&
    (i < |a.clients| ==> a.clients[i] == b.clients[i])
  }

  /** Whatever the others do, client i ends as it does when they do nothing at all. */
  lemma {:induction false} NonInterference(cfg: Config, a: System, b: System, acts: seq<Action>, i: nat)
    requires Bounded(a) && Bounded(b) && Alike(a, b, i)
    ensures Alike(Reach(cfg, a, acts), Reach(cfg, b, Own(acts, i)), i)
    decreases |acts|
  {
    if acts != [] {
      hide ReceiveOne, Deliver;
      var rest := acts[1..];
      var a' := Transition(cfg, a, acts[0]);
      TransitionBounded(cfg, a, acts[0]);
      if (acts[0].Socket? || acts[0].Receive?) && acts[0].client != i {
        NonInterference(cfg, a', b, rest, i);
        assert Own(acts, i) == Own(rest, i);
      } else {
        TransitionBounded(cfg, b, acts[0]);
        NonInterference(cfg, a', Transition(cfg, b, acts[0]), rest, i);
        assert Own(acts, i)[1..] == Own(rest, i);
      }
    }
  }
}
