/** `handle_client` and its handlers as they run: loops over a shared receive buffer and a mutable
    stream, each proved to take exactly the steps of the Session machine. */
module Client {
  import opened Words
  import opened Framing
  import opened Session
  import opened History

  class TcpStream {
    var out: seq<u8>
    var room: nat
    var closed: bool

    constructor (env: Env)
      ensures State() == Start(env).wire
    {
      out, room, closed := [], env.room, false;
    }

    function State(): Wire
      reads this
    {
      Wire(out, room, closed)
    }

    method Write(bytes: seq<u8>) returns (ok: bool)
      modifies this
      ensures Written(State(), ok) == WriteAll(old(State()), bytes)
    {
      if closed {
        return false;
      }
      if |bytes| <= room {
        out, room := out + bytes, room - |bytes|;
        return true;
      }
      out, room := out + bytes[..room], 0;
      return false;
    }

    method Shutdown(env: Env) returns (ok: bool)
      modifies this
      ensures ok == env.shutdownOk && State() == old(State()).(closed := old(closed) || ok)
    {
      closed := closed || env.shutdownOk;
      return env.shutdownOk;
    }
  }

  /** The session's local variables as the machine's state. */
  ghost function Now(stream: TcpStream, flags: Flags, tick: nat): Core
    reads stream
  {
    Core(flags, stream.State(), tick, Running)
  }

  /** hello_request, connect_request, ping_request, device_info_request, list_entities_request and
      subscribe_bluetooth_connections_free_request: parse, then answer with one frame. */
  method Answer(env: Env, stream: TcpStream, m: Message, reply: u32, tick: nat) returns (ok: bool)
    modifies stream
    ensures var sent := WriteAll(old(stream.State()), FrameBytes(reply, env.body(reply)));
            if env.peerOk(tick) && env.parses(m) then Written(stream.State(), ok) == sent
            else !ok && stream.State() == old(stream.State())
  {
    if !env.peerOk(tick) || !env.parses(m) {
      return false;
    }
    var frame := EncodeResponse(reply, env.body(reply));
    ok := stream.Write(frame);
  }

  method DisconnectRequest(env: Env, stream: TcpStream, m: Message, tick: nat) returns (ok: bool)
    requires m.msgType == DISCONNECT
    modifies stream
    ensures forall flags: Flags ::
      var c := HandleMessage(env, old(Now(stream, flags, tick)), m);
      ok == (c.status == Running) && c.wire == stream.State() && c.flags == flags
  {
    ok := Answer(env, stream, m, DISCONNECT_RESPONSE, tick);
    if ok {
      ok := stream.Shutdown(env);
    }
  }

  /** A readable subscription turns on exactly one form, the raw one for odd flags, and decides the
      session's flags from here on; an unreadable one changes nothing. */
  method SubscribeRequest(env: Env, m: Message, tick: nat) returns (r: Option<Flags>)
    requires m.msgType == SUBSCRIBE
    ensures r.Some? ==> r.value.raw == (env.flagsOf(m.payload) % 2 == 1) && r.value.regular == !r.value.raw
    ensures forall c: Core | c.tick == tick ::
              HandleMessage(env, c, m) == c.(flags := if r.Some? then r.value else c.flags)
    ensures forall items: seq<Item> | tick < |items| && items[tick] == Msg(m) ::
              FlagsAt(env, items, tick + 1) == if r.Some? then r.value else FlagsAt(env, items, tick)
  {
    if !env.peerOk(tick) || !env.parses(m) {
      return None;
    }
    FromFlagsChoosesOne(env.flagsOf(m.payload));
    return Some(FromFlags(env.flagsOf(m.payload)));
  }

  /** forward_raw_ble_advertisement and forward_ble_advertisement. */
  method Forward(env: Env, stream: TcpStream, msgType: u32, body: Body) returns (ok: bool)
    modifies stream
    ensures Written(stream.State(), ok) == WriteAll(old(stream.State()), FrameBytes(msgType, body))
  {
    var frame := EncodeResponse(msgType, body);
    ok := stream.Write(frame);
  }

  /** One arm of the `match msg_type` in the drain loop. */
  method Dispatch(env: Env, stream: TcpStream, m: Message, flags: Flags, tick: nat) returns (ok: bool, flags': Flags)
    modifies stream
    ensures var c := Handle(env, old(Now(stream, flags, tick)), Msg(m));
            c == Core(flags', stream.State(), tick + 1, if ok then Running else Failed)
    ensures Answered(env, old(Now(stream, flags, tick)), m,
                     Core(flags', stream.State(), tick + 1, if ok then Running else Failed))
  {
    RequestsAnswered(env, Now(stream, flags, tick), m);
    hide Answered;
    flags' := flags;
    ok := true;
    match m.msgType {
      case 0x01 => ok := Answer(env, stream, m, 2, tick);
      case 0x03 => ok := Answer(env, stream, m, 4, tick);
      case 0x05 => ok := DisconnectRequest(env, stream, m, tick);
      case 0x07 => ok := Answer(env, stream, m, 8, tick);
      case 0x09 => ok := Answer(env, stream, m, 10, tick);
      case 0x0b => ok := Answer(env, stream, m, 19, tick);
      case 0x42 =>
        var sub := SubscribeRequest(env, m, tick);
        if sub.Some? { flags' := sub.value; }
      case 0x50 => ok := Answer(env, stream, m, 81, tick);
      case 0x57 => flags' := NO_FLAGS;
      case _ => ok := env.peerOk(tick);
    }
  }

  /** The inner loop: `while let Some((msg_type, payload)) = next_message(&mut buf)`. */
  method DrainMessages(env: Env, buf: BytesMut, stream: TcpStream, flags: Flags, tick: nat)
    returns (status: Status, flags': Flags, tick': nat)
    modifies buf, stream
    ensures var s := Serve(env, AsWritten, old(buf.data), old(Now(stream, flags, tick)));
            s.core == Core(flags', stream.State(), tick', status) && (status == Running ==> s.buf == buf.data)
  {
    flags', tick' := flags, tick;
    while true
      invariant Serve(env, AsWritten, buf.data, Now(stream, flags', tick'))
             == Serve(env, AsWritten, old(buf.data), old(Now(stream, flags, tick)))
      decreases |buf.data|
    {
      hide NextMessage, Handle, FrameBytes;
      if NextMessage(buf.data).Frame? { NextShrinks(AsWritten, buf.data); }
      var next := ExtractMessage(buf);
      match next {
        case Nothing => return Running, flags', tick';
        case Aborted => return Panicked, flags', tick';
        case Got(m) =>
          var ok;
          ok, flags' := Dispatch(env, stream, m, flags', tick');
          tick' := tick' + 1;
          if !ok {
            return Failed, flags', tick';
          }
      }
    }
  }

  /** The advertisement arm of `select!`. */
  method OnAdvert(env: Env, stream: TcpStream, a: Advert, flags: Flags, tick: nat) returns (ok: bool)
    modifies stream
    ensures Handle(env, old(Now(stream, flags, tick)), Adv(a))
         == Core(flags, stream.State(), tick + 1, if ok then Running else Failed)
  {
    ok := true;
    if flags.raw {
      ok := env.peerOk(tick);
      if ok { ok := Forward(env, stream, RAW_ADVERTISEMENTS, a.raw); }
    } else if flags.regular {
      ok := env.peerOk(tick);
      if ok { ok := Forward(env, stream, LEGACY_ADVERTISEMENT, a.legacy); }
    }
  }

  /** The whole session, for any finite sequence of events the environment presents. */
  method HandleClient(env: Env, stream: TcpStream, events: seq<Event>) returns (status: Status, flags: Flags)
    requires stream.State() == Start(env).wire
    modifies stream
    ensures var c := Run(env, AsWritten, Accepted(env), events).core;
            c.status == status && c.flags == flags && c.wire == stream.State()
  {
    var buf := new BytesMut();
    var tick: nat := 0;
    flags := NO_FLAGS;
    for n := 0 to |events|
      invariant fresh(buf)
      invariant Run(env, AsWritten, Accepted(env), events[..n]) == SessionState(buf.data, Now(stream, flags, tick))
    {
      hide Handle, Serve, Run;
      RunReaches(env, AsWritten, Accepted(env), events, n);
      match events[n] {
        case Read(data) =>
          if data == [] {
            return Finished, flags;
          }
          buf.Extend(data);
          status, flags, tick := DrainMessages(env, buf, stream, flags, tick);
          if status != Running {
            return;
          }
        case ReadErr => return Finished, flags;
        case Recv(a) =>
          var ok := OnAdvert(env, stream, a, flags, tick);
          tick := tick + 1;
          if !ok {
            return Failed, flags;
          }
        case Lagged(_) =>
        case Closed => return Finished, flags;
      }
    }
    assert events[..|events|] == events;
    return Running, flags;
  }
}
