/** The `Server` of c2/server.go: its registry of active listeners, and the
    decisions `Listen`, `ConnectWith` and `Oneshot` take around the
    transport calls.

    The transport calls (`Connect`, `Listen`, `writePacket`, `readPacket`,
    `Close` on a connection) are not part of this model: what they return is
    a parameter, and what the model does with them is returned as the list
    of calls made, in order. The event loop's handling of the `new` and
    `close` messages happens in the same step as the call that sends them. */
module C2Server {

  import opened Wrappers
  import opened C2Hint

  /** A Go value the model only passes along: a `Wrapper`, a `Transform`, a
      bound `net.Listener`. */
  type Handle = nat

  /** The fields of a `Profile` the server reads. `hintSpare` holds the
      bytes of the hint's backing array between its length and its
      capacity. */
  datatype Profile = Profile(
    hint: Setting, hintSpare: seq<byte>, sleep: int, jitter: int, size: nat,
    wrapper: Option<Handle>, transform: Option<Handle>)

  datatype Error =
    | NoConnector                 // ErrNoConnector
    | AlreadyActive(name: string) // "listener <name> is already active"
    | ListenFailed(address: string)
    | ListenNil(address: string)
    | ConnectFailed(address: string)
    | WriteFailed
    | ReadFailed
    | EmptyPacket                 // ErrEmptyPacket
    | Panicked                    // a Go runtime panic ends the call

  datatype Outcome<T> = Ok(value: T) | Err(error: Error)

  /** A registered listener: its lower-cased name, the address it was bound
      on, the bound socket, its packet queue size, and the profile's
      wrapper and transform. */
  datatype Listener = Listener(
    name: string, address: string, socket: Handle, size: nat,
    wrapper: Option<Handle>, transform: Option<Handle>)

  /** What `c.Listen(b)` returns: an error, a nil listener, or a socket. */
  datatype Bind = BindError | BindNil | Bound(socket: Handle)

  // ---------------------------------------------------------------------
  // Names

  predicate IsUpper(c: char) {
    'A' <= c <= 'Z'
  }

  function LowerChar(c: char): char {
    if IsUpper(c) then (c as int + 32) as char else c
  }

  /** `strings.ToLower`, on ASCII letters. */
  function ToLower(n: string): (r: string)
    ensures |r| == |n|
    ensures forall i :: 0 <= i < |r| ==> !IsUpper(r[i])
    ensures forall i :: 0 <= i < |n| && !IsUpper(n[i]) ==> r[i] == n[i]
    ensures forall i :: 0 <= i < |n| && IsUpper(n[i]) ==> r[i] as int == n[i] as int + 32
  {
    seq(|n|, i requires 0 <= i < |n| => LowerChar(n[i]))
  }

  /** Lower-casing twice is lower-casing once, so a registered name is its
      own lower-case form. */
  lemma ToLowerIdempotent(n: string)
    ensures ToLower(ToLower(n)) == ToLower(n)
  {
    var r := ToLower(n);
    assert forall i :: 0 <= i < |r| ==> ToLower(r)[i] == r[i];
  }

  // ---------------------------------------------------------------------
  // Choosing the connector

  /** `if c == nil && p != nil { c = convertHintListen(p.hint) }`. */
  function ResolveListen(k: Constants, c: Option<Connector>, p: Option<Profile>): (r: Decoded)
    ensures r == NoHint <==> c.None? && (p.None? || ConvertHintListen(k, p.value.hint) == NoHint)
    ensures c.Some? ==> r == Found(c.value)
  {
    if c.Some? then Found(c.value)
    else if p.None? then NoHint
    else ConvertHintListen(k, p.value.hint)
  }

  /** `if c == nil && p != nil { c = convertHintConnect(p.hint) }`. */
  function ResolveConnect(k: Constants, c: Option<Connector>, p: Option<Profile>): (r: Decoded)
    ensures r == NoHint <==> c.None? && (p.None? || ConvertHintConnect(k, p.value.hint, p.value.hintSpare) == NoHint)
    ensures c.Some? ==> r == Found(c.value)
  {
    if c.Some? then Found(c.value)
    else if p.None? then NoHint
    else ConvertHintConnect(k, p.value.hint, p.value.hintSpare)
  }

  // ---------------------------------------------------------------------
  // The registry

  class Server {
    /** `active`: the listeners by lower-cased name. */
    var active: map<string, Listener>
    /** The server's context has been cancelled and `shutdown` has run. */
    var cancelled: bool

    ghost predicate Valid()
      reads this
    {
      && (forall x :: x in active ==> active[x].name == x && ToLower(x) == x)
      && (cancelled ==> active == map[])
    }

    /** `NewServerContext`: an empty registry, running. */
    constructor()
      ensures Valid() && active == map[] && !cancelled
    {
      active := map[];
      cancelled := false;
    }

    /** `IsActive`: the context has not been cancelled. A server that is no
        longer active holds no listener. */
    function IsActive(): (b: bool)
      reads this
      requires Valid()
      ensures !b ==> active == map[]
    {
      !cancelled
    }

    /** `Listen`, with the loop's handling of the `new` message it sends.
        `bind` is what `c.Listen(b)` returns. */
    method Listen(k: Constants, n: string, b: string, c: Option<Connector>, p: Option<Profile>, bind: Bind)
      returns (r: Outcome<Listener>)
      requires Valid()
      modifies this
      ensures Valid() && cancelled == old(cancelled)
      ensures r.Err? ==> active == old(active)
      ensures r == Err(NoConnector) <==> ResolveListen(k, c, p) == NoHint
      ensures r == Err(AlreadyActive(ToLower(n))) <==>
        ResolveListen(k, c, p).Found? && ToLower(n) in old(active)
      ensures r == Err(ListenFailed(b)) <==>
        ResolveListen(k, c, p).Found? && ToLower(n) !in old(active) && bind.BindError?
      ensures r == Err(ListenNil(b)) <==>
        ResolveListen(k, c, p).Found? && ToLower(n) !in old(active) && bind.BindNil?
      ensures r.Ok? <==>
        ResolveListen(k, c, p).Found? && ToLower(n) !in old(active) && bind.Bound? && !old(cancelled)
      ensures r == Err(Panicked) <==>
        || ResolveListen(k, c, p).Panic?
        || (ResolveListen(k, c, p).Found? && ToLower(n) !in old(active) && bind.Bound? && old(cancelled))
      ensures r.Ok? ==>
        && active == old(active)[ToLower(n) := r.value]
        && r.value.name == ToLower(n) && r.value.address == b && r.value.socket == bind.socket
        && r.value.size == (if p.Some? && p.value.size != 0 then p.value.size else k.mediumLimit)
        && r.value.wrapper == (if p.Some? then p.value.wrapper else None)
        && r.value.transform == (if p.Some? then p.value.transform else None)
    {
      var hint := ResolveListen(k, c, p);
      if hint.Panic? {
        return Err(Panicked);
      }
      if hint.NoHint? {
        return Err(NoConnector);
      }
      var x := ToLower(n);
      if x in active {
        return Err(AlreadyActive(x));
      }
      if bind.BindError? {
        return Err(ListenFailed(b));
      }
      if bind.BindNil? {
        return Err(ListenNil(b));
      }
      var l := Listener(x, b, bind.socket, 0, None, None);
      if p.Some? {
        l := l.(size := p.value.size, wrapper := p.value.wrapper, transform := p.value.transform);
      }
      if l.size == 0 {
        l := l.(size := k.mediumLimit);
      }
      if cancelled {
        // `s.new <- l` on the channel `shutdown` closed
        return Err(Panicked);
      }
      ToLowerIdempotent(n);
      active := active[x := l];
      r := Ok(l);
    }

    /** The loop's `close` case: a listener that closed is removed. */
    method ListenerClosed(x: string)
      requires Valid()
      modifies this
      ensures Valid() && cancelled == old(cancelled)
      ensures active == old(active) - {x}
    {
      active := active - {x};
    }

    /** `Close`, which cancels the context, and `shutdown`, which the loop
        then runs: every active listener is closed, and the registry is
        drained by the names the closing listeners send back. `closes` is
        that sequence of names; each active listener sends its own. */
    method Shutdown(closes: seq<string>) returns (closed: set<string>)
      requires Valid()
      requires forall x :: x in active ==> x in closes
      modifies this
      ensures Valid() && cancelled && active == map[]
      ensures closed == old(active).Keys
    {
      cancelled := true;
      // for _, v := range s.active { v.Close() }
      closed := {};
      var pending := active.Keys;
      while pending != {}
        invariant active == old(active) && cancelled
        invariant closed + pending == active.Keys && closed !! pending
        decreases |pending|
      {
        var x :| x in pending;
        closed := closed + {x};
        pending := pending - {x};
      }
      // for len(s.active) > 0 { delete(s.active, <-s.close) }
      var i := 0;
      while |active| > 0
        invariant cancelled && i <= |closes|
        invariant forall x :: x in active ==> x in closes[i..]
        invariant forall x :: x in active ==> active[x].name == x && ToLower(x) == x
        decreases |closes| - i
      {
        var y :| y in active;
        assert y in closes[i..];
        active := active - {closes[i]};
        forall x | x in active ensures x in closes[i + 1..] {
          NextInSlice(closes, i, x);
        }
        i := i + 1;
      }
    }
  }

  /** A name in `s[i..]` other than `s[i]` is in `s[i + 1..]`. */
  lemma NextInSlice(s: seq<string>, i: nat, x: string)
    requires i < |s| && x in s[i..] && x != s[i]
    ensures x in s[i + 1..]
  {
    assert s[i..] == [s[i]] + s[i + 1..];
  }

  // ---------------------------------------------------------------------
  // Sessions

  datatype Flag = FlagData | FlagOneshot | FlagOther(bit: nat)

  /** What a packet carries: the machine description or an embedded packet. */
  datatype Record = MachineInfo | Embedded(packet: Packet)

  datatype Packet = Packet(id: nat, device: nat, job: nat, flags: set<Flag>, payload: seq<Record>)

  /** The transport calls, in the order they are made. */
  datatype Call =
    | Dial(address: string)                                             // c.Connect(a)
    | Write(packet: Packet, wrapper: Option<Handle>, transform: Option<Handle>)  // writePacket
    | Read(wrapper: Option<Handle>, transform: Option<Handle>)                    // readPacket
    | Hangup                                                            // n.Close()

  /** What `readPacket` returns: an error, a nil packet, or a packet. */
  datatype Reply = ReadError | NoPacket | Received(packet: Packet)

  /** What the transport calls return: whether `Connect` and `writePacket`
      succeed, and the reply. */
  datatype Io = Io(connects: bool, writes: bool, reply: Reply)

  datatype Session = Session(
    id: nat, host: string, sleep: int, jitter: nat,
    wrapper: Option<Handle>, transform: Option<Handle>,
    sendCapacity: nat, recvCapacity: nat)

  function Hangups(calls: seq<Call>): nat {
    if calls == [] then 0 else (if calls[0] == Hangup then 1 else 0) + Hangups(calls[1..])
  }

  lemma HangupsAppend(calls: seq<Call>, c: Call)
    ensures Hangups(calls + [c]) == Hangups(calls) + (if c == Hangup then 1 else 0)
  {
    if calls != [] {
      assert (calls + [c])[1..] == calls[1..] + [c];
      HangupsAppend(calls[1..], c);
    }
  }

  /** The wrapper and transform a session or write takes from the profile;
      none without a profile. */
  function WrapperOf(p: Option<Profile>): Option<Handle> {
    if p.Some? then p.value.wrapper else None
  }

  function TransformOf(p: Option<Profile>): Option<Handle> {
    if p.Some? then p.value.transform else None
  }

  /** The hello packet: `MvHello` from the device with job `uint16(rand)`,
      carrying the machine description and then, when given, the data packet
      marked by `FlagData`. */
  function Hello(k: Constants, device: nat, rand: nat, d: Option<Packet>): Packet {
    Packet(k.mvHello, device, rand % 0x10000,
           if d.Some? then {FlagData} else {},
           [MachineInfo] + (if d.Some? then [Embedded(d.value)] else []))
  }

  /** `ConnectWith`: resolve the connector, dial, send the hello packet
      (`MvHello`, carrying the machine and the optional data packet), and
      accept the session only when the reply is `MvComplete`. `device` is
      `device.UUID` and `rand` what `util.FastRand` returns. */
  method ConnectWith(k: Constants, device: nat, rand: nat, a: string,
                     c: Option<Connector>, p: Option<Profile>, d: Option<Packet>, io: Io)
    returns (r: Outcome<Session>, calls: seq<Call>)
    ensures var hint := ResolveConnect(k, c, p);
      && (hint == NoHint <==> r == Err(NoConnector))
      && (hint.Panic? ==> r == Err(Panicked))
      && (!hint.Found? ==> calls == [])
      && (hint.Found? && !io.connects ==> r == Err(ConnectFailed(a)) && calls == [Dial(a)])
      && (hint.Found? && io.connects && !io.writes ==>
            calls == [Dial(a), Write(Hello(k, device, rand, d), WrapperOf(p), TransformOf(p)), Hangup])
      && (hint.Found? && io.connects && io.writes ==>
            calls == [Dial(a), Write(Hello(k, device, rand, d), WrapperOf(p), TransformOf(p)),
                      Read(WrapperOf(p), TransformOf(p)), Hangup])
      && Hangups(calls) == (if hint.Found? && io.connects then 1 else 0)
      && (r == Err(WriteFailed) <==> hint.Found? && io.connects && !io.writes)
      && (r == Err(ReadFailed) <==> hint.Found? && io.connects && io.writes && io.reply.ReadError?)
      && (r == Err(EmptyPacket) <==>
            hint.Found? && io.connects && io.writes &&
            (io.reply.NoPacket? || (io.reply.Received? && io.reply.packet.id != k.mvComplete)))
      && (r.Ok? <==>
            hint.Found? && io.connects && io.writes &&
            io.reply.Received? && io.reply.packet.id == k.mvComplete)
    ensures r.Ok? ==>
      && r.value.id == device && r.value.host == a
      && r.value.sleep == (if p.Some? && p.value.sleep != 0 then p.value.sleep else k.defaultSleep)
      && r.value.jitter == (if p.Some? && p.value.jitter % 0x100 <= 100 then p.value.jitter % 0x100
                            else if p.Some? then k.defaultJitter else 0)
      && r.value.wrapper == WrapperOf(p) && r.value.transform == TransformOf(p)
      && r.value.sendCapacity == r.value.recvCapacity
                              == (if p.Some? && p.value.size != 0 then p.value.size else k.mediumLimit)
  {
    calls := [];
    var hint := ResolveConnect(k, c, p);
    if hint.Panic? {
      return Err(Panicked), calls;
    }
    if hint.NoHint? {
      return Err(NoConnector), calls;
    }
    calls := calls + [Dial(a)];
    if !io.connects {
      return Err(ConnectFailed(a)), calls;
    }
    var x: nat := 0;
    var l := Session(device, a, 0, 0, None, None, 0, 0);
    var v := Packet(k.mvHello, device, rand % 0x10000, {}, []);
    if p.Some? {
      l := l.(sleep := p.value.sleep, jitter := p.value.jitter % 0x100);
      l := l.(wrapper := p.value.wrapper, transform := p.value.transform);
      x := p.value.size;
    }
    if l.sleep == 0 {
      l := l.(sleep := k.defaultSleep);
    }
    if l.jitter > 100 {
      l := l.(jitter := k.defaultJitter);
    }
    v := v.(payload := v.payload + [MachineInfo]);
    if d.Some? {
      v := v.(payload := v.payload + [Embedded(d.value)], flags := v.flags + {FlagData});
    }
    assert v == Hello(k, device, rand, d) by {
      assert v.payload == [MachineInfo] + (if d.Some? then [Embedded(d.value)] else []);
    }
    assert l.wrapper == WrapperOf(p) && l.transform == TransformOf(p);
    calls := calls + [Write(v, l.wrapper, l.transform)];
    assert Hangups(calls) == 0 by {
      HangupsAppend([], Dial(a));
      HangupsAppend([Dial(a)], calls[1]);
    }
    if !io.writes {
      HangupsAppend(calls, Hangup);
      calls := calls + [Hangup];
      return Err(WriteFailed), calls;
    }
    HangupsAppend(calls, Read(l.wrapper, l.transform));
    calls := calls + [Read(l.wrapper, l.transform)];
    HangupsAppend(calls, Hangup);
    if io.reply.ReadError? {
      calls := calls + [Hangup];
      return Err(ReadFailed), calls;
    }
    if io.reply.NoPacket? || io.reply.packet.id != k.mvComplete {
      calls := calls + [Hangup];
      return Err(EmptyPacket), calls;
    }
    if x == 0 {
      x := k.mediumLimit;
    }
    l := l.(sendCapacity := x, recvCapacity := x);
    calls := calls + [Hangup];
    r := Ok(l);
  }

  /** The packet `Oneshot` writes: the given one, or an empty `MvNop` packet,
      with `FlagOneshot` added to its flags; every other field is kept. */
  function OneshotPacket(k: Constants, d: Option<Packet>): Packet {
    var q := if d.Some? then d.value else Packet(k.mvNop, 0, 0, {}, []);
    q.(flags := q.flags + {FlagOneshot})
  }

  /** `Oneshot`: resolve the connector, dial, write one packet marked
      `FlagOneshot` (an `MvNop` packet when none is given), and close the
      connection whether or not the write succeeded. The result is the
      write's error, if any. */
  method Oneshot(k: Constants, a: string, c: Option<Connector>, p: Option<Profile>, d: Option<Packet>, io: Io)
    returns (err: Option<Error>, calls: seq<Call>)
    ensures var hint := ResolveConnect(k, c, p);
      && (hint == NoHint <==> err == Some(NoConnector))
      && (hint.Panic? ==> err == Some(Panicked))
      && (!hint.Found? ==> calls == [])
      && (hint.Found? && !io.connects ==> err == Some(ConnectFailed(a)) && calls == [Dial(a)])
      && (hint.Found? && io.connects ==>
            && err == (if io.writes then None else Some(WriteFailed))
            && calls == [Dial(a), Write(OneshotPacket(k, d), WrapperOf(p), TransformOf(p)), Hangup])
  {
    calls := [];
    var hint := ResolveConnect(k, c, p);
    if hint.Panic? {
      return Some(Panicked), calls;
    }
    if hint.NoHint? {
      return Some(NoConnector), calls;
    }
    var w, t := None, None;
    if p.Some? {
      w, t := p.value.wrapper, p.value.transform;
    }
    calls := calls + [Dial(a)];
    if !io.connects {
      return Some(ConnectFailed(a)), calls;
    }
    var packet := if d.Some? then d.value else Packet(k.mvNop, 0, 0, {}, []);
    packet := packet.(flags := packet.flags + {FlagOneshot});
    calls := calls + [Write(packet, w, t)];
    calls := calls + [Hangup];
    if !io.writes {
      return Some(WriteFailed), calls;
    }
    err := None;
  }
}
