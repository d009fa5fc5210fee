/**
 The whole receiving side: bytes from the serial port in, commands to the device out.
 */
module Gateway {
  import opened Bytes
  import opened Serial
  import opened Commands
  import opened Provisioning
  import opened Frames
  import CurveGroup
  import CoZ
  import P256
  import Scalar
  import Ecdh
  import Theorems

  /** The frames reported on a well-formed stream are complete, so that every handler can read them. */
  lemma CommandsWellFormed(s: State, bytes: seq<Byte>)
    requires s.Valid() && s.phase != Broken && Run(s, bytes).state.phase != Broken
    ensures forall e :: e in EventsOf(Run(s, bytes).commands) ==> WellFormed(e)
  {
    hide Run;
    Conservation(s, bytes);
    var commands := Run(s, bytes).commands;
    forall i | 0 <= i < |commands|
      ensures WellFormed(EventsOf(commands)[i])
    {
      assert commands[i] in commands;
    }
  }

  /** Handling goes on where it stopped: a stream may be cut anywhere, and its parts are handled in turn. */
  lemma ReadsContinue(s: State, c: Session, a: seq<Byte>, b: seq<Byte>)
    requires s.Valid() && s.phase != Broken && Run(s, a + b).state.phase != Broken
    ensures Run(s, a).state.phase != Broken
    ensures var x := Run(s, a);
      var y := Run(x.state, b);
      && (forall e :: e in EventsOf(x.commands) ==> WellFormed(e)) && (forall e :: e in EventsOf(y.commands) ==> WellFormed(e))
      && (forall e :: e in EventsOf(Run(s, a + b).commands) ==> WellFormed(e))
      && var p := Play(c, EventsOf(x.commands));
         var q := Play(p.session, EventsOf(y.commands));
         Play(c, EventsOf(Run(s, a + b).commands)) == Reaction(q.session, p.sends + q.sends)
  {
    hide Run, Play;
    RunAppend(s, a, b);
    var x := Run(s, a);
    if x.state.phase == Broken { BrokenStays(x.state, b); }
    var y := Run(x.state, b);
    CommandsWellFormed(s, a);
    CommandsWellFormed(x.state, b);
    PlayAppend(c, EventsOf(x.commands), EventsOf(y.commands));
    assert EventsOf(x.commands + y.commands) == EventsOf(x.commands) + EventsOf(y.commands);
  }

  /**
   The commands sent in answer to a byte stream: they depend on the stream only, not on how it is
   cut into chunks, provided no read is a single zero byte.
   */
  lemma StreamDeterminesCommands(s: State, c: Session, a: seq<seq<Byte>>, b: seq<seq<Byte>>)
    requires s.Valid() && s.phase != Broken && Run(s, Flatten(a)).state.phase != Broken
    requires Flatten(a) == Flatten(b) && [0] !in a && [0] !in b
    ensures forall e :: e in EventsOf(Run(s, Flatten(a)).commands) ==> WellFormed(e)
    ensures ReceiveAll(s, a) == ReceiveAll(s, b)
    ensures forall e :: e in EventsOf(ReceiveAll(s, a).commands) ==> WellFormed(e)
    ensures Play(c, EventsOf(ReceiveAll(s, a).commands)) == Play(c, EventsOf(ReceiveAll(s, b).commands))
  {
    hide Run, ReceiveAll, Play;
    ReceiveFaithful(s, a);
    ReceiveFaithful(s, b);
    CommandsWellFormed(s, Flatten(a));
  }

  /** ble_handle_cmd with ble_processCommand for every frame. */
  class Receiver {
    const parser: Parser
    const controller: Controller

    constructor ()
      ensures fresh(parser) && fresh(parser.data) && fresh(controller) && parser.Valid()
      ensures parser.Abs() == State(Len, 0, 0, 0, seq(BUFFER_SIZE, i => 0))
      ensures controller.Abs() == Session(New, 0, 0, 0, 0, 0x1a) && controller.sent == []
    {
      parser := new Parser();
      controller := new Controller();
    }

    method HandleBytes(buf: array<Byte>, n: nat)
      requires parser.Valid() && buf != parser.data && n <= buf.Length
      requires Receive(parser.Abs(), buf[..n]).state.phase != Broken
      modifies parser, parser.data, controller
      ensures parser.Valid() && parser.Abs() == Receive(old(parser.Abs()), buf[..n]).state
      ensures var events := EventsOf(Receive(old(parser.Abs()), buf[..n]).commands);
        && (forall e :: e in events ==> WellFormed(e))
        && controller.Abs() == Play(old(controller.Abs()), events).session
        && controller.sent == old(controller.sent) + Play(old(controller.Abs()), events).sends
    {
      hide Run, Receive, React, TriggerOf;
      ghost var s, start, log := parser.Abs(), controller.Abs(), controller.sent;
      ReceivedComplete(s, buf[..n]);
      var commands := parser.ReceiveRead(buf, n);
      ghost var events := EventsOf(commands);
      var i := 0;
      while i < |commands|
        invariant i <= |commands| && forall e :: e in events[..i] ==> WellFormed(e)
        invariant controller.Abs() == Play(start, events[..i]).session
        invariant controller.sent == log + Play(start, events[..i]).sends
        invariant parser.Valid() && parser.Abs() == Receive(s, buf[..n]).state
      {
        assert events[i] in events && events[..i + 1][..i] == events[..i];
        ghost var before := Play(start, events[..i]).sends;
        controller.ProcessCommand(commands[i]);
        ghost var q := React(Play(start, events[..i]).session, TriggerOf(commands[i])).sends;
        assert log + (before + q) == (log + before) + q;
        i := i + 1;
      }
      assert events[..|commands|] == events;
    }

    /** ble_receive_handle, for as many reads as there are. */
    method ReceiveReads(chunks: seq<seq<Byte>>)
      requires parser.Valid() && forall r :: r in chunks ==> |r| <= BUFFER_SIZE
      requires ReceiveAll(parser.Abs(), chunks).state.phase != Broken
      modifies parser, parser.data, controller
      ensures parser.Valid() && parser.Abs() == ReceiveAll(old(parser.Abs()), chunks).state
      ensures var events := EventsOf(ReceiveAll(old(parser.Abs()), chunks).commands);
        && (forall e :: e in events ==> WellFormed(e))
        && controller.Abs() == Play(old(controller.Abs()), events).session
        && controller.sent == old(controller.sent) + Play(old(controller.Abs()), events).sends
    {
      hide Run, Receive, ReceiveAll, Play;
      ghost var s, start, log := parser.Abs(), controller.Abs(), controller.sent;
      ghost var all := ReceiveAll(s, chunks);
      ghost var done: seq<Command> := [];
      var buf := new Byte[BUFFER_SIZE](i => 0);
      PlayNothing(start);
      assert chunks[0..] == chunks && EventsOf(done) == [] && done + all.commands == all.commands;
      var i := 0;
      while i < |chunks|
        invariant i <= |chunks| && parser.Valid()
        invariant var rest := ReceiveAll(parser.Abs(), chunks[i..]); all == Outcome(rest.state, done + rest.commands)
        invariant forall e :: e in EventsOf(done) ==> WellFormed(e)
        invariant controller.Abs() == Play(start, EventsOf(done)).session
        invariant controller.sent == log + Play(start, EventsOf(done)).sends
      {
        ghost var t := parser.Abs();
        FirstRead(t, chunks[i..]);
        assert chunks[i..][1..] == chunks[i + 1..];
        Fill(buf, chunks[i]);
        ghost var f, before := Receive(t, chunks[i]), Play(start, EventsOf(done));
        HandleBytes(buf, |chunks[i]|);
        PlayAppend(start, EventsOf(done), EventsOf(f.commands));
        ghost var more := ReceiveAll(parser.Abs(), chunks[i + 1..]).commands;
        Joined(log, before.sends, Play(before.session, EventsOf(f.commands)).sends, done, f.commands, more);
        done := done + f.commands;
        i := i + 1;
      }
      NothingReceived(parser.Abs());
      assert chunks[i..] == [] && done + [] == done;
    }
  }

  /** read(fd, buf, sizeof(buf)) with these bytes. */
  method Fill(buf: array<Byte>, bytes: seq<Byte>)
    requires |bytes| <= buf.Length
    modifies buf
    ensures buf[..|bytes|] == bytes
  {
    var i := 0;
    while i < |bytes|
      invariant i <= |bytes| && buf[..i] == bytes[..i]
    {
      buf[i] := bytes[i];
      i := i + 1;
    }
  }

  lemma NothingReceived(s: State)
    requires s.Valid()
    ensures ReceiveAll(s, []) == Outcome(s, [])
  {
  }

  lemma FirstRead(s: State, chunks: seq<seq<Byte>>)
    requires s.Valid() && chunks != [] && ReceiveAll(s, chunks).state.phase != Broken
    ensures var f := Receive(s, chunks[0]);
      var r := ReceiveAll(f.state, chunks[1..]);
      f.state.phase != Broken && ReceiveAll(s, chunks) == Outcome(r.state, f.commands + r.commands)
  {
    hide Receive;
    var f := Receive(s, chunks[0]);
    if f.state.phase == Broken { ReceiveBroken(f.state, chunks[1..]); }
  }

  lemma {:induction false} ReceiveBroken(s: State, chunks: seq<seq<Byte>>)
    requires s.Valid() && s.phase == Broken
    ensures ReceiveAll(s, chunks).state.phase == Broken
    decreases |chunks|
  {
    if chunks != [] {
      BrokenStays(s, chunks[0]);
      hide Run;
      ReceiveBroken(s, chunks[1..]);
    }
  }

  lemma Joined(log: seq<Send>, a: seq<Send>, b: seq<Send>, x: seq<Command>, y: seq<Command>, z: seq<Command>)
    ensures (log + a) + b == log + (a + b) && x + (y + z) == (x + y) + z
    ensures EventsOf(x + y) == EventsOf(x) + EventsOf(y)
  {
  }

  lemma ReceivedComplete(s: State, bytes: seq<Byte>)
    requires s.Valid() && s.phase != Broken && Receive(s, bytes).state.phase != Broken
    ensures forall e :: e in EventsOf(Receive(s, bytes).commands) ==> WellFormed(e)
  {
    if bytes != [0] { CommandsWellFormed(s, bytes); }
  }

  /**
   ble_ECDHSecret: the frame that carries the shared secret to the device. The source does not
   look at the result of uECC_shared_secret, so the frame is written either way.
   */
  method EcdhSecret(context: Byte, peerPublic: array<Byte>, nodePrivate: array<Byte>, sharedSecret: array<Byte>,
                    curve: Ecdh.CurveArrays, rng: Ecdh.Option<seq<Ecdh.Draw>>)
    returns (out: seq<Byte>)
    requires curve.Valid() && Ecdh.Answers(rng, 8)
    requires peerPublic.Length == 64 && nodePrivate.Length == 32 && sharedSecret.Length == 32
    requires sharedSecret != peerPublic && sharedSecret != nodePrivate
    modifies sharedSecret
    ensures out == [34, 0x68, context] + sharedSecret[..]
    ensures var f := Packet(ProvEcdhSecret(context, old(peerPublic[..]), old(nodePrivate[..])), sharedSecret[..]);
      |f.payload| <= 254 && out == Encode(f.opcode, f.payload)
    ensures rng.None? || Ecdh.Succeeds(rng.value, P256.PRIME) ==>
      exists ok :: Ecdh.IsSharedSecret(old(peerPublic[..]), old(nodePrivate[..]), sharedSecret[..], ok)
    ensures rng.Some? && !Ecdh.Succeeds(rng.value, P256.PRIME) ==> sharedSecret[..] == old(sharedSecret[..])
  {
    hide Ecdh.IsSharedSecret, Ecdh.Succeeds;
    var ok := Ecdh.SharedSecret(peerPublic, nodePrivate, sharedSecret, curve, rng);
    ghost var secret := sharedSecret[..];
    var buffer := SecretData(context, sharedSecret);
    assert buffer[..33] == buffer[..] && sharedSecret[..] == secret;
    out := Write(0x68, buffer, 33);
  }

  /** The structure with the context and the secret, copied to a buffer. */
  method SecretData(context: Byte, sharedSecret: array<Byte>) returns (buffer: array<Byte>)
    requires sharedSecret.Length == 32
    ensures fresh(buffer) && buffer[..] == [context] + sharedSecret[..]
  {
    buffer := new Byte[33](i => 0);
    buffer[0] := context;
    var i := 0;
    while i < 32
      invariant 0 <= i <= 32 && buffer[0] == context
      invariant forall j :: 0 <= j < i ==> buffer[1..][j] == sharedSecret[j]
    {
      buffer[1 + i] := sharedSecret[i];
      i := i + 1;
    }
  }

  /**
   When the peer's key is a valid point and neither of the exceptions of the ladder applies, the
   written bytes read back as one frame: the secret command, with the context, and the abscissa of
   the private key times that point.
   */
  lemma DeviceGetsSecret(a: CurveGroup.Point, peerPublic: seq<Byte>, nodePrivate: seq<Byte>, secret: seq<Byte>, ok: bool, context: Byte)
    requires Theorems.Hypotheses(a) && |peerPublic| == 64 && |nodePrivate| == 32 && a.x != 0
    requires Ecdh.PublicPoint(peerPublic) == CoZ.Coords(a.x, a.y) && !Scalar.Exceptional(BigEndian(nodePrivate))
    requires Ecdh.IsSharedSecret(peerPublic, nodePrivate, secret, ok)
    ensures var q := CurveGroup.Mul(P256.PRIME, BigEndian(nodePrivate), a);
      var r := Run(State(Len, 0, 0, 0, seq(BUFFER_SIZE, i => 0)), [34, 0x68, context] + secret);
      && q.Affine? && r.state.phase == Len && |r.commands| == 1 && Complete(r.commands[0])
      && r.commands[0].opcode == 0x68 && r.commands[0].len == 33
      && Payload(r.commands[0])[0] == context && BigEndian(Payload(r.commands[0])[1..]) == q.x
  {
    hide Ecdh.IsSharedSecret, Ecdh.PublicPoint, CurveGroup.Mul, Theorems.Hypotheses, Scalar.Exceptional, Run, ReadsBack, BigEndian, LowBytes;
    Theorems.SecretCorrect(a, peerPublic, nodePrivate, secret, ok);
    var x := CurveGroup.Mul(P256.PRIME, BigEndian(nodePrivate), a).x;
    ValueOfSecret(x, secret);
    ReadSecret(context, secret);
  }

  lemma ValueOfSecret(x: int, secret: seq<Byte>)
    requires 0 <= x < P256.PRIME && secret == LowBytes(x, 32)
    ensures BigEndian(secret) == x
  {
    Scalar.PowersOfTwo();
    P256.PrimeValue();
    NativeRoundTrip(x, 32);
  }

  /** The secret frame, read from between frames. */
  lemma ReadSecret(context: Byte, secret: seq<Byte>)
    requires |secret| == 32
    ensures var r := Run(State(Len, 0, 0, 0, seq(BUFFER_SIZE, i => 0)), [34, 0x68, context] + secret);
      && r.state.phase == Len && |r.commands| == 1 && Complete(r.commands[0])
      && r.commands[0].opcode == 0x68 && r.commands[0].len == 33
      && Payload(r.commands[0])[0] == context && Payload(r.commands[0])[1..] == secret
  {
    hide Run;
    var f := Frame(0x68, [context] + secret);
    OneFrame(f);
    assert Encode(f.opcode, f.payload) == [34, 0x68, context] + secret;
    RoundTrip(State(Len, 0, 0, 0, seq(BUFFER_SIZE, i => 0)), [f]);
    var r := Run(State(Len, 0, 0, 0, seq(BUFFER_SIZE, i => 0)), [34, 0x68, context] + secret);
    assert FrameOf(r.commands[0]) == f;
  }

  /**
   From request to answer: an ECDH request at the step that waits for one is answered by exactly one
   command, whose packet carries the secret of the two keys in the request.
   */
  lemma RequestAnswered(s: Session, c: Command, context: Byte, peer: seq<Byte>, node: seq<Byte>, secret: seq<Byte>)
    requires s.step == OobUse && Buffered(c) && c.opcode == 0xc7
    requires |peer| == 64 && |node| == 32 && c.data[..97] == [context] + peer + node && |secret| == 32
    ensures var r := On(s, c);
      && r.session == s.(step := Step.Ecdh) && |r.sends| == 1
      && r.sends[0].ProvEcdhSecret? && r.sends[0].peerPublic == peer && r.sends[0].nodePrivate == node
      && WriteAll([Packet(r.sends[0], secret)]) == [34, 0x68, context] + secret
  {
    EcdhFrame(s, c, context, peer, node);
    var f := Frame(0x68, [context] + secret);
    assert Packet(ProvEcdhSecret(context, peer, node), secret) == f;
    OneFrame(f);
    assert Encode(f.opcode, f.payload) == [34, 0x68, context] + secret;
  }

  lemma OneFrame(f: Frame)
    requires |f.payload| <= 254
    ensures WriteAll([f]) == Encode(f.opcode, f.payload)
  {
    hide Encode;
    assert [f][1..] == [];
    assert WriteAll([]) == [];
  }

  // ----- a device on the other end of the line -----

  /**
   Frames are handled in the order in which they were written, however the bytes arrive; only a
   last frame without payload is still to come.
   */
  lemma WrittenInOrder(s: State, frames: seq<Frame>, chunks: seq<seq<Byte>>)
    requires s.Valid() && s.phase == Len && forall f :: f in frames ==> |f.payload| <= 254
    requires Flatten(chunks) == WriteAll(frames) && [0] !in chunks
    ensures var events := EventsOf(ReceiveAll(s, chunks).commands);
      && |events| == (if frames != [] && frames[|frames| - 1].payload == [] then |frames| - 1 else |frames|)
      && forall i :: 0 <= i < |events| ==>
           && WellFormed(events[i]) && events[i].Received? && Complete(events[i].command)
           && FrameOf(events[i].command) == frames[i]
  {
    hide Run, ReceiveAll, WriteAll, Flatten, Complete, FrameOf;
    RoundTrip(s, frames);
    ReceiveFaithful(s, chunks);
    var cs := ReceiveAll(s, chunks).commands;
    CommandsWellFormed(s, WriteAll(frames));
    var shown := if frames != [] && frames[|frames| - 1].payload == [] then cs + [CommandOf(ReceiveAll(s, chunks).state)] else cs;
    assert Shows(shown, frames);
    forall i | 0 <= i < |cs|
      ensures WellFormed(EventsOf(cs)[i]) && Complete(cs[i]) && FrameOf(cs[i]) == frames[i]
    {
      assert shown[i] == cs[i] && EventsOf(cs)[i] in EventsOf(cs);
    }
  }

  predicate MessageBytesAre(f: Frame, first: Byte, second: Byte) {
    f.opcode == 0xd0 && |f.payload| >= 21 && f.payload[19] == first && f.payload[20] == second
  }

  /** The frame that a step waits for, as the device writes it. */
  predicate Awaited(step: Step, f: Frame) {
    match step
    case New => f.opcode == 0xc0
    case Provision => f.opcode == 0xc3
    case OobUse => f.opcode == 0xc7
    case Ecdh => f.opcode == 0xc6
    case Auth => f.opcode == 0xc5
    case DevKeyAddrPubAdd => f.opcode == 0xc2
    case PsComposData => f.opcode == 0xd2 || (f.opcode == 0xd0 && |f.payload| >= 21 && f.payload[19] == 0x02)
    case PsAppKeyAdd => MessageBytesAre(f, 0x80, 0x03)
    case PsModelAppBind => MessageBytesAre(f, 0x80, 0x3e)
    case PsModelPublicationSet => MessageBytesAre(f, 0x80, 0x19)
  }

  /**
   What a device writes that is to be provisioned: the awaited frames in order, and in between any
   others that do not close the link.
   */
  predicate PlaysItsPart(step: Step, frames: seq<Frame>)
    decreases |frames|
  {
    && frames != []
    && |frames[0].payload| <= 254 && (frames[0].opcode == 0xd0 ==> |frames[0].payload| >= 21)
    && if Awaited(step, frames[0]) then
         if Successor(step) == New then |frames| == 1 else PlaysItsPart(Successor(step), frames[1..])
       else frames[0].opcode != 0xc2 && PlaysItsPart(step, frames[1..])
  }

  lemma {:induction false} PartFacts(step: Step, frames: seq<Frame>)
    requires PlaysItsPart(step, frames)
    ensures frames[|frames| - 1].payload != []
    ensures forall f :: f in frames ==> |f.payload| <= 254
    decreases |frames|
  {
    if |frames| > 1 {
      PartFacts(if Awaited(step, frames[0]) then Successor(step) else step, frames[1..]);
      assert frames == [frames[0]] + frames[1..];
    } else {
      LastAwaited(step, frames[0]);
    }
  }

  lemma LastAwaited(step: Step, f: Frame)
    ensures Awaited(step, f) && Successor(step) == New ==> |f.payload| >= 21
  {
  }

  /** What the parser reports of an awaited frame advances the step, and only that does. */
  lemma AwaitedAdvances(step: Step, c: Command, f: Frame)
    requires Complete(c) && FrameOf(c) == f && (f.opcode == 0xd0 ==> |f.payload| >= 21)
    ensures Buffered(c) && (Advances(step, c) <==> Awaited(step, f))
  {
    if f.opcode == 0xd0 {
      assert c.data[19] == f.payload[19] && c.data[20] == f.payload[20];
    }
  }

  lemma {:induction false} PartLeads(step: Step, frames: seq<Frame>, cs: seq<Command>)
    requires PlaysItsPart(step, frames) && |cs| == |frames|
    requires forall i :: 0 <= i < |cs| ==> Complete(cs[i]) && FrameOf(cs[i]) == frames[i]
    ensures Leads(step, cs)
    decreases |frames|
  {
    hide Complete, FrameOf, Awaited, Advances;
    AwaitedAdvances(step, cs[0], frames[0]);
    assert cs[0].opcode == frames[0].opcode by { OpcodeShown(cs[0]); }
    if |cs| > 1 {
      forall i | 0 <= i < |cs[1..]|
        ensures Complete(cs[1..][i]) && FrameOf(cs[1..][i]) == frames[1..][i]
      {
        assert cs[1..][i] == cs[i + 1] && frames[1..][i] == frames[i + 1];
      }
      PartLeads(if Awaited(step, frames[0]) then Successor(step) else step, frames[1..], cs[1..]);
    }
  }

  lemma OpcodeShown(c: Command)
    requires Complete(c)
    ensures FrameOf(c).opcode == c.opcode
  {
  }

  /**
   A device that plays its part is provisioned: however its bytes arrive, as long as no read is a
   single zero byte, the gateway sends all stages in order and is ready for the next device.
   */
  lemma DeviceProvisioned(s: State, c: Session, frames: seq<Frame>, chunks: seq<seq<Byte>>)
    requires s.Valid() && s.phase == Len && PlaysItsPart(c.step, frames)
    requires (forall f :: f in frames ==> |f.payload| <= 254) && Flatten(chunks) == WriteAll(frames) && [0] !in chunks
    ensures var events := EventsOf(ReceiveAll(s, chunks).commands);
      && (forall e :: e in events ==> WellFormed(e))
      && Progress(c.step) <= |SCRIPT| && Play(c, events).session.step == New
      && StagesOf(Play(c, events).sends) == SCRIPT[Progress(c.step)..]
  {
    hide ReceiveAll, WriteAll, Flatten, Play, StagesOf, Complete, FrameOf, PlaysItsPart, Leads;
    PartFacts(c.step, frames);
    WrittenInOrder(s, frames, chunks);
    var cs := ReceiveAll(s, chunks).commands;
    forall i | 0 <= i < |cs|
      ensures Complete(cs[i]) && FrameOf(cs[i]) == frames[i]
    {
      assert EventsOf(cs)[i] == Received(cs[i]);
    }
    PartLeads(c.step, frames, cs);
    SessionCompletes(c, cs);
  }
}
