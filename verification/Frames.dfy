/**
 What the controller does with the bytes of a frame, stated for every frame without reference to
 the decoder or the transition table; and that a device which plays its part is provisioned.
 */
module Frames {
  import opened Bytes
  import opened Serial
  import opened Commands
  import opened Provisioning

  /** A reported frame comes with the whole buffer of the parser. */
  predicate Buffered(c: Command) {
    |c.data| == BUFFER_SIZE
  }

  function On(s: Session, c: Command): Reaction
    requires Buffered(c)
  {
    Handle(s, Received(c))
  }

  // ----- provisioning events -----

  /** The UUID is the first sixteen bytes. */
  lemma UnprovisionedFrame(s: Session, c: Command, uuid: seq<Byte>)
    requires Buffered(c) && c.opcode == 0xc0 && |uuid| == 16 && c.data[..16] == uuid
    ensures var a := (s.devAddr + 1) % 0x1_0000;
      On(s, c) == if s.step == New then Reaction(s.(step := Provision, devAddr := a), [ProvProvision(uuid, a)]) else Reaction(s, [])
  {
  }

  /** Context, three bytes, output size, two bytes of output actions, input size, input actions. */
  lemma CapsFrame(s: Session, c: Command, context: Byte, size: Byte, action: Byte)
    requires Buffered(c) && c.opcode == 0xc3 && c.data[0] == context && c.data[7] == size && c.data[8] == action
    ensures On(s, c) == if s.step == Provision then Reaction(s.(step := OobUse), [ProvOobUse(context, action, size)]) else Reaction(s, [])
  {
  }

  /** Context, 64 bytes of the peer's public key, 32 bytes of the node's private key. */
  lemma EcdhFrame(s: Session, c: Command, context: Byte, peer: seq<Byte>, node: seq<Byte>)
    requires Buffered(c) && c.opcode == 0xc7 && |peer| == 64 && |node| == 32 && c.data[..97] == [context] + peer + node
    ensures On(s, c) == if s.step == OobUse then Reaction(s.(step := Ecdh), [ProvEcdhSecret(context, peer, node)]) else Reaction(s, [])
  {
    assert c.data[0] == c.data[..97][0] == context;
    assert c.data[1..65] == c.data[..97][1..65] == peer;
    assert c.data[65..97] == c.data[..97][65..97] == node;
  }

  lemma AuthFrame(s: Session, c: Command, context: Byte)
    requires Buffered(c) && c.opcode == 0xc6 && c.data[0] == context
    ensures On(s, c) == if s.step == Ecdh then Reaction(s.(step := Auth), [ProvAuthData(context)]) else Reaction(s, [])
  {
  }

  /** The unicast address is at 7, low byte first, and the device key at 11. */
  lemma CompleteFrame(s: Session, c: Command, address: Half, key: seq<Byte>)
    requires Buffered(c) && c.opcode == 0xc5 && HalfAt(c.data, 7, address) && |key| == 16 && c.data[11..27] == key
    ensures On(s, c) ==
      if s.step == Auth then
        Reaction(s.(step := DevKeyAddrPubAdd, dstAddrHandle := address),
                 [ScanStop, DevKeyAdd(s.devAddr, s.subnetHandle, key), AddrPublicationAdd(s.devAddr)])
      else Reaction(s, [ScanStop])
  {
    HalfRead(c.data, 7, address);
  }

  lemma HalfRead(data: seq<Byte>, at: nat, h: Half)
    requires HalfAt(data, at, h)
    ensures U16(data, at) == h
  {
  }

  lemma LinkClosedFrame(s: Session, c: Command)
    requires Buffered(c) && c.opcode == 0xc2
    ensures On(s, c) ==
      if s.step == DevKeyAddrPubAdd then
        Reaction(s.(step := PsComposData), [CompositionDataGet(s.devKeyHandle, s.dstAddrHandle)])
      else Reaction(s.(step := New), [])
  {
  }

  // ----- mesh messages -----

  /** The message starts at 19, after the header of the event. */
  predicate MessageIs(c: Command, first: Byte, second: Byte)
    requires Buffered(c)
  {
    c.opcode == 0xd0 && c.data[19] == first && c.data[20] == second
  }

  /** Either of two events ends the wait for the composition data. */
  predicate EndsComposition(c: Command)
    requires Buffered(c)
  {
    c.opcode == 0xd2 || (c.opcode == 0xd0 && c.data[19] == 0x02)
  }

  lemma CompositionFrame(s: Session, c: Command)
    requires Buffered(c) && EndsComposition(c)
    ensures On(s, c) ==
      if s.step == PsComposData then
        Reaction(s.(step := PsAppKeyAdd), [ConfigAppKeyAdd(s.devKeyHandle, s.dstAddrHandle)])
      else Reaction(s, [])
  {
  }

  lemma AppKeyFrame(s: Session, c: Command)
    requires Buffered(c) && MessageIs(c, 0x80, 0x03)
    ensures On(s, c) ==
      if s.step == PsAppKeyAdd then
        Reaction(s.(step := PsModelAppBind), [ConfigModelAppBind(s.devKeyHandle, s.dstAddrHandle)])
      else Reaction(s, [])
  {
  }

  /** The element address follows the two bytes of the opcode and a status. */
  lemma ModelAppFrame(s: Session, c: Command, element: Half)
    requires Buffered(c) && MessageIs(c, 0x80, 0x3e) && HalfAt(c.data, 22, element)
    ensures On(s, c) ==
      if s.step == PsModelAppBind then
        Reaction(s.(step := PsModelPublicationSet, elementAddress := element),
                 [ConfigPublicationSet(s.devKeyHandle, s.dstAddrHandle)])
      else Reaction(s, [])
  {
    HalfRead(c.data, 22, element);
  }

  lemma PublicationFrame(s: Session, c: Command)
    requires Buffered(c) && MessageIs(c, 0x80, 0x19)
    ensures On(s, c) == if s.step == PsModelPublicationSet then Reaction(s.(step := New), []) else Reaction(s, [])
  {
  }

  // ----- command responses -----

  /** A successful response to the command with this opcode. */
  predicate Answers(c: Command, opcode: Byte)
    requires Buffered(c)
  {
    c.opcode == 0x84 && c.data[0] == opcode && c.data[1] == 0x00
  }

  /** The handle is at 2, low byte first. */
  lemma DevKeyResponse(s: Session, c: Command, h: Half)
    requires Buffered(c) && Answers(c, 0x9c) && HalfAt(c.data, 2, h)
    ensures On(s, c) == Reaction(if s.step == DevKeyAddrPubAdd then s.(devKeyHandle := h) else s, [])
  {
    HalfRead(c.data, 2, h);
  }

  lemma PublicationResponse(s: Session, c: Command, h: Half)
    requires Buffered(c) && Answers(c, 0xa4) && HalfAt(c.data, 2, h)
    ensures On(s, c) == Reaction(if s.step == DevKeyAddrPubAdd then s.(dstAddrHandle := h) else s, [])
  {
    HalfRead(c.data, 2, h);
  }

  /** Both application keys are added to the subnet, whose handle is only taken over at New. */
  lemma SubnetResponse(s: Session, c: Command, h: Half)
    requires Buffered(c) && Answers(c, 0x92) && HalfAt(c.data, 2, h)
    ensures var n := if s.step == New then h else s.subnetHandle;
      On(s, c) == Reaction(s.(subnetHandle := n), [LocalAppKeyAdd(0, n), LocalAppKeyAdd(1, n)])
  {
    HalfRead(c.data, 2, h);
  }

  lemma LocalUnicastResponse(s: Session, c: Command)
    requires Buffered(c) && Answers(c, 0x9f)
    ensures On(s, c) == Reaction(s, [SubnetAdd])
  {
  }

  lemma DeviceStartedFrame(s: Session, c: Command)
    requires Buffered(c) && c.opcode == 0x81
    ensures On(s, c) == Reaction(s, [AddrLocalUnicastSet])
  {
  }

  // ----- everything else -----

  /** Failed responses, responses to other commands, other messages and other events. */
  predicate Irrelevant(c: Command)
    requires Buffered(c)
  {
    if c.opcode == 0x84 then c.data[1] != 0x00 || c.data[0] !in {0x9c, 0x92, 0xa4, 0x9f}
    else if c.opcode == 0xd0 then
      c.data[19] !in {0x02, 0x80} || (c.data[19] == 0x80 && c.data[20] !in {0x03, 0x3e, 0x19})
    else c.opcode !in {0x81, 0xc0, 0xc2, 0xc3, 0xc5, 0xc6, 0xc7, 0xd2}
  }

  /** They change nothing and send nothing. */
  lemma IrrelevantFrame(s: Session, c: Command)
    requires Buffered(c) && Irrelevant(c)
    ensures On(s, c) == Reaction(s, [])
  {
  }

  // ----- which frames leave a step -----

  /** The frame that a step waits for. */
  predicate Advances(step: Step, c: Command)
    requires Buffered(c)
  {
    match step
    case New => c.opcode == 0xc0
    case Provision => c.opcode == 0xc3
    case OobUse => c.opcode == 0xc7
    case Ecdh => c.opcode == 0xc6
    case Auth => c.opcode == 0xc5
    case DevKeyAddrPubAdd => c.opcode == 0xc2
    case PsComposData => EndsComposition(c)
    case PsAppKeyAdd => MessageIs(c, 0x80, 0x03)
    case PsModelAppBind => MessageIs(c, 0x80, 0x3e)
    case PsModelPublicationSet => MessageIs(c, 0x80, 0x19)
  }

  function Successor(step: Step): Step {
    match step
    case New => Provision
    case Provision => OobUse
    case OobUse => Ecdh
    case Ecdh => Auth
    case Auth => DevKeyAddrPubAdd
    case DevKeyAddrPubAdd => PsComposData
    case PsComposData => PsAppKeyAdd
    case PsAppKeyAdd => PsModelAppBind
    case PsModelAppBind => PsModelPublicationSet
    case PsModelPublicationSet => New
  }

  /** Every other frame leaves the step alone, except that a closed link returns to New. */
  lemma NextStep(s: Session, c: Command)
    requires Buffered(c)
    ensures On(s, c).session.step ==
      if Advances(s.step, c) then Successor(s.step) else if c.opcode == 0xc2 then New else s.step
  {
    hide React, TriggerOf, Successor, Handle;
    if Irrelevant(c) {
      IrrelevantFrame(s, c);
    } else if c.opcode == 0x84 {
      ResponseKeepsStep(s, c);
    } else if c.opcode == 0xd0 {
      NextStepOfMessage(s, c);
    } else {
      NextStepOfEvent(s, c);
    }
  }

  lemma ResponseKeepsStep(s: Session, c: Command)
    requires Buffered(c) && c.opcode == 0x84
    ensures On(s, c).session.step == s.step
  {
  }

  lemma NextStepOfMessage(s: Session, c: Command)
    requires Buffered(c) && c.opcode == 0xd0
    ensures On(s, c).session.step == if Advances(s.step, c) then Successor(s.step) else s.step
  {
  }

  lemma NextStepOfEvent(s: Session, c: Command)
    requires Buffered(c) && c.opcode != 0x84 && c.opcode != 0xd0
    ensures On(s, c).session.step ==
      if Advances(s.step, c) then Successor(s.step) else if c.opcode == 0xc2 then New else s.step
  {
  }

  /** A frame leaves a step if and only if the step waits for it, or the link is closed before the session is over. */
  lemma LeavesStep(s: Session, c: Command)
    requires Buffered(c)
    ensures On(s, c).session.step != s.step <==> Advances(s.step, c) || (c.opcode == 0xc2 && s.step != New)
  {
    hide Advances;
    NextStep(s, c);
    Onward(s.step);
  }

  lemma Onward(step: Step)
    ensures Successor(step) != step
  {
  }

  // ----- completion -----

  function EventsOf(commands: seq<Command>): (r: seq<Event>)
    ensures |r| == |commands| && forall i :: 0 <= i < |r| ==> r[i] == Received(commands[i])
  {
    seq(|commands|, i requires 0 <= i < |commands| => Received(commands[i]))
  }

  ghost predicate AllBuffered(cs: seq<Command>) {
    forall i :: 0 <= i < |cs| ==> Buffered(cs[i])
  }

  lemma BufferedEvents(cs: seq<Command>)
    requires AllBuffered(cs)
    ensures forall e :: e in EventsOf(cs) ==> WellFormed(e)
  {
  }

  /**
   Frames that lead from a step to the end of the session: those the steps wait for, in order,
   with any others in between that neither advance nor close the link.
   */
  predicate Leads(step: Step, cs: seq<Command>)
    decreases |cs|
  {
    && cs != []
    && Buffered(cs[0])
    && if Advances(step, cs[0]) then if Successor(step) == New then |cs| == 1 else Leads(Successor(step), cs[1..])
       else cs[0].opcode != 0xc2 && Leads(step, cs[1..])
  }

  lemma {:induction false} LeadsBuffered(step: Step, cs: seq<Command>)
    requires Leads(step, cs)
    ensures AllBuffered(cs)
    decreases |cs|
  {
    hide Advances, Successor;
    if |cs| > 1 {
      LeadsBuffered(if Advances(step, cs[0]) then Successor(step) else step, cs[1..]);
    }
    forall i | 0 <= i < |cs|
      ensures Buffered(cs[i])
    {
      assert i > 0 ==> cs[i] == cs[1..][i - 1];
    }
  }

  lemma PlayFirst(s: Session, c: Command, rest: seq<Command>)
    requires Buffered(c) && AllBuffered(rest)
    ensures AllBuffered([c] + rest) && (forall e :: e in EventsOf([c] + rest) ==> WellFormed(e))
    ensures forall e :: e in EventsOf(rest) ==> WellFormed(e)
    ensures var q := On(s, c);
      var r := Play(q.session, EventsOf(rest));
      Play(s, EventsOf([c] + rest)) == Reaction(r.session, q.sends + r.sends)
  {
    BufferedEvents([c] + rest);
    BufferedEvents(rest);
    var e: seq<Event> := [];
    PlayNothing(s);
    hide Play, Handle, WellFormed;
    assert WellFormed(Received(c)) by { BufferedIsWellFormed(c); }
    PlayOne(s, e, Received(c));
    assert e + [Received(c)] == [Received(c)];
    assert [] + On(s, c).sends == On(s, c).sends;
    PlayAppend(s, [Received(c)], EventsOf(rest));
    assert EventsOf([c] + rest) == [Received(c)] + EventsOf(rest);
  }

  lemma BufferedIsWellFormed(c: Command)
    requires Buffered(c)
    ensures WellFormed(Received(c))
  {
  }

  /**
   A device that plays its part is provisioned: from any step of a session, frames that lead to its
   end make the controller send all the remaining stages, each exactly once, and return to New.
   */
  lemma {:induction false} SessionCompletes(s: Session, cs: seq<Command>)
    requires Leads(s.step, cs)
    ensures forall e :: e in EventsOf(cs) ==> WellFormed(e)
    ensures var r := Play(s, EventsOf(cs));
      Progress(s.step) <= |SCRIPT| && r.session.step == New && StagesOf(r.sends) == SCRIPT[Progress(s.step)..]
    decreases |cs|
  {
    hide Advances, Successor, Handle, Play, StagesOf, Progress, FollowsScript;
    LeadsBuffered(s.step, cs);
    BufferedEvents(cs);
    var c, rest := cs[0], cs[1..];
    assert cs == [c] + rest;
    var q := On(s, c);
    PlayFirst(s, c, rest);
    NextStep(s, c);
    HandleStages(s, Received(c));
    if Advances(s.step, c) && Successor(s.step) == New {
      assert rest == [] && EventsOf(rest) == [];
      PlayNothing(q.session);
      LastStage(s.step, q.sends);
    } else {
      SessionCompletes(q.session, rest);
      var r := Play(q.session, EventsOf(rest));
      StagesAppend(q.sends, r.sends);
      StillOut(s.step, q.session.step, StagesOf(q.sends));
    }
  }

  lemma LastStage(step: Step, sends: seq<Send>)
    requires Successor(step) == New && FollowsScript(step, New, StagesOf(sends))
    ensures Progress(step) == |SCRIPT| && StagesOf(sends + []) == SCRIPT[Progress(step)..]
  {
    hide StagesOf;
    assert sends + [] == sends;
  }

  /** What was sent and what is still out are together what was out. */
  lemma StillOut(before: Step, after: Step, sent: seq<Stage>)
    requires FollowsScript(before, after, sent) && (after == New ==> before == New)
    requires Progress(after) <= |SCRIPT|
    ensures Progress(before) <= |SCRIPT| && sent + SCRIPT[Progress(after)..] == SCRIPT[Progress(before)..]
  {
    if after == New {
      assert [] + SCRIPT[Progress(after)..] == SCRIPT[Progress(before)..];
    } else {
      Rejoin(SCRIPT, Progress(before), Progress(after));
    }
  }

  lemma Rejoin(s: seq<Stage>, i: nat, j: nat)
    requires i <= j <= |s|
    ensures s[i..j] + s[j..] == s[i..]
  {
  }

  // ----- one session in full -----

  /**
   The frames of an undisturbed session with arbitrary contents: the handles h and g are reported
   for the device key and the publication address, and either event ends the composition.
   */
  ghost predicate WholeSession(cs: seq<Command>, h: Half, g: Half, element: Half) {
    && |cs| == 12 && AllBuffered(cs)
    && cs[0].opcode == 0xc0 && cs[1].opcode == 0xc3 && cs[2].opcode == 0xc7 && cs[3].opcode == 0xc6 && cs[4].opcode == 0xc5
    && Answers(cs[5], 0x9c) && HalfAt(cs[5].data, 2, h) && Answers(cs[6], 0xa4) && HalfAt(cs[6].data, 2, g)
    && cs[7].opcode == 0xc2 && EndsComposition(cs[8])
    && MessageIs(cs[9], 0x80, 0x03) && MessageIs(cs[10], 0x80, 0x3e) && HalfAt(cs[10].data, 22, element)
    && MessageIs(cs[11], 0x80, 0x19)
  }

  /** One more frame at the end. */
  lemma PlayNext(s: Session, cs: seq<Command>, k: nat, r: Reaction)
    requires k < |cs| && AllBuffered(cs)
    ensures forall e :: e in EventsOf(cs[..k]) ==> WellFormed(e)
    ensures forall e :: e in EventsOf(cs[..k + 1]) ==> WellFormed(e)
    ensures Play(s, EventsOf(cs[..k])) == r ==>
      Play(s, EventsOf(cs[..k + 1])) == Reaction(On(r.session, cs[k]).session, r.sends + On(r.session, cs[k]).sends)
  {
    BufferedEvents(cs[..k]);
    BufferedEvents(cs[..k + 1]);
    BufferedIsWellFormed(cs[k]);
    hide Play, Handle, WellFormed;
    assert EventsOf(cs[..k + 1]) == EventsOf(cs[..k]) + [Received(cs[k])];
    PlayOne(s, EventsOf(cs[..k]), Received(cs[k]));
  }

  function Handshaken(s: Session, cs: seq<Command>): seq<Send>
    requires |cs| == 12 && Buffered(cs[0]) && Buffered(cs[1]) && Buffered(cs[2]) && Buffered(cs[3])
  {
    [ProvProvision(cs[0].data[..16], (s.devAddr + 1) % 0x1_0000), ProvOobUse(cs[1].data[0], cs[1].data[8], cs[1].data[7]),
     ProvEcdhSecret(cs[2].data[0], cs[2].data[1..65], cs[2].data[65..97]), ProvAuthData(cs[3].data[0])]
  }

  lemma AfterHandshake(s: Session, cs: seq<Command>, h: Half, g: Half, element: Half)
    requires s.step == New && WholeSession(cs, h, g, element)
    ensures forall e :: e in EventsOf(cs[..4]) ==> WellFormed(e)
    ensures Play(s, EventsOf(cs[..4])) == Reaction(s.(step := Auth, devAddr := (s.devAddr + 1) % 0x1_0000), Handshaken(s, cs))
  {
    hide Play, Handle, WellFormed;
    var a := (s.devAddr + 1) % 0x1_0000;
    var w := Handshaken(s, cs);
    AfterCaps(s, cs, h, g, element);
    PlayNext(s, cs, 2, Reaction(s.(step := OobUse, devAddr := a), w[..2]));
    assert cs[2].data[..97] == [cs[2].data[0]] + cs[2].data[1..65] + cs[2].data[65..97];
    EcdhFrame(s.(step := OobUse, devAddr := a), cs[2], cs[2].data[0], cs[2].data[1..65], cs[2].data[65..97]);
    assert w[..2] + [w[2]] == w[..3];
    PlayNext(s, cs, 3, Reaction(s.(step := Ecdh, devAddr := a), w[..3]));
    AuthFrame(s.(step := Ecdh, devAddr := a), cs[3], cs[3].data[0]);
    assert w[..3] + [w[3]] == w;
  }

  lemma AfterCaps(s: Session, cs: seq<Command>, h: Half, g: Half, element: Half)
    requires s.step == New && WholeSession(cs, h, g, element)
    ensures forall e :: e in EventsOf(cs[..2]) ==> WellFormed(e)
    ensures Play(s, EventsOf(cs[..2])) == Reaction(s.(step := OobUse, devAddr := (s.devAddr + 1) % 0x1_0000), Handshaken(s, cs)[..2])
  {
    hide Play, Handle, WellFormed;
    var a := (s.devAddr + 1) % 0x1_0000;
    var t := s.(step := Provision, devAddr := a);
    var x, y := ProvProvision(cs[0].data[..16], a), ProvOobUse(cs[1].data[0], cs[1].data[8], cs[1].data[7]);
    BufferedEvents(cs[..0]);
    PlayNothing(s);
    assert EventsOf(cs[..0]) == [];
    PlayNext(s, cs, 0, Reaction(s, []));
    UnprovisionedFrame(s, cs[0], cs[0].data[..16]);
    assert [] + [x] == [x];
    PlayNext(s, cs, 1, Reaction(t, [x]));
    CapsFrame(t, cs[1], cs[1].data[0], cs[1].data[7], cs[1].data[8]);
    assert t.(step := OobUse) == s.(step := OobUse, devAddr := a);
    assert [x] + [y] == Handshaken(s, cs)[..2];
  }

  function Added(s: Session, cs: seq<Command>): seq<Send>
    requires |cs| == 12 && Buffered(cs[4])
  {
    var a := (s.devAddr + 1) % 0x1_0000;
    [ScanStop, DevKeyAdd(a, s.subnetHandle, cs[4].data[11..27]), AddrPublicationAdd(a)]
  }

  lemma AfterComplete(s: Session, cs: seq<Command>, h: Half, g: Half, element: Half)
    requires s.step == New && WholeSession(cs, h, g, element)
    ensures forall e :: e in EventsOf(cs[..5]) ==> WellFormed(e)
    ensures Play(s, EventsOf(cs[..5]))
         == Reaction(s.(step := DevKeyAddrPubAdd, devAddr := (s.devAddr + 1) % 0x1_0000, dstAddrHandle := U16(cs[4].data, 7)),
                     Handshaken(s, cs) + Added(s, cs))
  {
    hide Play, Handle, WellFormed, Handshaken, U16;
    AfterHandshake(s, cs, h, g, element);
    var t := s.(step := Auth, devAddr := (s.devAddr + 1) % 0x1_0000);
    HalfIs(cs[4].data, 7);
    PlayNext(s, cs, 4, Reaction(t, Handshaken(s, cs)));
    CompleteFrame(t, cs[4], U16(cs[4].data, 7), cs[4].data[11..27]);
  }

  /** The link has closed: both handles have been taken over. */
  lemma AfterLink(s: Session, cs: seq<Command>, h: Half, g: Half, element: Half)
    requires s.step == New && WholeSession(cs, h, g, element)
    ensures forall e :: e in EventsOf(cs[..8]) ==> WellFormed(e)
    ensures Play(s, EventsOf(cs[..8]))
         == Reaction(s.(step := PsComposData, devAddr := (s.devAddr + 1) % 0x1_0000, devKeyHandle := h, dstAddrHandle := g),
                     Handshaken(s, cs) + Added(s, cs) + [CompositionDataGet(h, g)])
  {
    hide Play, Handle, WellFormed, Handshaken, Added, U16;
    AfterComplete(s, cs, h, g, element);
    var x := Handshaken(s, cs) + Added(s, cs);
    var u := s.(step := DevKeyAddrPubAdd, devAddr := (s.devAddr + 1) % 0x1_0000, dstAddrHandle := U16(cs[4].data, 7));
    PlayNext(s, cs, 5, Reaction(u, x));
    DevKeyResponse(u, cs[5], h);
    assert x + [] == x;
    PlayNext(s, cs, 6, Reaction(u.(devKeyHandle := h), x));
    PublicationResponse(u.(devKeyHandle := h), cs[6], g);
    PlayNext(s, cs, 7, Reaction(u.(devKeyHandle := h, dstAddrHandle := g), x));
    LinkClosedFrame(u.(devKeyHandle := h, dstAddrHandle := g), cs[7]);
  }

  /** What has been sent to the device before its last configuration command. */
  function Configured(h: Half, g: Half): seq<Send> {
    [CompositionDataGet(h, g), ConfigAppKeyAdd(h, g), ConfigModelAppBind(h, g)]
  }

  lemma AfterAppKey(s: Session, cs: seq<Command>, h: Half, g: Half, element: Half)
    requires s.step == New && WholeSession(cs, h, g, element)
    ensures forall e :: e in EventsOf(cs[..10]) ==> WellFormed(e)
    ensures Play(s, EventsOf(cs[..10]))
         == Reaction(s.(step := PsModelAppBind, devAddr := (s.devAddr + 1) % 0x1_0000, devKeyHandle := h, dstAddrHandle := g),
                     Handshaken(s, cs) + Added(s, cs) + Configured(h, g))
  {
    hide Play, Handle, WellFormed, Handshaken, Added;
    AfterLink(s, cs, h, g, element);
    var t := s.(devAddr := (s.devAddr + 1) % 0x1_0000, devKeyHandle := h, dstAddrHandle := g);
    var x := Handshaken(s, cs) + Added(s, cs);
    var y := x + [CompositionDataGet(h, g)];
    PlayNext(s, cs, 8, Reaction(t.(step := PsComposData), y));
    CompositionFrame(t.(step := PsComposData), cs[8]);
    PlayNext(s, cs, 9, Reaction(t.(step := PsAppKeyAdd), y + [ConfigAppKeyAdd(h, g)]));
    AppKeyFrame(t.(step := PsAppKeyAdd), cs[9]);
    assert y + [ConfigAppKeyAdd(h, g)] + [ConfigModelAppBind(h, g)] == x + Configured(h, g);
  }

  lemma HalfIs(data: seq<Byte>, at: nat)
    requires at + 2 <= |data|
    ensures HalfAt(data, at, U16(data, at))
  {
  }

  /**
   An undisturbed session, command by command: the contents of the frames, the address and the
   reported handles are where they belong, and the controller is ready for the next device.
   */
  lemma SessionInFull(s: Session, cs: seq<Command>, h: Half, g: Half, element: Half)
    requires s.step == New && WholeSession(cs, h, g, element)
    ensures forall e :: e in EventsOf(cs) ==> WellFormed(e)
    ensures Play(s, EventsOf(cs)).sends ==
      [ProvProvision(cs[0].data[..16], (s.devAddr + 1) % 0x1_0000),
       ProvOobUse(cs[1].data[0], cs[1].data[8], cs[1].data[7]),
       ProvEcdhSecret(cs[2].data[0], cs[2].data[1..65], cs[2].data[65..97]),
       ProvAuthData(cs[3].data[0]),
       ScanStop,
       DevKeyAdd((s.devAddr + 1) % 0x1_0000, s.subnetHandle, cs[4].data[11..27]),
       AddrPublicationAdd((s.devAddr + 1) % 0x1_0000),
       CompositionDataGet(h, g), ConfigAppKeyAdd(h, g), ConfigModelAppBind(h, g), ConfigPublicationSet(h, g)]
    ensures Play(s, EventsOf(cs)).session
         == s.(devAddr := (s.devAddr + 1) % 0x1_0000, devKeyHandle := h, dstAddrHandle := g, elementAddress := element)
  {
    hide Play, Handle, WellFormed;
    AfterAppKey(s, cs, h, g, element);
    var t := s.(devAddr := (s.devAddr + 1) % 0x1_0000, devKeyHandle := h, dstAddrHandle := g);
    var y := Handshaken(s, cs) + Added(s, cs) + Configured(h, g);
    PlayNext(s, cs, 10, Reaction(t.(step := PsModelAppBind), y));
    ModelAppFrame(t.(step := PsModelAppBind), cs[10], element);
    PlayNext(s, cs, 11, Reaction(t.(step := PsModelPublicationSet, elementAddress := element), y + [ConfigPublicationSet(h, g)]));
    PublicationFrame(t.(step := PsModelPublicationSet, elementAddress := element), cs[11]);
    assert cs[..12] == cs;
  }
}
