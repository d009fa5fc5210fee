/**
 The provisioning controller: which commands the gateway sends in answer to the events of the
 mesh device. Each handler call is one atomic step.
 */
module Provisioning {
  import opened Bytes
  import opened Serial
  import opened Commands

  datatype Step =
    | New | Provision | OobUse | Ecdh | Auth | DevKeyAddrPubAdd
    | PsComposData | PsAppKeyAdd | PsModelAppBind | PsModelPublicationSet

  /** The controller's memory, with the counter from which unicast addresses are taken. */
  datatype Session = Session(
    step: Step, dstAddrHandle: Half, devKeyHandle: Half, subnetHandle: Half, elementAddress: Half, devAddr: Half)

  const FIRST_ADDRESS: Half := 0x1a

  // ----- events -----

  /** What a complete frame means to the controller, and the fields it uses. */
  datatype Trigger =
    | Unprovisioned(uuid: seq<Byte>)
    | CapsReceived(context: Byte, action: Byte, size: Byte)
    | EcdhRequest(context: Byte, peerPublic: seq<Byte>, nodePrivate: seq<Byte>)
    | AuthRequest(context: Byte)
    | ProvComplete(address: Half, key: seq<Byte>)
    | LinkClosed
    | TxComplete
    | CompositionStatus
    | AppKeyStatus
    | ModelAppStatus(element: Half)
    | PublicationStatus
    | DevKeyHandle(handle: Half)
    | SubnetHandle(handle: Half)
    | PublicationHandle(handle: Half)
    | LocalUnicastSet
    | DeviceStarted
    | Ignored

  /** A little-endian 16-bit field of the frame buffer. */
  function U16(data: seq<Byte>, at: nat): Half
    requires at + 2 <= |data|
  {
    (data[at] as int) + 256 * (data[at + 1] as int)
  }

  const STATUS_SUCCESS: Byte := 0x00

  /** A command response: the opcode it answers, a status and data. */
  function ResponseTrigger(data: seq<Byte>): Trigger
    requires |data| == BUFFER_SIZE
  {
    if data[1] != STATUS_SUCCESS then Ignored
    else match data[0]
      case 0x9c => DevKeyHandle(U16(data, 2))
      case 0x92 => SubnetHandle(U16(data, 2))
      case 0xa4 => PublicationHandle(U16(data, 2))
      case 0x9f => LocalUnicastSet
      case _ => Ignored
  }

  /** A mesh message: a one-byte opcode, or two bytes when the first is 0x80 or 0x82. */
  function MessageTrigger(data: seq<Byte>): Trigger
    requires |data| == BUFFER_SIZE
  {
    if data[19] == 0x80 then
      if data[20] == 0x03 then AppKeyStatus
      else if data[20] == 0x3e then ModelAppStatus(U16(data, 22))
      else if data[20] == 0x19 then PublicationStatus
      else Ignored
    else if data[19] == 0x02 then CompositionStatus
    else Ignored
  }

  function TriggerOf(c: Command): Trigger
    requires |c.data| == BUFFER_SIZE
  {
    match c.opcode
    case 0x84 => ResponseTrigger(c.data)
    case 0xc0 => Unprovisioned(c.data[..16])
    case 0xc3 => CapsReceived(c.data[0], c.data[8], c.data[7])
    case 0xc5 => ProvComplete(U16(c.data, 7), c.data[11..27])
    case 0xc7 => EcdhRequest(c.data[0], c.data[1..65], c.data[65..97])
    case 0xc6 => AuthRequest(c.data[0])
    case 0xc2 => LinkClosed
    case 0xd0 => MessageTrigger(c.data)
    case 0x81 => DeviceStarted
    case 0xd2 => TxComplete
    case _ => Ignored
  }

  datatype Reaction = Reaction(session: Session, sends: seq<Send>)

  /** The transition table. */
  function React(s: Session, t: Trigger): Reaction {
    match t
    case Unprovisioned(uuid) =>
      if s.step == New then
        var a := (s.devAddr + 1) % 0x1_0000;
        Reaction(s.(step := Provision, devAddr := a), [ProvProvision(uuid, a)])
      else Reaction(s, [])
    case CapsReceived(context, action, size) =>
      if s.step == Provision then Reaction(s.(step := OobUse), [ProvOobUse(context, action, size)]) else Reaction(s, [])
    case EcdhRequest(context, peer, node) =>
      if s.step == OobUse then Reaction(s.(step := Ecdh), [ProvEcdhSecret(context, peer, node)]) else Reaction(s, [])
    case AuthRequest(context) =>
      if s.step == Ecdh then Reaction(s.(step := Auth), [ProvAuthData(context)]) else Reaction(s, [])
    case ProvComplete(address, key) =>
      if s.step == Auth then
        Reaction(s.(step := DevKeyAddrPubAdd, dstAddrHandle := address),
                 [ScanStop, DevKeyAdd(s.devAddr, s.subnetHandle, key), AddrPublicationAdd(s.devAddr)])
      else Reaction(s, [ScanStop])
    case LinkClosed =>
      if s.step == DevKeyAddrPubAdd then
        Reaction(s.(step := PsComposData), [CompositionDataGet(s.devKeyHandle, s.dstAddrHandle)])
      else Reaction(s.(step := New), [])
    case TxComplete => ComposDataDone(s)
    case CompositionStatus => ComposDataDone(s)
    case AppKeyStatus =>
      if s.step == PsAppKeyAdd then
        Reaction(s.(step := PsModelAppBind), [ConfigModelAppBind(s.devKeyHandle, s.dstAddrHandle)])
      else Reaction(s, [])
    case ModelAppStatus(element) =>
      if s.step == PsModelAppBind then
        Reaction(s.(step := PsModelPublicationSet, elementAddress := element), [ConfigPublicationSet(s.devKeyHandle, s.dstAddrHandle)])
      else Reaction(s, [])
    case PublicationStatus =>
      if s.step == PsModelPublicationSet then Reaction(s.(step := New), []) else Reaction(s, [])
    case DevKeyHandle(h) => Reaction(if s.step == DevKeyAddrPubAdd then s.(devKeyHandle := h) else s, [])
    case SubnetHandle(h) =>
      var r := if s.step == New then s.(subnetHandle := h) else s;
      Reaction(r, [LocalAppKeyAdd(0, r.subnetHandle), LocalAppKeyAdd(1, r.subnetHandle)])
    case PublicationHandle(h) => Reaction(if s.step == DevKeyAddrPubAdd then s.(dstAddrHandle := h) else s, [])
    case LocalUnicastSet => Reaction(s, [SubnetAdd])
    case DeviceStarted => Reaction(s, [AddrLocalUnicastSet])
    case Ignored => Reaction(s, [])
  }

  /** Either of two events ends the wait for the composition data. */
  function ComposDataDone(s: Session): Reaction {
    if s.step == PsComposData then
      Reaction(s.(step := PsAppKeyAdd), [ConfigAppKeyAdd(s.devKeyHandle, s.dstAddrHandle)])
    else Reaction(s, [])
  }

  // ----- the controller -----

  class Controller {
    var step: Step
    var dstAddrHandle: Half
    var devKeyHandle: Half
    var subnetHandle: Half
    var elementAddress: Half
    var devAddr: Half
    var sent: seq<Send>

    ghost function Abs(): Session
      reads this
    {
      Session(step, dstAddrHandle, devKeyHandle, subnetHandle, elementAddress, devAddr)
    }

    constructor ()
      ensures Abs() == Session(New, 0, 0, 0, 0, 0x1a) && sent == []
    {
      step, dstAddrHandle, devKeyHandle, subnetHandle, elementAddress := New, 0, 0, 0, 0;
      devAddr := FIRST_ADDRESS;
      sent := [];
    }

    /** ble_write of the packet of s; the command is recorded. */
    method Emit(s: Send)
      modifies this`sent
      ensures sent == old(sent) + [s]
    {
      sent := sent + [s];
    }

    /** ble_provision: takes the next address. */
    method ProvisionDevice(uuid: seq<Byte>)
      modifies this`sent, this`devAddr
      ensures devAddr == (old(devAddr) + 1) % 0x1_0000
      ensures sent == old(sent) + [ProvProvision(uuid, devAddr)]
    {
      devAddr := (devAddr + 1) % 0x1_0000;
      Emit(ProvProvision(uuid, devAddr));
    }

    /** ble_processDataCmdRsp */
    method ProcessResponse(data: seq<Byte>)
      requires |data| == BUFFER_SIZE
      modifies this
      ensures var r := React(old(Abs()), ResponseTrigger(data));
        Abs() == r.session && sent == old(sent) + r.sends
    {
      if data[1] != STATUS_SUCCESS {
        return;
      }
      match data[0] {
        case 0x9c =>
          if step == DevKeyAddrPubAdd {
            devKeyHandle := U16(data, 2);
          }
        case 0x92 =>
          if step == New {
            subnetHandle := U16(data, 2);
          }
          Emit(LocalAppKeyAdd(0, subnetHandle));
          Emit(LocalAppKeyAdd(1, subnetHandle));
        case 0xa4 =>
          if step == DevKeyAddrPubAdd {
            dstAddrHandle := U16(data, 2);
          }
        case 0x9f =>
          Emit(SubnetAdd);
        case _ =>
      }
    }

    /** ble_processDataMessageUnicast, with the message opcode and the index of its parameters. */
    method ProcessMessage(opcode: Half, data: seq<Byte>, at: nat)
      requires |data| == BUFFER_SIZE && at <= 21
      requires at == if data[19] == 0x80 || data[19] == 0x82 then 21 else 20
      requires opcode == if data[19] == 0x80 then 0x8000 + (data[20] as int) else if data[19] == 0x82 then 0x8200 + (data[20] as int) else data[19]
      modifies this
      ensures var r := React(old(Abs()), MessageTrigger(data));
        Abs() == r.session && sent == old(sent) + r.sends
    {
      match opcode {
        case 0x02 =>
          if step == PsComposData {
            Emit(ConfigAppKeyAdd(devKeyHandle, dstAddrHandle));
            step := PsAppKeyAdd;
          }
        case 0x8003 =>
          if step == PsAppKeyAdd {
            Emit(ConfigModelAppBind(devKeyHandle, dstAddrHandle));
            step := PsModelAppBind;
          }
        case 0x803e =>
          if step == PsModelAppBind {
            Emit(ConfigPublicationSet(devKeyHandle, dstAddrHandle));
            elementAddress := U16(data, at + 1);
            step := PsModelPublicationSet;
          }
        case 0x8019 =>
          if step == PsModelPublicationSet {
            step := New;
          }
        case _ =>
      }
    }

    /** ble_processCommand */
    method ProcessCommand(c: Command)
      requires |c.data| == BUFFER_SIZE
      modifies this
      ensures var r := React(old(Abs()), TriggerOf(c));
        Abs() == r.session && sent == old(sent) + r.sends
    {
      var data := c.data;
      match c.opcode {
        case 0x84 =>
          ProcessResponse(data);
        case 0xc0 =>
          if step == New {
            ProvisionDevice(data[..16]);
            step := Provision;
          }
        case 0xc3 =>
          if step == Provision {
            Emit(ProvOobUse(data[0], data[8], data[7]));
            step := OobUse;
          }
        case 0xc5 =>
          Emit(ScanStop);
          if step == Auth {
            dstAddrHandle := U16(data, 7);
            Emit(DevKeyAdd(devAddr, subnetHandle, data[11..27]));
            Emit(AddrPublicationAdd(devAddr));
            step := DevKeyAddrPubAdd;
          }
        case 0xc7 =>
          if step == OobUse {
            Emit(ProvEcdhSecret(data[0], data[1..65], data[65..97]));
            step := Ecdh;
          }
        case 0xc6 =>
          if step == Ecdh {
            Emit(ProvAuthData(data[0]));
            step := Auth;
          }
        case 0xc2 =>
          if step == DevKeyAddrPubAdd {
            Emit(CompositionDataGet(devKeyHandle, dstAddrHandle));
            step := PsComposData;
          } else {
            step := New;
          }
        case 0xd0 =>
          var opcode: Half, at := data[19], 20;
          if data[19] == 0x80 {
            opcode, at := 0x8000 + (data[20] as int), 21;
          } else if data[19] == 0x82 {
            opcode, at := 0x8200 + (data[20] as int), 21;
          }
          ProcessMessage(opcode, data, at);
        case 0x81 =>
          Emit(AddrLocalUnicastSet);
        case 0xd2 =>
          if step == PsComposData {
            Emit(ConfigAppKeyAdd(devKeyHandle, dstAddrHandle));
            step := PsAppKeyAdd;
          }
        case _ =>
      }
    }

    /** Key '1' of the console: scanning starts over. */
    method Rescan()
      modifies this`step, this`sent
      ensures Abs() == old(Abs()).(step := New) && sent == old(sent) + [ScanStart]
    {
      Emit(ScanStart);
      step := New;
    }
  }

  // ----- runs -----

  datatype Event = Received(command: Command) | ScanKey

  predicate WellFormed(e: Event) {
    e.Received? ==> |e.command.data| == BUFFER_SIZE
  }

  function Handle(s: Session, e: Event): Reaction
    requires WellFormed(e)
  {
    match e
    case Received(c) => React(s, TriggerOf(c))
    case ScanKey => Reaction(s.(step := New), [ScanStart])
  }

  /** A run of the controller over a sequence of events. */
  function Play(s: Session, events: seq<Event>): Reaction
    requires forall e :: e in events ==> WellFormed(e)
  {
    if events == [] then Reaction(s, [])
    else
      var n := |events| - 1;
      var r := Play(s, events[..n]);
      var q := Handle(r.session, events[n]);
      Reaction(q.session, r.sends + q.sends)
  }

  /** The commands that belong to the provisioning of a device, guarded by its steps. */
  datatype Stage = StProvision | StOob | StEcdh | StAuth | StDevKey | StPubAdd | StComposition | StAppKey | StBind | StPublication

  const SCRIPT: seq<Stage> := [
    StProvision, StOob, StEcdh, StAuth, StDevKey, StPubAdd, StComposition, StAppKey, StBind, StPublication]

  function Stages(s: Send): seq<Stage> {
    match s
    case ProvProvision(_, _) => [StProvision]
    case ProvOobUse(_, _, _) => [StOob]
    case ProvEcdhSecret(_, _, _) => [StEcdh]
    case ProvAuthData(_) => [StAuth]
    case DevKeyAdd(_, _, _) => [StDevKey]
    case AddrPublicationAdd(_) => [StPubAdd]
    case CompositionDataGet(_, _) => [StComposition]
    case ConfigAppKeyAdd(_, _) => [StAppKey]
    case ConfigModelAppBind(_, _) => [StBind]
    case ConfigPublicationSet(_, _) => [StPublication]
    case _ => []
  }

  function StagesOf(sends: seq<Send>): seq<Stage> {
    if sends == [] then [] else StagesOf(sends[..|sends| - 1]) + Stages(sends[|sends| - 1])
  }

  /** How many stages of the script are behind a session in this step. */
  function Progress(step: Step): nat {
    match step
    case New => 0
    case Provision => 1
    case OobUse => 2
    case Ecdh => 3
    case Auth => 4
    case DevKeyAddrPubAdd => 6
    case PsComposData => 7
    case PsAppKeyAdd => 8
    case PsModelAppBind => 9
    case PsModelPublicationSet => 10
  }

  lemma {:induction false} StagesAppend(a: seq<Send>, b: seq<Send>)
    ensures StagesOf(a + b) == StagesOf(a) + StagesOf(b)
    decreases |b|
  {
    hide Stages;
    if b == [] {
      assert a + b == a;
    } else {
      var n := |b| - 1;
      StagesAppend(a, b[..n]);
      assert (a + b)[..|a + b| - 1] == a + b[..n] && (a + b)[|a + b| - 1] == b[n];
      assert (StagesOf(a) + StagesOf(b[..n])) + Stages(b[n]) == StagesOf(a) + (StagesOf(b[..n]) + Stages(b[n]));
    }
  }

  /** From one step to the next, the stages in between are sent; a return to New sends none. */
  ghost predicate FollowsScript(before: Step, after: Step, stages: seq<Stage>) {
    if after == New then stages == []
    else Progress(before) <= Progress(after) <= |SCRIPT| && stages == SCRIPT[Progress(before)..Progress(after)]
  }

  lemma HandleStages(s: Session, e: Event)
    requires WellFormed(e)
    ensures FollowsScript(s.step, Handle(s, e).session.step, StagesOf(Handle(s, e).sends))
  {
    hide TriggerOf, React, FollowsScript, StagesOf;
    if e.Received? {
      ReactStages(s, TriggerOf(e.command));
    } else {
      StagesOne(ScanStart);
      NewSendsNothing(s.step);
    }
  }

  lemma NewSendsNothing(before: Step)
    ensures FollowsScript(before, New, [])
  {
  }

  lemma ReactStages(s: Session, t: Trigger)
    ensures FollowsScript(s.step, React(s, t).session.step, StagesOf(React(s, t).sends))
  {
    hide StagesOf, FollowsScript, Progress;
    NewSendsNothing(s.step);
    if t.SubnetHandle? {
      HandleOfSubnet(s, t);
    } else if t.ProvComplete? && s.step == Auth {
      ProvisionFinished(s, t);
    } else if React(s, t).sends == [] {
      StagesNone();
      StepKept(s.step);
    } else {
      OneCommand(s, t);
    }
  }

  lemma HandleOfSubnet(s: Session, t: Trigger)
    requires t.SubnetHandle?
    ensures FollowsScript(s.step, React(s, t).session.step, StagesOf(React(s, t).sends))
  {
    hide StagesOf, FollowsScript;
    var r := React(s, t);
    StagesTwo(r.sends[0], r.sends[1]);
    assert r.sends == [r.sends[0], r.sends[1]];
    assert StagesOf(r.sends) == [];
    StepKept(s.step);
  }

  lemma ProvisionFinished(s: Session, t: Trigger)
    requires t.ProvComplete? && s.step == Auth
    ensures FollowsScript(s.step, React(s, t).session.step, StagesOf(React(s, t).sends))
  {
    hide StagesOf, FollowsScript;
    var r := React(s, t);
    StagesThree(r.sends[0], r.sends[1], r.sends[2]);
    assert r.sends == [r.sends[0], r.sends[1], r.sends[2]];
    assert StagesOf(r.sends) == [StDevKey, StPubAdd];
    ScriptPair();
  }

  lemma OneCommand(s: Session, t: Trigger)
    requires |React(s, t).sends| == 1
    ensures FollowsScript(s.step, React(s, t).session.step, StagesOf(React(s, t).sends))
  {
    hide StagesOf, Stages, FollowsScript, React, Progress;
    var r := React(s, t);
    StagesOne(r.sends[0]);
    assert r.sends == [r.sends[0]];
    OneStage(s, t);
    if Stages(r.sends[0]) == [] {
      StepKept(s.step);
    } else {
      ScriptStep(s.step, r.session.step);
    }
  }

  /** A single command either belongs to no stage and keeps the step, or is the next stage of the script. */
  lemma OneStage(s: Session, t: Trigger)
    requires |React(s, t).sends| == 1
    ensures var r := React(s, t);
      if Stages(r.sends[0]) == [] then r.session.step == s.step
      else
        && r.session.step != New && Progress(r.session.step) == Progress(s.step) + 1 <= |SCRIPT|
        && Stages(r.sends[0]) == [SCRIPT[Progress(s.step)]]
  {
  }

  lemma StepKept(step: Step)
    ensures FollowsScript(step, step, [])
  {
  }

  lemma ScriptStep(before: Step, after: Step)
    requires after != New && Progress(after) == Progress(before) + 1
    ensures FollowsScript(before, after, [SCRIPT[Progress(before)]])
  {
    assert SCRIPT[Progress(before)..Progress(after)] == [SCRIPT[Progress(before)]];
  }

  lemma ScriptPair()
    ensures FollowsScript(Auth, DevKeyAddrPubAdd, [StDevKey, StPubAdd])
  {
    assert SCRIPT[4..6] == [StDevKey, StPubAdd];
  }

  lemma StagesNone()
    ensures StagesOf([]) == []
  {
  }

  lemma StagesOne(x: Send)
    ensures StagesOf([x]) == Stages(x)
  {
    hide Stages;
    assert [x][..0] == [];
  }

  lemma StagesTwo(x: Send, y: Send)
    ensures StagesOf([x, y]) == Stages(x) + Stages(y)
  {
    hide Stages, StagesOf;
    StagesOne(x);
    StagesOne(y);
    StagesAppend([x], [y]);
    assert [x, y] == [x] + [y];
  }

  lemma StagesThree(x: Send, y: Send, z: Send)
    ensures StagesOf([x, y, z]) == Stages(x) + Stages(y) + Stages(z)
  {
    hide Stages, StagesOf;
    StagesTwo(x, y);
    StagesOne(z);
    StagesAppend([x, y], [z]);
    assert [x, y, z] == [x, y] + [z];
  }

  /** The stages sent since the session was last New. */
  function SinceNew(s: Session, events: seq<Event>): seq<Stage>
    requires forall e :: e in events ==> WellFormed(e)
  {
    if events == [] then []
    else
      var n := |events| - 1;
      var q := Handle(Play(s, events[..n]).session, events[n]);
      if q.session.step == New then [] else SinceNew(s, events[..n]) + StagesOf(q.sends)
  }

  /** In every run, the stages sent since the last return to New are the prefix the step names. */
  lemma {:induction false} ScriptFollowed(s: Session, events: seq<Event>)
    requires s.step == New && forall e :: e in events ==> WellFormed(e)
    ensures Progress(Play(s, events).session.step) <= |SCRIPT|
    ensures SinceNew(s, events) == SCRIPT[..Progress(Play(s, events).session.step)]
  {
    hide StagesOf, Handle, Progress, FollowsScript;
    if events == [] {
      PrefixExtended(New, New, []);
    } else {
      var n := |events| - 1;
      var before := Play(s, events[..n]).session;
      ScriptFollowed(s, events[..n]);
      HandleStages(before, events[n]);
      PrefixExtended(before.step, Handle(before, events[n]).session.step, StagesOf(Handle(before, events[n]).sends));
    }
  }

  lemma PrefixExtended(before: Step, after: Step, more: seq<Stage>)
    requires FollowsScript(before, after, more)
    ensures Progress(New) == 0 && Progress(before) <= |SCRIPT| && Progress(after) <= |SCRIPT|
    ensures after != New ==> SCRIPT[..Progress(before)] + more == SCRIPT[..Progress(after)]
  {
    if after != New {
      SlicesJoin(SCRIPT, Progress(before), Progress(after));
    }
  }

  lemma SlicesJoin(s: seq<Stage>, i: nat, j: nat)
    requires i <= j <= |s|
    ensures s[..i] + s[i..j] == s[..j]
  {
  }

  /** The stages of a run, split where the session returns to New. */
  function Segments(s: Session, events: seq<Event>): (r: seq<seq<Stage>>)
    requires forall e :: e in events ==> WellFormed(e)
    ensures r != []
  {
    if events == [] then [[]]
    else
      var n := |events| - 1;
      var before := Segments(s, events[..n]);
      var q := Handle(Play(s, events[..n]).session, events[n]);
      if q.session.step == New then before + [[]]
      else before[..|before| - 1] + [before[|before| - 1] + StagesOf(q.sends)]
  }

  function Concat(segments: seq<seq<Stage>>): seq<Stage> {
    if segments == [] then [] else Concat(segments[..|segments| - 1]) + segments[|segments| - 1]
  }

  /**
   All stages ever sent, in order, are a sequence of sessions, each of which follows the script
   from its beginning and breaks off somewhere.
   */
  lemma {:induction false} RunIsSessions(s: Session, events: seq<Event>)
    requires s.step == New && forall e :: e in events ==> WellFormed(e)
    ensures var g := Segments(s, events);
      && StagesOf(Play(s, events).sends) == Concat(g)
      && g[|g| - 1] == SinceNew(s, events)
      && EachPrefix(g)
  {
    hide StagesOf, Handle, Progress, Concat, FollowsScript, EachPrefix;
    if events == [] {
      StagesNone();
      OneEmptySession();
    } else {
      var n := |events| - 1;
      var r := Play(s, events[..n]);
      var q := Handle(r.session, events[n]);
      RunIsSessions(s, events[..n]);
      ScriptFollowed(s, events);
      StagesAppend(r.sends, q.sends);
      NewIsSilent(r.session, events[n]);
      ExtendSegments(Segments(s, events[..n]), StagesOf(q.sends));
      PrefixesExtend(Segments(s, events[..n]), SinceNew(s, events));
    }
  }

  /** Every session follows the script from its beginning. */
  ghost predicate EachPrefix(g: seq<seq<Stage>>) {
    forall i :: 0 <= i < |g| ==> g[i] <= SCRIPT
  }

  lemma PrefixesExtend(before: seq<seq<Stage>>, last: seq<Stage>)
    requires before != [] && EachPrefix(before) && last <= SCRIPT
    ensures EachPrefix(before + [last]) && EachPrefix(before[..|before| - 1] + [last])
  {
  }

  lemma OneEmptySession()
    ensures Concat([[]]) == [] && EachPrefix([[]])
  {
    var one: seq<seq<Stage>> := [[]];
    assert one[..0] == [] && Concat([]) == [];
  }

  lemma NewIsSilent(s: Session, e: Event)
    requires WellFormed(e)
    ensures Handle(s, e).session.step == New ==> StagesOf(Handle(s, e).sends) == []
  {
    hide Handle, StagesOf;
    HandleStages(s, e);
  }

  lemma ExtendSegments(before: seq<seq<Stage>>, more: seq<Stage>)
    requires before != []
    ensures Concat(before + [[]]) == Concat(before)
    ensures var last := before[|before| - 1];
      Concat(before[..|before| - 1] + [last + more]) == Concat(before) + more
  {
    var init, last := before[..|before| - 1], before[|before| - 1];
    assert Concat(before) == Concat(init) + last;
    hide Concat;
    ConcatLast(before, []);
    ConcatLast(init, last + more);
    Associate(Concat(init), last, more);
    Associate(Concat(before), [], []);
  }

  lemma Associate(a: seq<Stage>, b: seq<Stage>, c: seq<Stage>)
    ensures a + (b + c) == (a + b) + c && a + [] == a
  {
  }

  lemma ConcatLast(g: seq<seq<Stage>>, last: seq<Stage>)
    ensures Concat(g + [last]) == Concat(g) + last
  {
    assert (g + [last])[..|g|] == g;
  }

  // ----- addresses -----

  function Addresses(s: Send): seq<Half> {
    match s
    case ProvProvision(_, a) => [a]
    case _ => []
  }

  function AddressesOf(sends: seq<Send>): seq<Half> {
    if sends == [] then []
    else AddressesOf(sends[..|sends| - 1]) + Addresses(sends[|sends| - 1])
  }

  lemma {:induction false} AddressesAppend(a: seq<Send>, b: seq<Send>)
    ensures AddressesOf(a + b) == AddressesOf(a) + AddressesOf(b)
    decreases |b|
  {
    hide Addresses;
    if b == [] {
      assert a + b == a;
    } else {
      var n := |b| - 1;
      AddressesAppend(a, b[..n]);
      assert (a + b)[..|a + b| - 1] == a + b[..n] && (a + b)[|a + b| - 1] == b[n];
      assert (AddressesOf(a) + AddressesOf(b[..n])) + Addresses(b[n]) == AddressesOf(a) + (AddressesOf(b[..n]) + Addresses(b[n]));
    }
  }

  lemma AddressesShort(sends: seq<Send>)
    ensures |sends| == 0 ==> AddressesOf(sends) == []
    ensures |sends| == 1 ==> AddressesOf(sends) == Addresses(sends[0])
    ensures |sends| > 0 && (forall x :: x in sends ==> !x.ProvProvision?) ==> AddressesOf(sends) == []
    decreases |sends|
  {
    if |sends| == 1 {
      assert sends[..0] == [];
    } else if |sends| > 1 {
      AddressesShort(sends[..|sends| - 1]);
    }
  }

  /** The address counter moves with the Provision commands, and only with them. */
  lemma HandleAddresses(s: Session, e: Event)
    requires WellFormed(e)
    ensures var r := Handle(s, e);
      if r.session.devAddr == s.devAddr then AddressesOf(r.sends) == []
      else r.session.devAddr == (s.devAddr + 1) % 0x1_0000 && AddressesOf(r.sends) == [r.session.devAddr]
  {
    hide AddressesOf, TriggerOf;
    AddressesShort(Handle(s, e).sends);
    if e.Received? {
      ReactAddresses(s, TriggerOf(e.command));
    }
  }

  lemma ReactAddresses(s: Session, t: Trigger)
    ensures var r := React(s, t);
      if r.session.devAddr == s.devAddr then forall x :: x in r.sends ==> !x.ProvProvision?
      else r.session.devAddr == (s.devAddr + 1) % 0x1_0000 && |r.sends| == 1 && Addresses(r.sends[0]) == [r.session.devAddr]
  {
  }

  /** The k-th Provision command of a run carries the start address plus k, modulo 2^16. */
  lemma {:induction false} AddressesCount(s: Session, events: seq<Event>)
    requires forall e :: e in events ==> WellFormed(e)
    ensures var r := Play(s, events);
      var a := AddressesOf(r.sends);
      && r.session.devAddr == (s.devAddr + |a|) % 0x1_0000
      && forall k :: 0 <= k < |a| ==> a[k] == (s.devAddr + k + 1) % 0x1_0000
  {
    hide Handle, AddressesOf;
    AddressesShort([]);
    if events != [] {
      var n := |events| - 1;
      AddressesCount(s, events[..n]);
      var r := Play(s, events[..n]);
      var q := Handle(r.session, events[n]);
      HandleAddresses(r.session, events[n]);
      AddressesAppend(r.sends, q.sends);
    }
  }

  /** Fewer than 2^16 sessions in a run get different addresses. */
  lemma AddressesDistinct(s: Session, events: seq<Event>, i: nat, j: nat)
    requires forall e :: e in events ==> WellFormed(e)
    requires i < j < |AddressesOf(Play(s, events).sends)| && j - i < 0x1_0000
    ensures AddressesOf(Play(s, events).sends)[i] != AddressesOf(Play(s, events).sends)[j]
  {
    hide AddressesOf, Play;
    AddressesCount(s, events);
    Wraps(s.devAddr + 1, i, j);
  }

  lemma Wraps(base: nat, i: nat, j: nat)
    requires i < j && j - i < 0x1_0000
    ensures (base + i) % 0x1_0000 != (base + j) % 0x1_0000
  {
  }

  predicate Bearing(x: Send) {
    x.DevKeyAdd? || x.AddrPublicationAdd?
  }

  function Borne(x: Send): Half
    requires Bearing(x)
  {
    if x.DevKeyAdd? then x.owner else x.publication
  }

  /** Command i carries the address of the latest Provision command before it. */
  ghost predicate CarriesLatest(sends: seq<Send>, i: nat)
    requires i < |sends| && Bearing(sends[i])
  {
    var a := AddressesOf(sends[..i]);
    a != [] && Borne(sends[i]) == a[|a| - 1]
  }

  /** Every address-bearing command carries the address of the Provision command before it. */
  ghost predicate UsesLatest(sends: seq<Send>) {
    forall i :: 0 <= i < |sends| && Bearing(sends[i]) ==> CarriesLatest(sends, i)
  }

  /** Once a session has begun, the counter still holds the address of the latest Provision. */
  lemma {:induction false} LatestAddress(s: Session, events: seq<Event>)
    requires s.step == New && forall e :: e in events ==> WellFormed(e)
    ensures var r := Play(s, events);
      var a := AddressesOf(r.sends);
      && (r.session.step != New ==> a != [])
      && (a != [] ==> r.session.devAddr == a[|a| - 1])
      && UsesLatest(r.sends)
  {
    hide Handle, AddressesOf, UsesLatest;
    AddressesShort([]);
    UsesNothing();
    if events != [] {
      var n := |events| - 1;
      LatestAddress(s, events[..n]);
      var r := Play(s, events[..n]);
      var q := Handle(r.session, events[n]);
      HandleAddresses(r.session, events[n]);
      AddressesAppend(r.sends, q.sends);
      HandleUses(r.session, events[n], r.sends);
      HandleLeavesNew(r.session, events[n]);
    }
  }

  lemma UsesNothing()
    ensures UsesLatest([])
  {
  }

  /** Only the Unprovisioned event leaves the step New, and it sends a Provision command. */
  lemma HandleLeavesNew(s: Session, e: Event)
    requires WellFormed(e)
    ensures s.step == New && Handle(s, e).session.step != New ==> AddressesOf(Handle(s, e).sends) != []
  {
    hide TriggerOf;
    AddressesShort(Handle(s, e).sends);
  }

  /** Within one reaction, an address-bearing command uses the counter, and no Provision precedes it. */
  ghost predicate UsesCounter(s: Session, q: seq<Send>) {
    forall k :: 0 <= k < |q| && Bearing(q[k]) ==>
      && s.step != New
      && Borne(q[k]) == s.devAddr
      && forall l :: 0 <= l < k ==> !q[l].ProvProvision?
  }

  lemma HandleUsesCounter(s: Session, e: Event)
    requires WellFormed(e)
    ensures UsesCounter(s, Handle(s, e).sends)
  {
    hide TriggerOf;
  }

  lemma HandleUses(s: Session, e: Event, sends: seq<Send>)
    requires WellFormed(e) && UsesLatest(sends)
    requires var a := AddressesOf(sends); (s.step != New ==> a != []) && (a != [] ==> s.devAddr == a[|a| - 1])
    ensures UsesLatest(sends + Handle(s, e).sends)
  {
    hide Handle, AddressesOf, CarriesLatest, UsesCounter, Bearing;
    var q := Handle(s, e).sends;
    HandleUsesCounter(s, e);
    forall i | 0 <= i < |sends + q| && Bearing((sends + q)[i])
      ensures CarriesLatest(sends + q, i)
    {
      if i < |sends| {
        EarlierUse(sends, q, i);
      } else {
        LaterUse(s, sends, q, i - |sends|);
      }
    }
  }

  lemma EarlierUse(sends: seq<Send>, q: seq<Send>, i: nat)
    requires i < |sends| && Bearing(sends[i]) && CarriesLatest(sends, i)
    ensures CarriesLatest(sends + q, i)
  {
    hide AddressesOf;
    assert (sends + q)[..i] == sends[..i];
  }

  lemma LaterUse(s: Session, sends: seq<Send>, q: seq<Send>, k: nat)
    requires k < |q| && Bearing(q[k]) && UsesCounter(s, q)
    requires var a := AddressesOf(sends); (s.step != New ==> a != []) && (a != [] ==> s.devAddr == a[|a| - 1])
    ensures CarriesLatest(sends + q, |sends| + k)
  {
    hide AddressesOf, Bearing, Borne;
    assert (sends + q)[..|sends| + k] == sends + q[..k];
    NoneSince(sends, q, k);
  }

  lemma NoneSince(sends: seq<Send>, q: seq<Send>, k: nat)
    requires k < |q| && forall l :: 0 <= l < k ==> !q[l].ProvProvision?
    ensures AddressesOf(sends + q[..k]) == AddressesOf(sends)
  {
    hide AddressesOf;
    AddressesAppend(sends, q[..k]);
    AddressesShort(q[..k]);
    assert forall x :: x in q[..k] ==> !x.ProvProvision?;
  }

  // ----- the device a session configures -----

  /** The commands sent since the session was last New. */
  function SessionSends(s: Session, events: seq<Event>): seq<Send>
    requires forall e :: e in events ==> WellFormed(e)
  {
    if events == [] then []
    else
      var n := |events| - 1;
      var q := Handle(Play(s, events[..n]).session, events[n]);
      if q.session.step == New then [] else SessionSends(s, events[..n]) + q.sends
  }

  /** All configuration commands are addressed with the handles of this session. */
  ghost predicate AllTo(sends: seq<Send>, s: Session) {
    forall x :: x in sends && IsConfig(x) ==> x.devKey == s.devKeyHandle && x.dst == s.dstAddrHandle
  }

  ghost predicate NoConfig(sends: seq<Send>) {
    forall x :: x in sends ==> !IsConfig(x)
  }

  predicate Configuring(s: Session) {
    s.step in {PsComposData, PsAppKeyAdd, PsModelAppBind, PsModelPublicationSet}
  }

  lemma HandleTargets(s: Session, e: Event)
    requires WellFormed(e)
    ensures var r := Handle(s, e);
      r.session.step != New ==>
        && AllTo(r.sends, r.session)
        && (Configuring(s) ==> r.session.devKeyHandle == s.devKeyHandle && r.session.dstAddrHandle == s.dstAddrHandle)
        && (!Configuring(r.session) ==> !Configuring(s) && NoConfig(r.sends))
  {
    hide TriggerOf;
    if e.Received? {
      ReactAddressed(s, TriggerOf(e.command));
      ReactKeepsTarget(s, TriggerOf(e.command));
    }
  }

  lemma ReactAddressed(s: Session, t: Trigger)
    ensures var r := React(s, t);
      && AllTo(r.sends, r.session)
      && (!Configuring(r.session) ==> NoConfig(r.sends))
  {
  }

  lemma ReactKeepsTarget(s: Session, t: Trigger)
    ensures var r := React(s, t).session;
      Configuring(s) && r.step != New ==>
        Configuring(r) && r.devKeyHandle == s.devKeyHandle && r.dstAddrHandle == s.dstAddrHandle
  {
  }

  /** All configuration commands of a session go to one device, whichever events arrive in between. */
  lemma {:induction false} OneTarget(s: Session, events: seq<Event>)
    requires s.step == New && forall e :: e in events ==> WellFormed(e)
    ensures AllTo(SessionSends(s, events), Play(s, events).session)
    ensures !Configuring(Play(s, events).session) ==> NoConfig(SessionSends(s, events))
  {
    hide Handle, Configuring, IsConfig;
    if events != [] {
      var n := |events| - 1;
      OneTarget(s, events[..n]);
      HandleTargets(Play(s, events[..n]).session, events[n]);
    }
  }

  datatype Report = Missing | Present(handle: Half)

  /** What a handled event says about the device key, respectively about the publication address. */
  function KeyReport(e: Event): Report
    requires WellFormed(e)
  {
    if e.Received? && TriggerOf(e.command).DevKeyHandle? then Present(TriggerOf(e.command).handle) else Missing
  }

  function PublicationReport(e: Event): Report
    requires WellFormed(e)
  {
    if e.Received? && TriggerOf(e.command).PublicationHandle? then Present(TriggerOf(e.command).handle) else Missing
  }

  /**
   The latest handle reported to the session while it waited for its link to close; reports at
   any other time do not count.
   */
  function Reported(s: Session, events: seq<Event>, publication: bool): Report
    requires forall e :: e in events ==> WellFormed(e)
  {
    if events == [] then Missing
    else
      var n := |events| - 1;
      var before := Play(s, events[..n]).session;
      var report := if publication then PublicationReport(events[n]) else KeyReport(events[n]);
      if Handle(before, events[n]).session.step == New then Missing
      else if before.step == DevKeyAddrPubAdd && report.Present? then report
      else Reported(s, events[..n], publication)
  }

  /** The device-key handle held when the session was last New. */
  function KeyAtNew(s: Session, events: seq<Event>): Half
    requires forall e :: e in events ==> WellFormed(e)
  {
    if events == [] then s.devKeyHandle
    else
      var n := |events| - 1;
      var after := Handle(Play(s, events[..n]).session, events[n]).session;
      if after.step == New then after.devKeyHandle else KeyAtNew(s, events[..n])
  }

  /** The unicast address in the latest ProvComplete that the session acted on. */
  function CompletedAddress(s: Session, events: seq<Event>): Half
    requires forall e :: e in events ==> WellFormed(e)
  {
    if events == [] then 0
    else
      var n := |events| - 1;
      var e := events[n];
      assert WellFormed(e);
      if Play(s, events[..n]).session.step == Auth && e.Received? && TriggerOf(e.command).ProvComplete? then
        TriggerOf(e.command).address
      else CompletedAddress(s, events[..n])
  }

  lemma HandleReports(s: Session, e: Event)
    requires WellFormed(e)
    ensures var r := Handle(s, e).session;
      var waiting := s.step == DevKeyAddrPubAdd;
      && (waiting && KeyReport(e).Present? ==> r.step == s.step && r.devKeyHandle == KeyReport(e).handle)
      && (!(waiting && KeyReport(e).Present?) ==> r.devKeyHandle == s.devKeyHandle)
      && (waiting && PublicationReport(e).Present? ==> r.step == s.step && r.dstAddrHandle == PublicationReport(e).handle)
  {
    hide TriggerOf;
  }

  /**
   The device-key handle of a session is the one last reported to it before its link closed;
   without such a report, the one left over from earlier sessions stays in use.
   */
  lemma {:induction false} DeviceKeyOrigin(s: Session, events: seq<Event>)
    requires forall e :: e in events ==> WellFormed(e)
    ensures Play(s, events).session.devKeyHandle
         == match Reported(s, events, false) case Present(h) => h case Missing => KeyAtNew(s, events)
  {
    hide Handle, KeyReport;
    if events != [] {
      var n := |events| - 1;
      DeviceKeyOrigin(s, events[..n]);
      HandleReports(Play(s, events[..n]).session, events[n]);
    }
  }

  /** Whether the session has been provisioned. */
  predicate Provisioned(s: Session) {
    s.step == DevKeyAddrPubAdd || Configuring(s)
  }

  lemma HandleDestination(s: Session, e: Event)
    requires WellFormed(e)
    ensures var r := Handle(s, e).session;
      var completes := s.step == Auth && e.Received? && TriggerOf(e.command).ProvComplete?;
      && (completes ==> r.step == DevKeyAddrPubAdd && r.dstAddrHandle == TriggerOf(e.command).address)
      && (!completes && Provisioned(r) ==>
            && Provisioned(s)
            && (!(s.step == DevKeyAddrPubAdd && PublicationReport(e).Present?) ==> r.dstAddrHandle == s.dstAddrHandle))
  {
    hide TriggerOf;
  }

  /** Before the device has been provisioned nothing can have been reported. */
  lemma {:induction false} NothingReported(s: Session, events: seq<Event>, publication: bool)
    requires s.step == New && forall e :: e in events ==> WellFormed(e)
    ensures !Provisioned(Play(s, events).session) ==> Reported(s, events, publication) == Missing
  {
    hide Handle, KeyReport, PublicationReport, Provisioned;
    if events != [] {
      var n := |events| - 1;
      NothingReported(s, events[..n], publication);
      StaysProvisioned(Play(s, events[..n]).session, events[n]);
    }
  }

  lemma StaysProvisioned(s: Session, e: Event)
    requires WellFormed(e)
    ensures Provisioned(s) && Handle(s, e).session.step != New ==> Provisioned(Handle(s, e).session)
    ensures s.step == DevKeyAddrPubAdd ==> Provisioned(s)
  {
    hide TriggerOf;
  }

  function Destination(s: Session, events: seq<Event>): Half
    requires forall e :: e in events ==> WellFormed(e)
  {
    match Reported(s, events, true)
    case Present(h) => h
    case Missing => CompletedAddress(s, events)
  }

  /**
   The destination of a provisioned session is the publication handle last reported to it before
   its link closed; without such a report, it is the unicast address itself.
   */
  lemma {:induction false} DestinationOrigin(s: Session, events: seq<Event>)
    requires s.step == New && forall e :: e in events ==> WellFormed(e)
    ensures Provisioned(Play(s, events).session) ==> Play(s, events).session.dstAddrHandle == Destination(s, events)
  {
    if events == [] {
    } else {
      var n := |events| - 1;
      var before := Play(s, events[..n]).session;
      DestinationOrigin(s, events[..n]);
      NothingReported(s, events[..n], true);
      HandleReports(before, events[n]);
      HandleDestination(before, events[n]);
      NewNotProvisioned(Handle(before, events[n]).session);
      AuthNotProvisioned(before);
      hide Handle, TriggerOf, PublicationReport, Provisioned;
    }
  }

  lemma NewNotProvisioned(s: Session)
    ensures s.step == New ==> !Provisioned(s)
  {
  }

  lemma AuthNotProvisioned(s: Session)
    ensures s.step == Auth ==> !Provisioned(s)
  {
  }

  /** A frame with the given opcode and a payload of zeros. */
  function ZeroFrame(opcode: Byte): Event {
    Received(Command(opcode, 0, seq(BUFFER_SIZE, i => 0)))
  }

  lemma PlayOne(s: Session, events: seq<Event>, e: Event)
    requires (forall x :: x in events ==> WellFormed(x)) && WellFormed(e)
    ensures forall x :: x in events + [e] ==> WellFormed(x)
    ensures Play(s, events + [e]).session == Handle(Play(s, events).session, e).session
    ensures Play(s, events + [e]).sends == Play(s, events).sends + Handle(Play(s, events).session, e).sends
  {
    assert (events + [e])[..|events|] == events;
  }

  /** The handles that the configuration commands of a session carry. */
  function DeviceKey(s: Session, events: seq<Event>): Half
    requires forall e :: e in events ==> WellFormed(e)
  {
    match Reported(s, events, false)
    case Present(h) => h
    case Missing => KeyAtNew(s, events)
  }

  /**
   Every configuration command of a session, whenever it was sent, carries the device-key handle
   and the destination that were last reported to this session before its link closed; without a
   report, the left-over key handle and the plain unicast address.
   */
  lemma ConfiguredDevice(s: Session, events: seq<Event>, x: Send)
    requires s.step == New && forall e :: e in events ==> WellFormed(e)
    requires x in SessionSends(s, events) && IsConfig(x)
    ensures x.devKey == DeviceKey(s, events) && x.dst == Destination(s, events)
  {
    hide SessionSends, Play, Reported, KeyAtNew, CompletedAddress;
    OneTarget(s, events);
    DeviceKeyOrigin(s, events);
    DestinationOrigin(s, events);
  }

  // ----- a run with a left-over handle -----

  /** One event of the handshake moves one step on and leaves the key handle alone. */
  lemma ZeroSteps(s: Session)
    ensures var h := (opcode: Byte) => Handle(s, ZeroFrame(opcode));
      && (s.step == New ==> h(0xc0).session.step == Provision && h(0xc0).session.devKeyHandle == s.devKeyHandle)
      && (s.step == Provision ==> h(0xc3).session.step == OobUse && h(0xc3).session.devKeyHandle == s.devKeyHandle)
      && (s.step == OobUse ==> h(0xc7).session.step == Ecdh && h(0xc7).session.devKeyHandle == s.devKeyHandle)
      && (s.step == Ecdh ==> h(0xc6).session.step == Auth && h(0xc6).session.devKeyHandle == s.devKeyHandle)
      && (s.step == Auth ==> h(0xc5).session == s.(step := DevKeyAddrPubAdd, dstAddrHandle := 0))
      && (s.step == DevKeyAddrPubAdd ==>
            h(0xc2) == Reaction(s.(step := PsComposData), [CompositionDataGet(s.devKeyHandle, s.dstAddrHandle)]))
  {
    hide TriggerOf;
    ZeroTriggers();
  }

  /** A handshake up to ProvComplete. */
  function Handshake(): (e: seq<Event>)
    ensures forall x :: x in e ==> WellFormed(x) && KeyReport(x) == Missing
  {
    ZeroReports();
    [ZeroFrame(0xc0), ZeroFrame(0xc3), ZeroFrame(0xc7), ZeroFrame(0xc6), ZeroFrame(0xc5)]
  }

  lemma ZeroReports()
    ensures KeyReport(ZeroFrame(0xc0)) == KeyReport(ZeroFrame(0xc3)) == KeyReport(ZeroFrame(0xc7)) == Missing
    ensures KeyReport(ZeroFrame(0xc6)) == KeyReport(ZeroFrame(0xc5)) == KeyReport(ZeroFrame(0xc2)) == Missing
  {
    hide TriggerOf;
    ZeroTriggers();
  }

  lemma HandshakeDone(s: Session)
    requires s.step == New
    ensures var r := Play(s, Handshake()).session;
      r.step == DevKeyAddrPubAdd && r.devKeyHandle == s.devKeyHandle && r.dstAddrHandle == 0
  {
    hide Play, Handle, ZeroFrame;
    var e: seq<Event> := [];
    PlayNothing(s);
    var frames := [ZeroFrame(0xc0), ZeroFrame(0xc3), ZeroFrame(0xc7), ZeroFrame(0xc6), ZeroFrame(0xc5)];
    assert frames == Handshake();
    var i := 0;
    while i < 5
      invariant 0 <= i <= 5 && forall x :: x in frames[..i] ==> WellFormed(x)
      invariant var r := Play(s, frames[..i]).session;
        && r.step == [New, Provision, OobUse, Ecdh, Auth, DevKeyAddrPubAdd][i] && r.devKeyHandle == s.devKeyHandle
        && (i == 5 ==> r.dstAddrHandle == 0)
    {
      assert frames[..i + 1] == frames[..i] + [frames[i]];
      ZeroSteps(Play(s, frames[..i]).session);
      PlayOne(s, frames[..i], frames[i]);
      i := i + 1;
    }
    assert frames[..5] == frames;
  }

  /** The witness: the link closes before the responses, and neither handle is one. */
  lemma StaleHandlesUsed(s: Session)
    requires s.step == New
    ensures forall x :: x in Handshake() + [ZeroFrame(0xc2)] ==> WellFormed(x)
    ensures var r := Play(s, Handshake() + [ZeroFrame(0xc2)]);
      r.session.step == PsComposData && r.sends != [] && r.sends[|r.sends| - 1] == CompositionDataGet(s.devKeyHandle, 0)
  {
    HandshakeDone(s);
    hide Play, Handle;
    ZeroSteps(Play(s, Handshake()).session);
    PlayOne(s, Handshake(), ZeroFrame(0xc2));
  }

  const INITIAL: Session := Session(New, 0, 0, 0, 0, FIRST_ADDRESS)

  /** The response that reports the device-key handle h. */
  function KeyFrame(h: Half): Event {
    Received(Command(0x84, 4, seq(BUFFER_SIZE, i => if i == 0 then 0x9c else if i == 2 then h % 256 else if i == 3 then h / 256 else 0)))
  }

  lemma KeyFrameReports(h: Half)
    ensures WellFormed(KeyFrame(h)) && KeyReport(KeyFrame(h)) == Present(h)
    ensures TriggerOf(KeyFrame(h).command) == DevKeyHandle(h)
  {
  }

  /** A first device: its handle is reported, and after the link has closed the scan is started again. */
  function FirstDevice(h: Half): (e: seq<Event>)
    ensures forall x :: x in e ==> WellFormed(x)
  {
    KeyFrameReports(h);
    Handshake() + [KeyFrame(h)] + [ZeroFrame(0xc2)] + [ScanKey]
  }

  lemma FirstDeviceDone(h: Half)
    ensures var r := Play(INITIAL, FirstDevice(h)).session; r.step == New && r.devKeyHandle == h
    ensures Reported(INITIAL, FirstDevice(h), false) == Missing
  {
    var a := Handshake();
    HandshakeDone(INITIAL);
    KeyFrameReports(h);
    hide Play, TriggerOf, KeyFrame, ZeroFrame, Handshake;
    PlayOne(INITIAL, a, KeyFrame(h));
    hide Handle;
    HandleReports(Play(INITIAL, a).session, KeyFrame(h));
    var b := a + [KeyFrame(h)];
    ZeroSteps(Play(INITIAL, b).session);
    PlayOne(INITIAL, b, ZeroFrame(0xc2));
    var c := b + [ZeroFrame(0xc2)];
    PlayOne(INITIAL, c, ScanKey);
    ScanKeyRestarts(Play(INITIAL, c).session);
    ReportedAtNew(INITIAL, c, ScanKey);
  }

  lemma ScanKeyRestarts(s: Session)
    ensures Handle(s, ScanKey).session == s.(step := New)
  {
  }

  /** A return to New forgets what was reported. */
  lemma ReportedAtNew(s: Session, events: seq<Event>, e: Event)
    requires (forall x :: x in events ==> WellFormed(x)) && WellFormed(e) && Handle(Play(s, events).session, e).session.step == New
    ensures forall x :: x in events + [e] ==> WellFormed(x)
    ensures Reported(s, events + [e], false) == Missing
  {
    assert (events + [e])[..|events|] == events;
  }

  lemma {:induction false} PlayAppend(s: Session, a: seq<Event>, b: seq<Event>)
    requires (forall x :: x in a ==> WellFormed(x)) && (forall x :: x in b ==> WellFormed(x))
    ensures forall x :: x in a + b ==> WellFormed(x)
    ensures Play(s, a + b).session == Play(Play(s, a).session, b).session
    ensures Play(s, a + b).sends == Play(s, a).sends + Play(Play(s, a).session, b).sends
    decreases |b|
  {
    hide Handle, Play;
    if b == [] {
      assert a + b == a;
      PlayNothing(Play(s, a).session);
    } else {
      var n := |b| - 1;
      var c, e := b[..n], b[n];
      PlayAppend(s, a, c);
      assert a + b == (a + c) + [e] && b == c + [e];
      PlayOne(s, a + c, e);
      PlayOne(Play(s, a).session, c, e);
      Regrouped(Play(s, a).sends, Play(Play(s, a).session, c).sends, Handle(Play(s, a + c).session, e).sends);
    }
  }

  lemma Regrouped(a: seq<Send>, b: seq<Send>, c: seq<Send>)
    ensures (a + b) + c == a + (b + c)
  {
  }

  /** Events that report nothing leave nothing reported. */
  lemma {:induction false} StillMissing(s: Session, a: seq<Event>, b: seq<Event>)
    requires (forall x :: x in a ==> WellFormed(x)) && (forall x :: x in b ==> WellFormed(x) && KeyReport(x) == Missing)
    requires Reported(s, a, false) == Missing
    ensures forall x :: x in a + b ==> WellFormed(x)
    ensures Reported(s, a + b, false) == Missing
    decreases |b|
  {
    hide Handle, KeyReport;
    if b == [] {
      assert a + b == a;
    } else {
      var n := |b| - 1;
      StillMissing(s, a, b[..n]);
      assert (a + b)[..|a + b| - 1] == a + b[..n] && (a + b)[|a + b| - 1] == b[n];
    }
  }

  /**
   From the initial state on: the handle reported for a first device goes out to the second one,
   to which no handle was reported at all.
   */
  lemma EarlierHandleUsed(h: Half)
    ensures forall x :: x in FirstDevice(h) + (Handshake() + [ZeroFrame(0xc2)]) ==> WellFormed(x)
    ensures var events := FirstDevice(h) + (Handshake() + [ZeroFrame(0xc2)]);
      var sends := Play(INITIAL, events).sends;
      && Reported(INITIAL, events, false) == Missing
      && sends != [] && sends[|sends| - 1] == CompositionDataGet(h, 0)
  {
    FirstDeviceDone(h);
    ZeroReports();
    var a, b := FirstDevice(h), Handshake() + [ZeroFrame(0xc2)];
    hide Play, Reported, FirstDevice, Handshake, ZeroFrame;
    StaleHandlesUsed(Play(INITIAL, a).session);
    PlayAppend(INITIAL, a, b);
    StillMissing(INITIAL, a, b);
  }

  lemma ZeroTriggers()
    ensures var t := (opcode: Byte) => TriggerOf(Command(opcode, 0, seq(BUFFER_SIZE, i => 0)));
      t(0xc0).Unprovisioned? && t(0xc3).CapsReceived? && t(0xc7).EcdhRequest? && t(0xc6).AuthRequest?
      && t(0xc5).ProvComplete? && t(0xc5).address == 0 && t(0xc2).LinkClosed?
  {
  }

  lemma PlayNothing(s: Session)
    ensures Play(s, []) == Reaction(s, [])
  {
  }

  // ----- the packets of a run -----

  lemma HandleSized(s: Session, e: Event)
    requires WellFormed(e)
    ensures forall i :: 0 <= i < |Handle(s, e).sends| ==> WellSized(Handle(s, e).sends[i])
  {
    if e.Received? {
      TriggerSized(e.command);
      hide TriggerOf;
    }
  }

  lemma TriggerSized(c: Command)
    requires |c.data| == BUFFER_SIZE
    ensures TriggerOf(c).Unprovisioned? ==> |TriggerOf(c).uuid| == 16
    ensures TriggerOf(c).ProvComplete? ==> |TriggerOf(c).key| == 16
  {
  }

  /** Every command of every run has a packet that fits a frame, so that its bytes can be read back. */
  lemma {:induction false} RunSized(s: Session, events: seq<Event>)
    requires forall e :: e in events ==> WellFormed(e)
    ensures forall i :: 0 <= i < |Play(s, events).sends| ==> WellSized(Play(s, events).sends[i])
  {
    hide Handle, WellSized;
    if events != [] {
      var n := |events| - 1;
      RunSized(s, events[..n]);
      HandleSized(Play(s, events[..n]).session, events[n]);
    }
  }

  /** Two runs that write the same bytes sent the same commands, up to the inputs of the shared secrets. */
  lemma WireTellsRun(s: Session, a: seq<Event>, x: seq<seq<Byte>>, t: Session, b: seq<Event>, y: seq<seq<Byte>>)
    requires (forall e :: e in a ==> WellFormed(e)) && (forall e :: e in b ==> WellFormed(e))
    requires Sendable(Play(s, a).sends, x) && Sendable(Play(t, b).sends, y)
    requires WriteAll(Packets(Play(s, a).sends, x)) == WriteAll(Packets(Play(t, b).sends, y))
    ensures |Play(s, a).sends| == |Play(t, b).sends|
    ensures forall i :: 0 <= i < |Play(s, a).sends| ==> Alike(Play(s, a).sends[i], Play(t, b).sends[i])
  {
    hide Play, Packets, Sendable, WriteAll, Alike;
    WireTellsCommands(Play(s, a).sends, x, Play(t, b).sends, y);
  }
}
