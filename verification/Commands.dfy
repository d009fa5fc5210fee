/**
 The commands the gateway sends to its device, and the packets that carry them. A packet is
 determined by the fields that depend on the run and by the constants of the network.
 */
module Commands {
  import opened Bytes
  import opened Serial

  type Half = h: int | 0 <= h < 0x1_0000

  /** A command, with the fields that depend on the run. */
  datatype Send =
    | ScanStart
    | ScanStop
    | ProvProvision(uuid: seq<Byte>, address: Half)
    | ProvOobUse(context: Byte, action: Byte, size: Byte)
    | ProvEcdhSecret(context: Byte, peerPublic: seq<Byte>, nodePrivate: seq<Byte>)
    | ProvAuthData(context: Byte)
    | DevKeyAdd(owner: Half, subnet: Half, key: seq<Byte>)
    | AddrPublicationAdd(publication: Half)
    | CompositionDataGet(devKey: Half, dst: Half)
    | ConfigAppKeyAdd(devKey: Half, dst: Half)
    | ConfigModelAppBind(devKey: Half, dst: Half)
    | ConfigPublicationSet(devKey: Half, dst: Half)
    | AddrLocalUnicastSet
    | SubnetAdd
    | LocalAppKeyAdd(index: Half, subnet: Half)

  const NETWORK_KEY: seq<Byte> := [0x18, 0xee, 0xd9, 0xc2, 0xa5, 0x6a, 0xdd, 0x85, 0x04, 0x9f, 0xfc, 0x3c, 0x59, 0xad, 0x0e, 0x12]
  const DATA_AUTHENTICATION: seq<Byte> := [0x6e, 0x6f, 0x72, 0x64, 0x69, 0x63, 0x5f, 0x65, 0x78, 0x61, 0x6d, 0x70, 0x6c, 0x65, 0x5f, 0x31]
  const APP_KEY: seq<Byte> := [0x4f, 0x68, 0xad, 0x85, 0xd9, 0xf4, 0x8a, 0xc8, 0x58, 0x9d, 0xf6, 0x65, 0xb6, 0xb4, 0x9b, 0x8a]
  const APP_KEY2: seq<Byte> := [0x2a, 0xa2, 0xa6, 0xde, 0xd5, 0xa0, 0x79, 0x8c, 0xea, 0xb5, 0x78, 0x7c, 0xa3, 0xae, 0x39, 0xfc]
  const SRC_ADDR: Half := 0x0001
  const NET_KEY_ID: Half := 0x0000

  /** A 16-bit field of a packed structure. */
  function Le(h: Half): seq<Byte> { [h % 256, h / 256] }

  /** The 16-bit field at an index, low byte first. */
  predicate HalfAt(data: seq<Byte>, at: nat, h: Half) {
    at + 2 <= |data| && data[at] == h % 256 && data[at + 1] == h / 256
  }

  /** The header of a mesh packet, followed by its message. The length field is not transmitted. */
  function MeshPacket(devKey: Half, dst: Half, message: seq<Byte>): Frame {
    Frame(0xab, Le(devKey) + Le(SRC_ADDR) + Le(dst) + [0x08, 0x00, 0x00, 0x00] + message)
  }

  predicate IsConfig(s: Send) {
    s.CompositionDataGet? || s.ConfigAppKeyAdd? || s.ConfigModelAppBind? || s.ConfigPublicationSet?
  }

  /** The message of a configuration command; the four have different lengths. */
  function Message(s: Send): (m: seq<Byte>)
    requires IsConfig(s)
    ensures |m| == if s.CompositionDataGet? then 3 else if s.ConfigAppKeyAdd? then 20 else if s.ConfigModelAppBind? then 8 else 12
  {
    match s
    case CompositionDataGet(_, _) => [0x80, 0x08, 0x00]
    case ConfigAppKeyAdd(_, _) => [0x00, 0x00, 0x00, 0x00] + APP_KEY
    case ConfigModelAppBind(_, _) => [0x80, 0x3d, 0x1a, 0x00, 0x00, 0x00, 0x00, 0x10]
    case ConfigPublicationSet(_, _) => [0x03, 0x1a, 0x00, 0x01, 0x00, 0x00, 0x00, 0x01, 0x00, 0x00, 0x00, 0x10]
  }

  /** The packet of a command; the secret is what ble_ECDHSecret computed. */
  function Packet(s: Send, secret: seq<Byte>): Frame {
    match s
    case ScanStart => Frame(0xd0, [])
    case ScanStop => Frame(0x62, [])
    case ProvProvision(uuid, address) =>
      Frame(0x63, [0x00] + uuid + NETWORK_KEY + Le(NET_KEY_ID) + [0x00, 0x00, 0x00, 0x00] + Le(address) + [0x00, 0x00, 0x00])
    case ProvOobUse(context, action, size) => Frame(0x66, [context, 0x01, action, size])
    case ProvEcdhSecret(context, _, _) => Frame(0x68, [context] + secret)
    case ProvAuthData(context) => Frame(0x67, [context] + DATA_AUTHENTICATION)
    case DevKeyAdd(owner, subnet, key) => Frame(0x9c, Le(owner) + Le(subnet) + key)
    case AddrPublicationAdd(publication) => Frame(0xa4, Le(publication))
    case CompositionDataGet(devKey, dst) => MeshPacket(devKey, dst, Message(s))
    case ConfigAppKeyAdd(devKey, dst) => MeshPacket(devKey, dst, Message(s))
    case ConfigModelAppBind(devKey, dst) => MeshPacket(devKey, dst, Message(s))
    case ConfigPublicationSet(devKey, dst) => MeshPacket(devKey, dst, Message(s))
    case AddrLocalUnicastSet => Frame(0x9f, Le(0x0001) + Le(0x0001))
    case SubnetAdd => Frame(0x92, Le(NET_KEY_ID) + NETWORK_KEY)
    case LocalAppKeyAdd(index, subnet) => Frame(0x97, Le(index) + Le(subnet) + if index == 0 then APP_KEY else APP_KEY2)
  }

  /** The sizes of the fields that are copied from events. */
  predicate WellSized(s: Send) {
    match s
    case ProvProvision(uuid, _) => |uuid| == 16
    case DevKeyAdd(_, _, key) => |key| == 16
    case _ => true
  }

  /** What two commands that look alike on the wire have in common: everything but the inputs of the secret. */
  predicate Alike(a: Send, b: Send) {
    if a.ProvEcdhSecret? && b.ProvEcdhSecret? then a.context == b.context else a == b
  }

  lemma LeInjective(a: Half, b: Half)
    requires Le(a) == Le(b)
    ensures a == b
  {
    assert a % 256 == Le(a)[0] == Le(b)[0] && a / 256 == Le(a)[1] == Le(b)[1];
  }

  /** The fields of a packet, from its bytes. */
  lemma FieldsAt(p: seq<Byte>, a: seq<Byte>, b: seq<Byte>)
    requires p == a + b
    ensures p[..|a|] == a && p[|a|..] == b
  {
  }

  lemma SameFields(a: seq<Byte>, b: seq<Byte>, c: seq<Byte>, d: seq<Byte>)
    requires |a| == |c| && a + b == c + d
    ensures a == c && b == d
  {
    FieldsAt(a + b, a, b);
    FieldsAt(c + d, c, d);
  }

  lemma MeshPacketInjective(k: Half, d: Half, m: seq<Byte>, k1: Half, d1: Half, m1: seq<Byte>)
    requires MeshPacket(k, d, m) == MeshPacket(k1, d1, m1)
    ensures k == k1 && d == d1 && m == m1
  {
    var t: seq<Byte> := [0x08, 0x00, 0x00, 0x00];
    hide Le;
    LeSize(k);
    LeSize(d);
    LeSize(k1);
    LeSize(d1);
    LeSize(SRC_ADDR);
    SameFields(Le(k) + Le(SRC_ADDR) + Le(d) + t, m, Le(k1) + Le(SRC_ADDR) + Le(d1) + t, m1);
    SameFields(Le(k) + Le(SRC_ADDR) + Le(d), t, Le(k1) + Le(SRC_ADDR) + Le(d1), t);
    SameFields(Le(k) + Le(SRC_ADDR), Le(d), Le(k1) + Le(SRC_ADDR), Le(d1));
    SameFields(Le(k), Le(SRC_ADDR), Le(k1), Le(SRC_ADDR));
    LeInjective(k, k1);
    LeInjective(d, d1);
  }

  lemma LeSize(h: Half)
    ensures |Le(h)| == 2
  {
  }

  lemma ProvisionInjective(u: seq<Byte>, a: Half, u1: seq<Byte>, a1: Half)
    requires |u| == |u1| == 16 && Packet(ProvProvision(u, a), []) == Packet(ProvProvision(u1, a1), [])
    ensures u == u1 && a == a1
  {
    var h: seq<Byte>, t: seq<Byte>, z: seq<Byte> := [0x00], [0x00, 0x00, 0x00, 0x00], [0x00, 0x00, 0x00];
    var n := Le(NET_KEY_ID);
    hide Le;
    LeSize(a);
    LeSize(a1);
    SameFields(h + u + NETWORK_KEY + n + t + Le(a), z, h + u1 + NETWORK_KEY + n + t + Le(a1), z);
    SameFields(h + u + NETWORK_KEY + n + t, Le(a), h + u1 + NETWORK_KEY + n + t, Le(a1));
    SameFields(h + u + NETWORK_KEY + n, t, h + u1 + NETWORK_KEY + n, t);
    SameFields(h + u + NETWORK_KEY, n, h + u1 + NETWORK_KEY, n);
    SameFields(h + u, NETWORK_KEY, h + u1, NETWORK_KEY);
    SameFields(h, u, h, u1);
    LeInjective(a, a1);
  }

  lemma PairInjective(a: Half, b: Half, k: seq<Byte>, a1: Half, b1: Half, k1: seq<Byte>)
    requires Le(a) + Le(b) + k == Le(a1) + Le(b1) + k1
    ensures a == a1 && b == b1 && k == k1
  {
    hide Le;
    LeSize(a);
    LeSize(b);
    LeSize(a1);
    LeSize(b1);
    SameFields(Le(a) + Le(b), k, Le(a1) + Le(b1), k1);
    SameFields(Le(a), Le(b), Le(a1), Le(b1));
    LeInjective(a, a1);
    LeInjective(b, b1);
  }

  /** Mesh packets are the only ones with their opcode, and all other kinds of command have one of their own. */
  lemma OpcodeTells(a: Send, x: seq<Byte>, b: Send, y: seq<Byte>)
    requires Packet(a, x).opcode == Packet(b, y).opcode
    ensures IsConfig(a) <==> IsConfig(b)
    ensures !IsConfig(a) ==>
      && a.ScanStart? == b.ScanStart? && a.ScanStop? == b.ScanStop? && a.ProvProvision? == b.ProvProvision?
      && a.ProvOobUse? == b.ProvOobUse? && a.ProvEcdhSecret? == b.ProvEcdhSecret? && a.ProvAuthData? == b.ProvAuthData?
      && a.DevKeyAdd? == b.DevKeyAdd? && a.AddrPublicationAdd? == b.AddrPublicationAdd?
      && a.AddrLocalUnicastSet? == b.AddrLocalUnicastSet? && a.SubnetAdd? == b.SubnetAdd? && a.LocalAppKeyAdd? == b.LocalAppKeyAdd?
  {
  }

  /** A packet determines its command. */
  lemma PacketInjective(a: Send, x: seq<Byte>, b: Send, y: seq<Byte>)
    requires WellSized(a) && WellSized(b) && Packet(a, x) == Packet(b, y)
    ensures Alike(a, b) && (a.ProvEcdhSecret? ==> x == y)
  {
    OpcodeTells(a, x, b, y);
    if IsConfig(a) {
      MeshPacketInjective(a.devKey, a.dst, Message(a), b.devKey, b.dst, Message(b));
    } else {
      hide MeshPacket, Le;
      match a
      case ProvProvision(u, n) =>
        ProvisionInjective(u, n, b.uuid, b.address);
      case ProvOobUse(c, d, e) =>
        var p := [c, 0x01, d, e];
        assert p[0] == c && p[2] == d && p[3] == e;
      case ProvEcdhSecret(c, _, _) =>
        SameFields([c], x, [b.context], y);
      case ProvAuthData(c) =>
        SameFields([c], DATA_AUTHENTICATION, [b.context], DATA_AUTHENTICATION);
      case DevKeyAdd(o, n, k) =>
        PairInjective(o, n, k, b.owner, b.subnet, b.key);
      case AddrPublicationAdd(n) =>
        LeInjective(n, b.publication);
      case LocalAppKeyAdd(i, n) =>
        PairInjective(i, n, if i == 0 then APP_KEY else APP_KEY2, b.index, b.subnet, if b.index == 0 then APP_KEY else APP_KEY2);
      case _ =>
    }
  }

  /** A packet fits a frame. */
  lemma PacketFits(s: Send, secret: seq<Byte>)
    requires WellSized(s) && |secret| <= 253
    ensures |Packet(s, secret).payload| <= 254
  {
  }

  // ----- where the fields are -----

  /** Low byte first. */
  lemma LowByteFirst()
    ensures HalfAt([0x34, 0x12], 0, 0x1234) && Le(0x1234) == [0x34, 0x12]
  {
  }

  lemma HalfValue(data: seq<Byte>, at: nat, h: Half)
    ensures HalfAt(data, at, h) <==> at + 2 <= |data| && (data[at] as int) + 256 * (data[at + 1] as int) == h
  {
  }

  lemma ProvisionLayout(uuid: seq<Byte>, address: Half, secret: seq<Byte>)
    requires |uuid| == 16
    ensures var f := Packet(ProvProvision(uuid, address), secret);
      var p := f.payload;
      && f.opcode == 0x63 && |p| == 44
      && p[0] == 0x00 && p[1..17] == uuid && p[17..33] == NETWORK_KEY
      && p[33..39] == [0x00, 0x00, 0x00, 0x00, 0x00, 0x00] && HalfAt(p, 39, address) && p[41..] == [0x00, 0x00, 0x00]
  {
  }

  lemma DevKeyLayout(owner: Half, subnet: Half, key: seq<Byte>, secret: seq<Byte>)
    requires |key| == 16
    ensures var f := Packet(DevKeyAdd(owner, subnet, key), secret);
      var p := f.payload;
      f.opcode == 0x9c && |p| == 20 && HalfAt(p, 0, owner) && HalfAt(p, 2, subnet) && p[4..] == key
  {
  }

  /** The two application keys of the network, by index. */
  lemma AppKeyLayout(index: Half, subnet: Half, secret: seq<Byte>)
    ensures var f := Packet(LocalAppKeyAdd(index, subnet), secret);
      var p := f.payload;
      && f.opcode == 0x97 && |p| == 20 && HalfAt(p, 0, index) && HalfAt(p, 2, subnet)
      && (index == 0 ==> p[4..] == APP_KEY) && (index == 1 ==> p[4..] == APP_KEY2)
  {
  }

  /** Device key, source address 1, destination, hop limit 8, three zero flags, and the message. */
  lemma MeshLayout(s: Send, secret: seq<Byte>)
    requires IsConfig(s)
    ensures var f := Packet(s, secret);
      var p := f.payload;
      && f.opcode == 0xab && |p| == 10 + |Message(s)|
      && HalfAt(p, 0, s.devKey) && HalfAt(p, 2, 0x0001) && HalfAt(p, 4, s.dst)
      && p[6..10] == [0x08, 0x00, 0x00, 0x00] && p[10..] == Message(s)
    ensures s.CompositionDataGet? ==> Message(s) == [0x80, 0x08, 0x00]
    ensures s.ConfigAppKeyAdd? ==> Message(s)[..4] == [0x00, 0x00, 0x00, 0x00] && Message(s)[4..] == APP_KEY
    ensures s.ConfigModelAppBind? ==> Message(s) == [0x80, 0x3d, 0x1a, 0x00, 0x00, 0x00, 0x00, 0x10]
    ensures s.ConfigPublicationSet? ==>
      Message(s) == [0x03, 0x1a, 0x00, 0x01, 0x00, 0x00, 0x00, 0x01, 0x00, 0x00, 0x00, 0x10]
  {
    hide Message;
    var m := Message(s);
    MessageBytes(s);
    assert Packet(s, secret) == MeshPacket(s.devKey, s.dst, m);
    MeshFields(s.devKey, s.dst, m);
  }

  lemma MessageBytes(s: Send)
    requires IsConfig(s)
    ensures s.CompositionDataGet? ==> Message(s) == [0x80, 0x08, 0x00]
    ensures s.ConfigAppKeyAdd? ==> Message(s)[..4] == [0x00, 0x00, 0x00, 0x00] && Message(s)[4..] == APP_KEY
    ensures s.ConfigModelAppBind? ==> Message(s) == [0x80, 0x3d, 0x1a, 0x00, 0x00, 0x00, 0x00, 0x10]
    ensures s.ConfigPublicationSet? ==>
      Message(s) == [0x03, 0x1a, 0x00, 0x01, 0x00, 0x00, 0x00, 0x01, 0x00, 0x00, 0x00, 0x10]
  {
  }

  lemma MeshFields(devKey: Half, dst: Half, m: seq<Byte>)
    ensures var p := MeshPacket(devKey, dst, m).payload;
      && |p| == 10 + |m| && HalfAt(p, 0, devKey) && HalfAt(p, 2, 0x0001) && HalfAt(p, 4, dst)
      && p[6..10] == [0x08, 0x00, 0x00, 0x00] && p[10..] == m
  {
  }

  /** The short packets. */
  lemma ShortLayouts(context: Byte, action: Byte, size: Byte, peer: seq<Byte>, node: seq<Byte>, address: Half, secret: seq<Byte>)
    ensures Packet(ScanStart, secret) == Frame(0xd0, []) && Packet(ScanStop, secret) == Frame(0x62, [])
    ensures Packet(ProvOobUse(context, action, size), secret) == Frame(0x66, [context, 0x01, action, size])
    ensures Packet(ProvEcdhSecret(context, peer, node), secret) == Frame(0x68, [context] + secret)
    ensures Packet(ProvAuthData(context), secret) == Frame(0x67, [context] + DATA_AUTHENTICATION)
    ensures Packet(AddrPublicationAdd(address), secret).opcode == 0xa4
    ensures |Packet(AddrPublicationAdd(address), secret).payload| == 2 && HalfAt(Packet(AddrPublicationAdd(address), secret).payload, 0, address)
    ensures Packet(AddrLocalUnicastSet, secret) == Frame(0x9f, [0x01, 0x00, 0x01, 0x00])
    ensures Packet(SubnetAdd, secret) == Frame(0x92, [0x00, 0x00] + NETWORK_KEY)
  {
  }

  // ----- the bytes of a sequence of commands -----

  ghost predicate Sendable(sends: seq<Send>, secrets: seq<seq<Byte>>) {
    && |secrets| == |sends|
    && (forall i :: 0 <= i < |sends| ==> WellSized(sends[i]))
    && (forall i :: 0 <= i < |secrets| ==> |secrets[i]| <= 253)
  }

  /** The frames of the commands, in order. */
  ghost function Packets(sends: seq<Send>, secrets: seq<seq<Byte>>): (f: seq<Frame>)
    requires Sendable(sends, secrets)
    ensures |f| == |sends| && forall i :: 0 <= i < |f| ==> |f[i].payload| <= 254 && f[i] == Packet(sends[i], secrets[i])
  {
    if sends == [] then []
    else
      PacketFits(sends[0], secrets[0]);
      [Packet(sends[0], secrets[0])] + Packets(sends[1..], secrets[1..])
  }

  /** Written frames can be told apart: the bytes determine the list. */
  lemma {:induction false} WrittenApart(f: seq<Frame>, g: seq<Frame>)
    requires (forall x :: x in f ==> |x.payload| <= 254) && (forall x :: x in g ==> |x.payload| <= 254)
    requires WriteAll(f) == WriteAll(g)
    ensures f == g
  {
    if f == [] || g == [] {
      if f != [] { WriteNonEmpty(f); }
      if g != [] { WriteNonEmpty(g); }
    } else {
      var a, b := f[0], g[0];
      var x, y := Encode(a.opcode, a.payload), Encode(b.opcode, b.payload);
      var bytes := WriteAll(f);
      assert bytes == x + WriteAll(f[1..]) && bytes == y + WriteAll(g[1..]);
      assert bytes[0] == 1 + |a.payload| == 1 + |b.payload| && bytes[1] == a.opcode == b.opcode;
      SameFields(x, WriteAll(f[1..]), y, WriteAll(g[1..]));
      assert x[2..] == a.payload && y[2..] == b.payload;
      WrittenApart(f[1..], g[1..]);
      assert f == [a] + f[1..] && g == [b] + g[1..];
    }
  }

  /** The bytes on the wire determine the commands, up to the inputs of the shared secrets. */
  lemma WireTellsCommands(a: seq<Send>, x: seq<seq<Byte>>, b: seq<Send>, y: seq<seq<Byte>>)
    requires Sendable(a, x) && Sendable(b, y) && WriteAll(Packets(a, x)) == WriteAll(Packets(b, y))
    ensures |a| == |b| && forall i :: 0 <= i < |a| ==> Alike(a[i], b[i])
  {
    hide WriteAll, Packet, Alike, WellSized;
    WrittenApart(Packets(a, x), Packets(b, y));
    forall i | 0 <= i < |a|
      ensures Alike(a[i], b[i])
    {
      assert Packets(a, x)[i] == Packets(b, y)[i];
      PacketInjective(a[i], x[i], b[i], y[i]);
    }
  }
}
