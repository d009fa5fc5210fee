/**
 The serial framing: a length byte, an opcode byte and the payload. The parser works on reads of
 any size; its meaning is a machine that takes one byte at a time.
 */
module Serial {
  import opened Bytes

  const BUFFER_SIZE: nat := 256

  datatype Phase = Len | Opcode | Data | Broken

  /**
   The parser between two bytes. Broken stands for what follows a length byte of zero, where the
   source copies a negative number of bytes.
   */
  datatype State = State(phase: Phase, opcode: Byte, len: int, pos: int, data: seq<Byte>) {
    predicate Valid() {
      && |data| == BUFFER_SIZE
      && (phase == Len || phase == Opcode || phase == Data ==> 0 <= pos <= len <= 254)
      && (phase == Opcode ==> pos == 0)
    }

    /** A frame with an empty payload has been read, but not yet reported. */
    predicate Pending() {
      phase == Data && pos == len
    }
  }

  /** What the handler of a complete frame sees: the whole buffer, of which len bytes are fresh. */
  datatype Command = Command(opcode: Byte, len: int, data: seq<Byte>)

  datatype Outcome = Outcome(state: State, commands: seq<Command>)

  function CommandOf(s: State): Command {
    Command(s.opcode, s.len, s.data)
  }

  /** Reporting a pending frame. */
  function Flush(s: State): Outcome {
    if s.Pending() then Outcome(s.(phase := Len), [CommandOf(s)]) else Outcome(s, [])
  }

  /** Taking one byte when no frame is pending. */
  function Take(s: State, b: Byte): Outcome
    requires s.Valid() && !s.Pending()
  {
    match s.phase
    case Len => if b == 0 then Outcome(s.(phase := Broken), []) else Outcome(s.(phase := Opcode, len := b - 1, pos := 0), [])
    case Opcode => Outcome(s.(phase := Data, opcode := b), [])
    case Data =>
      var t := s.(data := s.data[s.pos := b], pos := s.pos + 1);
      if t.pos == t.len then Outcome(t.(phase := Len), [CommandOf(t)]) else Outcome(t, [])
    case Broken => Outcome(s, [])
  }

  function Feed(s: State, b: Byte): (r: Outcome)
    requires s.Valid()
    ensures r.state.Valid()
  {
    var f := Flush(s);
    var t := Take(f.state, b);
    Outcome(t.state, f.commands + t.commands)
  }

  /** A whole byte string, one byte at a time. */
  function Run(s: State, bytes: seq<Byte>): (r: Outcome)
    requires s.Valid()
    ensures r.state.Valid()
    decreases |bytes|
  {
    if bytes == [] then Outcome(s, [])
    else
      var f := Feed(s, bytes[0]);
      var r := Run(f.state, bytes[1..]);
      Outcome(r.state, f.commands + r.commands)
  }

  /** Splitting the bytes does not change what is parsed. */
  lemma {:induction false} RunAppend(s: State, a: seq<Byte>, b: seq<Byte>)
    requires s.Valid()
    ensures var r := Run(s, a);
      Run(s, a + b) == Outcome(Run(r.state, b).state, r.commands + Run(r.state, b).commands)
    decreases |a|
  {
    hide Feed;
    if a == [] {
      assert a + b == b;
    } else {
      assert (a + b)[0] == a[0] && (a + b)[1..] == a[1..] + b;
      var f := Feed(s, a[0]);
      var r := Run(f.state, a[1..]);
      RunAppend(f.state, a[1..], b);
      assert f.commands + (r.commands + Run(r.state, b).commands) == (f.commands + r.commands) + Run(r.state, b).commands;
    }
  }

  lemma {:induction false} BrokenStays(s: State, bytes: seq<Byte>)
    requires s.Valid() && s.phase == Broken
    ensures Run(s, bytes) == Outcome(s, [])
    decreases |bytes|
  {
    if bytes != [] { BrokenStays(s, bytes[1..]); }
  }

  /** A length byte and an opcode byte, read one at a time. */
  lemma LenByte(s: State, bytes: seq<Byte>)
    requires s.Valid() && s.phase == Len && bytes != [] && Run(s, bytes).state.phase != Broken
    ensures bytes[0] != 0 && Run(s, bytes) == Run(s.(phase := Opcode, len := bytes[0] - 1, pos := 0), bytes[1..])
  {
    hide Run;
    QuietByte(s, bytes);
    if bytes[0] == 0 { BrokenStays(s.(phase := Broken), bytes[1..]); }
  }

  lemma OpcodeByte(s: State, bytes: seq<Byte>)
    requires s.Valid() && s.phase == Opcode && bytes != []
    ensures Run(s, bytes) == Run(s.(phase := Data, opcode := bytes[0]), bytes[1..])
  {
    hide Run;
    QuietByte(s, bytes);
  }

  /** A byte that completes no frame. */
  lemma {:induction false} QuietByte(s: State, bytes: seq<Byte>)
    requires s.Valid() && bytes != [] && Feed(s, bytes[0]).commands == []
    ensures Run(s, bytes) == Run(Feed(s, bytes[0]).state, bytes[1..])
  {
    hide Feed;
    var f := Feed(s, bytes[0]);
    var r := Run(f.state, bytes[1..]);
    assert Run(s, bytes) == Outcome(r.state, f.commands + r.commands);
    assert f.commands + r.commands == r.commands;
  }

  // ----- the parser loop -----

  /** The state after memcpy of some payload bytes. */
  function Copied(s: State, bytes: seq<Byte>): State
    requires s.Valid() && s.phase == Data && |bytes| <= s.len - s.pos
  {
    s.(data := s.data[..s.pos] + bytes + s.data[s.pos + |bytes|..], pos := s.pos + |bytes|)
  }

  lemma CopiedElements(was: seq<Byte>, now: seq<Byte>, at: nat, bytes: seq<Byte>)
    requires |was| == |now| && at + |bytes| <= |was|
    requires forall j :: at <= j < at + |bytes| ==> now[j] == bytes[j - at]
    requires forall j :: 0 <= j < at || at + |bytes| <= j < |was| ==> now[j] == was[j]
    ensures now == was[..at] + bytes + was[at + |bytes|..]
  {
  }

  lemma {:induction false} CopiedState(s: State, bytes: seq<Byte>)
    requires s.Valid() && s.phase == Data && |bytes| <= s.len - s.pos
    ensures Copied(s, bytes)
         == State(s.phase, s.opcode, s.len, s.pos + |bytes|, s.data[..s.pos] + bytes + s.data[s.pos + |bytes|..])
  {
  }

  lemma SliceOfSlice(a: seq<Byte>, p: nat, left: nat, n: nat)
    requires n <= left && p + left <= |a|
    ensures a[p..p + left][..n] == a[p..p + n]
  {
  }

  lemma ValidCopy(s: State, bytes: seq<Byte>)
    requires s.Valid() && s.phase == Data && |bytes| <= s.len - s.pos
    ensures Copied(s, bytes).Valid() && 0 <= s.pos && s.pos + |bytes| <= |s.data|
  {
  }

  /** Copying payload bytes in bulk is taking them one by one, short of the end of the frame... */
  lemma {:induction false} BulkPartial(s: State, bytes: seq<Byte>)
    requires s.Valid() && s.phase == Data && |bytes| < s.len - s.pos
    ensures Run(s, bytes) == Outcome(Copied(s, bytes), [])
    decreases |bytes|
  {
    if bytes == [] {
      assert Copied(s, bytes) == s by { assert s.data[..s.pos] + bytes + s.data[s.pos..] == s.data; }
    } else {
      var t := Feed(s, bytes[0]).state;
      BulkPartial(t, bytes[1..]);
      CopiedStep(s, bytes);
    }
  }

  lemma CopiedStep(s: State, bytes: seq<Byte>)
    requires s.Valid() && s.phase == Data && 0 < |bytes| <= s.len - s.pos
    ensures var t := s.(data := s.data[s.pos := bytes[0]], pos := s.pos + 1);
      t.Valid() && Copied(t, bytes[1..]) == Copied(s, bytes)
  {
    var t := s.(data := s.data[s.pos := bytes[0]], pos := s.pos + 1);
    assert t.data[..t.pos] + bytes[1..] + t.data[t.pos + |bytes| - 1..] == s.data[..s.pos] + bytes + s.data[s.pos + |bytes|..];
  }

  /** ... and up to the end of the frame, where it is reported. */
  lemma {:induction false} BulkComplete(s: State, bytes: seq<Byte>)
    requires s.Valid() && s.phase == Data && 0 < |bytes| == s.len - s.pos
    ensures var t := Copied(s, bytes);
      Run(s, bytes) == Outcome(t.(phase := Len), [CommandOf(t)])
    decreases |bytes|
  {
    CopiedStep(s, bytes);
    var f := Feed(s, bytes[0]);
    if |bytes| == 1 {
      assert bytes[1..] == [];
      assert Copied(f.state.(phase := Data), []) == f.state.(phase := Data) by {
        assert f.state.data[..f.state.pos] + [] + f.state.data[f.state.pos..] == f.state.data;
      }
    } else {
      BulkComplete(f.state, bytes[1..]);
    }
  }

  class Parser {
    var phase: Phase
    var opcode: Byte
    var len: int
    var pos: int
    const data: array<Byte>

    ghost function Abs(): State
      reads this, data
    {
      State(phase, opcode, len, pos, data[..])
    }

    ghost predicate Valid()
      reads this, data
    {
      Abs().Valid() && phase != Broken
    }

    /** ble_cli_init: everything is zero. */
    constructor ()
      ensures fresh(data) && Valid()
      ensures Abs() == State(Len, 0, 0, 0, seq(BUFFER_SIZE, i => 0))
    {
      phase, opcode, len, pos := Len, 0, 0, 0;
      data := new Byte[BUFFER_SIZE](i => 0);
    }

    /** memcpy(data + pos, p, n) */
    method CopyIn(buf: array<Byte>, p: nat, n: nat)
      requires Valid() && phase == Data && n <= len - pos && p + n <= buf.Length && buf != data
      modifies this`pos, data
      ensures Valid() && Abs() == old(Copied(Abs(), buf[p..p + n]))
    {
      hide State.Valid, Copied;
      var i := 0;
      ghost var s, was, src := Abs(), data[..], buf[p..p + n];
      ValidCopy(s, src);
      while i < n
        invariant i <= n && pos == s.pos && forall k :: 0 <= k < n ==> buf[p..][k] == src[k]
        invariant forall j :: pos <= j < pos + i ==> data[j] == src[j - pos]
        invariant forall j :: 0 <= j < pos || pos + i <= j < |was| ==> data[j] == was[j]
      {
        assert buf[p + i] == src[i];
        data[pos + i] := buf[p + i];
        i := i + 1;
      }
      CopiedElements(was, data[..], pos, src);
      pos := pos + n;
      CopiedState(s, src);
    }

    /**
     The DATA case of ble_parser on the left bytes of buf from index p: completes the frame if its
     remaining bytes are there, otherwise copies what there is.
     */
    method ReadData(buf: array<Byte>, p: nat, left: nat) returns (done: bool, used: nat)
      requires Valid() && phase == Data && buf != data && left > 0 && p + left <= buf.Length
      modifies this`phase, this`pos, data
      ensures Valid() && used <= left
      ensures var rest := old(buf[p..p + left]);
        if done then
          var r := Run(Abs(), rest[used..]);
          Run(old(Abs()), rest) == Outcome(r.state, [CommandOf(Abs())] + r.commands)
        else used == left && Run(old(Abs()), rest) == Outcome(Abs(), [])
      ensures done && used == 0 ==> old(Abs().Pending()) && !Abs().Pending()
    {
      hide Run, Copied;
      ghost var s, rest := Abs(), buf[p..p + left];
      var rsize := len - pos;
      if left >= rsize {
        Completes(s, rest);
        SliceOfSlice(buf[..], p, left, rsize);
        CopyIn(buf, p, rsize);
        phase := Len;
        return true, rsize;
      } else {
        BulkPartial(s, rest);
        CopyIn(buf, p, left);
        return false, left;
      }
    }

    /**
     ble_parser on the size bytes of buf from index off: stops at the end of the first frame,
     with the number of bytes that remain, or runs out of bytes.
     */
    method Parse(buf: array<Byte>, off: nat, size: nat) returns (done: bool, remain: nat)
      requires Valid() && buf != data && off + size <= buf.Length && size > 0
      requires Run(Abs(), buf[off..off + size]).state.phase != Broken
      modifies this`phase, this`opcode, this`len, this`pos, data
      ensures remain <= size && Valid()
      ensures var before, bytes := old(Abs()), buf[off..off + size];
        if done then
          var rest := Run(Abs(), bytes[size - remain..]);
          Run(before, bytes) == Outcome(rest.state, [CommandOf(Abs())] + rest.commands)
        else remain == 0 && Run(before, bytes) == Outcome(Abs(), [])
      ensures done && remain == size ==> old(Abs().Pending()) && !Abs().Pending()
    {
      hide Run, Feed;
      ghost var before, bytes := Abs(), buf[off..off + size];
      assert bytes[0..] == bytes;
      var p, left := off, size;
      while left > 0
        invariant left <= size && p == off + size - left && Valid()
        invariant bytes == buf[off..off + size]
        invariant Run(before, bytes) == Run(Abs(), bytes[size - left..])
        invariant Run(before, bytes).state.phase != Broken
        invariant left == size ==> Abs() == before
        decreases left
      {
        ghost var rest := bytes[size - left..];
        assert rest == buf[p..p + left] && rest[0] == buf[p] && rest[1..] == bytes[size - left + 1..];
        match phase {
          case Len =>
            LenByte(Abs(), rest);
            pos := 0;
            len := buf[p] - 1;
            phase := Opcode;
            left, p := left - 1, p + 1;
          case Opcode =>
            OpcodeByte(Abs(), rest);
            opcode := buf[p];
            phase := Data;
            left, p := left - 1, p + 1;
          case Data =>
            var complete, used := ReadData(buf, p, left);
            assert rest[used..] == bytes[size - (left - used)..];
            left, p := left - used, p + used;
            if complete {
              return true, left;
            }
            return false, 0;
          case Broken =>
        }
      }
      assert bytes[size..] == [];
      RunNothing(Abs());
      return false, left;
    }

    /**
     ble_handle_cmd: parses all of the bytes, handing over every complete frame in order. The
     number of remaining bytes does not always decrease, because a pending empty frame is
     reported without taking a byte.
     */
    method HandleCmd(buf: array<Byte>, size: nat) returns (commands: seq<Command>)
      requires Valid() && buf != data && size <= buf.Length
      requires Run(Abs(), buf[..size]).state.phase != Broken
      modifies this`phase, this`opcode, this`len, this`pos, data
      ensures Valid() && Outcome(Abs(), commands) == Run(old(Abs()), buf[..size])
    {
      hide Run, Feed;
      ghost var all := Run(Abs(), buf[..size]);
      ghost var bytes := buf[..size];
      commands := [];
      var remain := size;
      assert bytes[0..] == bytes;
      while remain > 0
        invariant 0 <= remain <= size && Valid() && |bytes| == size && bytes == buf[..size]
        invariant all.state.phase != Broken
        invariant var r := Run(Abs(), bytes[size - remain..]); all == Outcome(r.state, commands + r.commands)
        decreases remain, if Abs().Pending() then 1 else 0
      {
        assert bytes[size - remain..] == buf[size - remain..size];
        ghost var before := commands;
        var done, left := Parse(buf, size - remain, remain);
        if done {
          commands := commands + [Command(opcode, len, data[..])];
          assert bytes[size - remain..][remain - left..] == bytes[size - left..];
          ghost var r := Run(Abs(), bytes[size - left..]);
          assert before + ([CommandOf(Abs())] + r.commands) == commands + r.commands;
        }
        remain := left;
        if !done {
          RunNothing(Abs());
          assert bytes[size..] == [];
        }
      }
      assert bytes[size..] == [];
      RunNothing(Abs());
    }

    /** One round of ble_receive_handle, for a read of n bytes. */
    method ReceiveRead(buf: array<Byte>, n: nat) returns (commands: seq<Command>)
      requires Valid() && buf != data && n <= buf.Length
      requires Receive(Abs(), buf[..n]).state.phase != Broken
      modifies this`phase, this`opcode, this`len, this`pos, data
      ensures Valid() && Outcome(Abs(), commands) == Receive(old(Abs()), buf[..n])
    {
      hide Run;
      if n == 1 && buf[0] == 0 {
        assert buf[..n] == [0];
        return [];
      }
      if n > 0 {
        assert n == 1 ==> buf[..n][0] != 0;
        commands := HandleCmd(buf, n);
      } else {
        RunNothing(Abs());
        return [];
      }
    }
  }

  lemma RunNothing(s: State)
    requires s.Valid()
    ensures Run(s, []) == Outcome(s, [])
  {
  }

  lemma CopiedNothing(s: State)
    requires s.Valid() && s.phase == Data
    ensures Copied(s, []) == s
  {
    assert s.data[..s.pos] + [] + s.data[s.pos..] == s.data;
  }

  /** The rest of the current frame is at hand: it is reported next. */
  lemma Completes(s: State, bytes: seq<Byte>)
    requires s.Valid() && s.phase == Data && s.len - s.pos <= |bytes| && bytes != []
    ensures var n := s.len - s.pos;
      var t := Copied(s, bytes[..n]).(phase := Len);
      var rest := Run(t, bytes[n..]);
      Run(s, bytes) == Outcome(rest.state, [CommandOf(t)] + rest.commands)
  {
    var n := s.len - s.pos;
    if n == 0 {
      assert bytes[..0] == [] && bytes[0..] == bytes;
      CopiedNothing(s);
      PendingReported(s, bytes);
    } else {
      hide Run, Copied;
      BulkComplete(s, bytes[..n]);
      RunAppend(s, bytes[..n], bytes[n..]);
      assert bytes[..n] + bytes[n..] == bytes;
    }
  }

  // ----- reads of any size -----

  function Flatten(chunks: seq<seq<Byte>>): seq<Byte> {
    if chunks == [] then [] else chunks[0] + Flatten(chunks[1..])
  }

  /** What ble_handle_cmd does over several reads. */
  function RunChunks(s: State, chunks: seq<seq<Byte>>): (r: Outcome)
    requires s.Valid()
    ensures r.state.Valid()
    decreases |chunks|
  {
    if chunks == [] then Outcome(s, [])
    else
      var f := Run(s, chunks[0]);
      var r := RunChunks(f.state, chunks[1..]);
      Outcome(r.state, f.commands + r.commands)
  }

  /** However the bytes are split into reads, the frames and the final state are the same. */
  lemma {:induction false} ChunkInvariance(s: State, chunks: seq<seq<Byte>>)
    requires s.Valid()
    ensures RunChunks(s, chunks) == Run(s, Flatten(chunks))
    decreases |chunks|
  {
    hide Run;
    if chunks == [] {
      RunNothing(s);
    } else {
      var f := Run(s, chunks[0]);
      ChunkInvariance(f.state, chunks[1..]);
      RunAppend(s, chunks[0], Flatten(chunks[1..]));
    }
  }

  // ----- nothing is lost -----

  /** The bytes of one frame. */
  function Encode(opcode: Byte, payload: seq<Byte>): seq<Byte>
    requires |payload| <= 254
  {
    [1 + |payload|, opcode] + payload
  }

  predicate Complete(c: Command) {
    0 <= c.len <= 254 && |c.data| == BUFFER_SIZE
  }

  function Payload(c: Command): seq<Byte>
    requires Complete(c)
  {
    c.data[..c.len]
  }

  function EncodeAll(commands: seq<Command>): seq<Byte>
    requires forall c :: c in commands ==> Complete(c)
  {
    if commands == [] then [] else Encode(commands[0].opcode, Payload(commands[0])) + EncodeAll(commands[1..])
  }

  /** The bytes of the frame that is being read. */
  function Partial(s: State): seq<Byte>
    requires s.Valid() && s.phase != Broken
  {
    match s.phase
    case Len => []
    case Opcode => [s.len + 1]
    case Data => [s.len + 1, s.opcode] + s.data[..s.pos]
  }

  lemma {:induction false} EncodeAllAppend(a: seq<Command>, b: seq<Command>)
    requires forall c :: c in a + b ==> Complete(c)
    ensures forall c :: c in a ==> c in a + b
    ensures forall c :: c in b ==> c in a + b
    ensures EncodeAll(a + b) == EncodeAll(a) + EncodeAll(b)
  {
    if a == [] {
      assert a + b == b;
    } else {
      assert (a + b)[0] == a[0] && (a + b)[1..] == a[1..] + b;
      EncodeAllAppend(a[1..], b);
    }
  }

  /** One byte: what was partial, and the byte, are in the frames reported and in what is partial now. */
  lemma FeedConserves(s: State, b: Byte)
    requires s.Valid() && s.phase != Broken && Feed(s, b).state.phase != Broken
    ensures forall c :: c in Feed(s, b).commands ==> Complete(c)
    ensures Partial(s) + [b] == EncodeAll(Feed(s, b).commands) + Partial(Feed(s, b).state)
  {
    hide EncodeAll, Encode, Partial, Complete;
    EncodeNone();
    if s.Pending() {
      PendingConserved(s);
      Begins(s.(phase := Len), b);
      assert [CommandOf(s)] + [] == [CommandOf(s)];
    } else {
      assert [] + Take(s, b).commands == Take(s, b).commands;
      if s.phase == Data {
        PayloadConserved(s, b);
      } else {
        Begins(s, b);
      }
    }
  }

  lemma PendingConserved(s: State)
    requires s.Valid() && s.Pending()
    ensures Complete(CommandOf(s)) && Partial(s) == EncodeAll([CommandOf(s)]) && Partial(s.(phase := Len)) == []
  {
    EncodeOne(CommandOf(s));
  }

  lemma Begins(s: State, b: Byte)
    requires s.Valid() && (s.phase == Len || s.phase == Opcode) && Take(s, b).state.phase != Broken
    ensures Take(s, b).commands == [] && Take(s, b).state.Valid() && Partial(Take(s, b).state) == Partial(s) + [b]
  {
  }

  lemma PayloadConserved(s: State, b: Byte)
    requires s.Valid() && s.phase == Data && !s.Pending()
    ensures var t := Take(s, b);
      && t.state.Valid()
      && t.state.phase != Broken
      && (forall c :: c in t.commands ==> Complete(c))
      && Partial(s) + [b] == EncodeAll(t.commands) + Partial(t.state)
  {
    hide EncodeAll, Encode;
    EncodeNone();
    var u := s.(data := s.data[s.pos := b], pos := s.pos + 1);
    assert u.data[..u.pos] == s.data[..s.pos] + [b];
    PartialGrows(s, u, b);
    if u.pos == u.len {
      hide Partial;
      EncodeOne(CommandOf(u));
      FullFrame(u);
      PartialNone(u.(phase := Len));
    }
  }

  lemma PartialGrows(s: State, u: State, b: Byte)
    requires s.Valid() && u.Valid() && s.phase == u.phase == Data && s.len == u.len && s.opcode == u.opcode
    requires u.data[..u.pos] == s.data[..s.pos] + [b]
    ensures Partial(u) == Partial(s) + [b]
  {
  }

  /** A full frame is no longer partial. */
  lemma FullFrame(u: State)
    requires u.Valid() && u.phase == Data && u.pos == u.len
    ensures Partial(u) == Encode(u.opcode, u.data[..u.len])
  {
  }

  lemma PartialNone(u: State)
    requires u.Valid() && u.phase == Len
    ensures Partial(u) == []
  {
  }

  lemma EncodeOne(c: Command)
    requires Complete(c)
    ensures EncodeAll([c]) == Encode(c.opcode, Payload(c))
  {
    assert [c][1..] == [];
  }

  lemma Regroup(p: seq<Byte>, b: Byte, rest: seq<Byte>, e: seq<Byte>, q: seq<Byte>, e2: seq<Byte>, q2: seq<Byte>)
    requires p + [b] == e + q && q + rest == e2 + q2
    ensures p + ([b] + rest) == (e + e2) + q2
  {
    assert p + ([b] + rest) == (p + [b]) + rest;
    assert (e + q) + rest == e + (q + rest);
    assert e + (e2 + q2) == (e + e2) + q2;
  }

  /** No byte is lost or used twice: the input is the frames reported plus what is partial. */
  lemma {:induction false} Conservation(s: State, bytes: seq<Byte>)
    requires s.Valid() && s.phase != Broken && Run(s, bytes).state.phase != Broken
    ensures forall c :: c in Run(s, bytes).commands ==> Complete(c)
    ensures Partial(s) + bytes == EncodeAll(Run(s, bytes).commands) + Partial(Run(s, bytes).state)
    decreases |bytes|
  {
    hide Feed, Partial, State.Valid, EncodeAll, Complete;
    if bytes == [] {
      EncodeNone();
      assert Partial(s) + [] == Partial(s) && EncodeAll([]) + Partial(s) == Partial(s);
    } else {
      var f := Feed(s, bytes[0]);
      if f.state.phase == Broken { BrokenStays(f.state, bytes[1..]); }
      FeedConserves(s, bytes[0]);
      Conservation(f.state, bytes[1..]);
      var r := Run(f.state, bytes[1..]);
      EncodeAllAppend(f.commands, r.commands);
      assert bytes == [bytes[0]] + bytes[1..];
      Regroup(Partial(s), bytes[0], bytes[1..], EncodeAll(f.commands), Partial(f.state), EncodeAll(r.commands), Partial(r.state));
    }
  }

  lemma EncodeNone()
    ensures EncodeAll([]) == []
  {
  }

  // ----- writing frames, and reading them back -----

  /** ble_write: the bytes handed to the serial port. The length byte is the low byte of size + 1. */
  method Write(opcode: Byte, payload: array<Byte>, size: Byte) returns (out: seq<Byte>)
    requires size <= payload.Length
    ensures out == [(1 + size) % 256, opcode] + payload[..size]
    ensures size <= 254 ==> out == Encode(opcode, payload[..size])
  {
    var buf := new Byte[258](i => 0);
    var len := 1 + size;
    buf[0] := len % 256;
    buf[1] := opcode;
    var i := 0;
    while i < size
      invariant 0 <= i <= size && buf[0] == len % 256 && buf[1] == opcode
      invariant forall j :: 0 <= j < i ==> buf[2..][j] == payload[j]
    {
      buf[2 + i] := payload[i];
      i := i + 1;
    }
    assert buf[..len + 1] == [len % 256, opcode] + payload[..size];
    return buf[..len + 1];
  }

  /** A frame to be written: any opcode with a payload of at most 254 bytes. */
  datatype Frame = Frame(opcode: Byte, payload: seq<Byte>)

  function WriteAll(frames: seq<Frame>): seq<Byte>
    requires forall f :: f in frames ==> |f.payload| <= 254
  {
    if frames == [] then [] else Encode(frames[0].opcode, frames[0].payload) + WriteAll(frames[1..])
  }

  function FrameOf(c: Command): Frame
    requires Complete(c)
  {
    Frame(c.opcode, Payload(c))
  }

  /** The commands show exactly these frames. */
  ghost predicate Shows(commands: seq<Command>, frames: seq<Frame>) {
    && |commands| == |frames|
    && (forall i :: 0 <= i < |commands| ==> Complete(commands[i]) && FrameOf(commands[i]) == frames[i])
  }

  /** Reading one written frame from between frames. */
  lemma ReadFrame(s: State, f: Frame)
    requires s.Valid() && s.phase == Len && |f.payload| <= 254
    ensures var r := Run(s, Encode(f.opcode, f.payload));
      && (f.payload != [] ==> r.state.phase == Len && Shows(r.commands, [f]))
      && (f.payload == [] ==> r.commands == [] && r.state.Pending() && Shows([CommandOf(r.state)], [f]))
  {
    hide Run, Feed;
    var bytes := Encode(f.opcode, f.payload);
    var t := s.(phase := Opcode, len := |f.payload|, pos := 0);
    var u := t.(phase := Data, opcode := f.opcode);
    assert bytes[1..] == [f.opcode] + f.payload && bytes[1..][1..] == f.payload;
    ReadLength(s, bytes);
    OpcodeByte(t, bytes[1..]);
    ReadPayload(u, f.payload);
  }

  lemma ReadPayload(u: State, payload: seq<Byte>)
    requires u.Valid() && u.phase == Data && u.pos == 0 && u.len == |payload|
    ensures var r := Run(u, payload);
      && (payload != [] ==> r.state.phase == Len && Shows(r.commands, [Frame(u.opcode, payload)]))
      && (payload == [] ==> r.commands == [] && r.state == u && u.Pending() && Shows([CommandOf(u)], [Frame(u.opcode, payload)]))
  {
    if payload == [] {
      assert u.data[..0] == [];
    } else {
      hide Run, Feed;
      BulkComplete(u, payload);
      var v := Copied(u, payload);
      assert v.data[..v.len] == payload;
    }
  }

  lemma ReadLength(s: State, bytes: seq<Byte>)
    requires s.Valid() && s.phase == Len && bytes != [] && bytes[0] != 0
    ensures Run(s, bytes) == Run(s.(phase := Opcode, len := bytes[0] - 1, pos := 0), bytes[1..])
  {
    hide Run;
    QuietByte(s, bytes);
  }

  /** A pending frame is reported as soon as any byte arrives. */
  lemma PendingReported(s: State, bytes: seq<Byte>)
    requires s.Valid() && s.Pending() && bytes != []
    ensures s.(phase := Len).Valid()
    ensures var r := Run(s.(phase := Len), bytes);
      Run(s, bytes) == Outcome(r.state, [CommandOf(s)] + r.commands)
  {
    var f, g := Feed(s, bytes[0]), Feed(s.(phase := Len), bytes[0]);
    assert f.state == g.state && f.commands == [CommandOf(s)] + g.commands;
    var r := Run(f.state, bytes[1..]);
    assert ([CommandOf(s)] + g.commands) + r.commands == [CommandOf(s)] + (g.commands + r.commands);
  }

  /**
   All frames have been read back in order, except that a last frame without payload is still
   pending.
   */
  ghost predicate ReadsBack(r: Outcome, frames: seq<Frame>) {
    if frames != [] && frames[|frames| - 1].payload == [] then
      r.state.Pending() && Shows(r.commands + [CommandOf(r.state)], frames)
    else r.state.phase == Len && Shows(r.commands, frames)
  }

  /** Everything written is read back. */
  lemma {:induction false} RoundTrip(s: State, frames: seq<Frame>)
    requires s.Valid() && s.phase == Len && forall f :: f in frames ==> |f.payload| <= 254
    ensures ReadsBack(Run(s, WriteAll(frames)), frames)
    decreases |frames|
  {
    hide Run, Encode, ReadsBack, Shows, State.Valid;
    if frames == [] {
      RunNothing(s);
      NothingToRead(s);
    } else {
      var f, rest := frames[0], frames[1..];
      var head, tail := Encode(f.opcode, f.payload), WriteAll(rest);
      ReadFrame(s, f);
      RunAppend(s, head, tail);
      var r := Run(s, head);
      if f.payload != [] {
        RoundTrip(r.state, rest);
        ReadsBackCons(r.commands, Run(r.state, tail), frames);
      } else if rest == [] {
        RunNothing(r.state);
        LastPending(r, f);
        assert frames == [f];
      } else {
        WriteNonEmpty(rest);
        PendingReported(r.state, tail);
        RoundTrip(r.state.(phase := Len), rest);
        var more := [CommandOf(r.state)] + Run(r.state.(phase := Len), tail).commands;
        assert [] + more == more;
        ReadsBackCons([CommandOf(r.state)], Run(r.state.(phase := Len), tail), frames);
      }
    }
  }

  lemma NothingToRead(s: State)
    requires s.phase == Len
    ensures ReadsBack(Outcome(s, []), [])
  {
  }

  lemma LastPending(r: Outcome, f: Frame)
    requires f.payload == [] && r.commands == [] && r.state.Pending() && Shows([CommandOf(r.state)], [f])
    ensures ReadsBack(r, [f]) && ReadsBack(Outcome(r.state, r.commands + []), [f])
  {
    assert r.commands + [CommandOf(r.state)] == [CommandOf(r.state)];
  }

  /** One more frame in front. */
  lemma ReadsBackCons(one: seq<Command>, r: Outcome, frames: seq<Frame>)
    requires frames != [] && Shows(one, [frames[0]]) && ReadsBack(r, frames[1..])
    requires |frames| == 1 ==> frames[0].payload != []
    ensures ReadsBack(Outcome(r.state, one + r.commands), frames)
  {
    assert (one + r.commands) + [CommandOf(r.state)] == one + (r.commands + [CommandOf(r.state)]);
    assert |frames| > 1 ==> frames[1..][|frames| - 2] == frames[|frames| - 1];
    hide Shows;
    ShowsCons(one, r.commands, frames);
    ShowsCons(one, r.commands + [CommandOf(r.state)], frames);
  }

  lemma ShowsCons(one: seq<Command>, more: seq<Command>, frames: seq<Frame>)
    requires frames != [] && Shows(one, [frames[0]])
    ensures Shows(more, frames[1..]) ==> Shows(one + more, frames)
  {
  }

  /** The same for any split of the written bytes into reads. */
  lemma RoundTripChunks(s: State, frames: seq<Frame>, chunks: seq<seq<Byte>>)
    requires s.Valid() && s.phase == Len && forall f :: f in frames ==> |f.payload| <= 254
    requires Flatten(chunks) == WriteAll(frames)
    ensures ReadsBack(RunChunks(s, chunks), frames)
  {
    hide Run, RunChunks, WriteAll, Flatten, ReadsBack;
    ChunkInvariance(s, chunks);
    RoundTrip(s, frames);
  }

  lemma WriteNonEmpty(frames: seq<Frame>)
    requires frames != [] && forall f :: f in frames ==> |f.payload| <= 254
    ensures WriteAll(frames) != []
  {
  }

  // ----- the receiving thread -----

  /**
   ble_receive_handle drops a read that consists of a single zero byte, which it takes for a
   restarting device.
   */
  function Receive(s: State, chunk: seq<Byte>): (r: Outcome)
    requires s.Valid()
    ensures r.state.Valid()
  {
    if chunk == [0] then Outcome(s, []) else Run(s, chunk)
  }

  function ReceiveAll(s: State, chunks: seq<seq<Byte>>): (r: Outcome)
    requires s.Valid()
    ensures r.state.Valid()
    decreases |chunks|
  {
    if chunks == [] then Outcome(s, [])
    else
      var f := Receive(s, chunks[0]);
      var r := ReceiveAll(f.state, chunks[1..]);
      Outcome(r.state, f.commands + r.commands)
  }

  /** The reads that are not dropped. */
  function Kept(chunks: seq<seq<Byte>>): seq<seq<Byte>> {
    if chunks == [] then []
    else if chunks[0] == [0] then Kept(chunks[1..])
    else [chunks[0]] + Kept(chunks[1..])
  }

  lemma {:induction false} ReceiveIsRunKept(s: State, chunks: seq<seq<Byte>>)
    requires s.Valid()
    ensures ReceiveAll(s, chunks) == RunChunks(s, Kept(chunks))
    decreases |chunks|
  {
    if chunks != [] {
      ReceiveIsRunKept(Receive(s, chunks[0]).state, chunks[1..]);
      if chunks[0] != [0] {
        assert Kept(chunks)[1..] == Kept(chunks[1..]);
      }
    }
  }

  lemma {:induction false} KeptLength(chunks: seq<seq<Byte>>)
    ensures |Flatten(Kept(chunks))| <= |Flatten(chunks)|
    ensures |Flatten(Kept(chunks))| == |Flatten(chunks)| <==> [0] !in chunks
    ensures [0] !in chunks ==> Kept(chunks) == chunks
  {
    if chunks != [] {
      KeptLength(chunks[1..]);
      if chunks[0] != [0] {
        assert Kept(chunks)[1..] == Kept(chunks[1..]);
      }
      assert [0] in chunks <==> chunks[0] == [0] || [0] in chunks[1..];
    }
  }

  /**
   The receiving thread is faithful to the byte stream exactly when no read is a single zero
   byte: by conservation, a dropped byte can never be made up for.
   */
  lemma ReceiveFaithful(s: State, chunks: seq<seq<Byte>>)
    requires s.Valid() && s.phase != Broken && Run(s, Flatten(chunks)).state.phase != Broken
    ensures ReceiveAll(s, chunks) == Run(s, Flatten(chunks)) <==> [0] !in chunks
  {
    hide Run, RunChunks, ReceiveAll, Partial, EncodeAll, State.Valid;
    ReceiveIsRunKept(s, chunks);
    ChunkInvariance(s, Kept(chunks));
    KeptLength(chunks);
    if ReceiveAll(s, chunks) == Run(s, Flatten(chunks)) {
      Conservation(s, Flatten(chunks));
      Conservation(s, Flatten(Kept(chunks)));
    }
  }

  /** The witness: a frame whose one payload byte is zero, read in two pieces. */
  lemma ReceiveLosesByte()
    ensures var s := State(Len, 0, 0, 0, seq(BUFFER_SIZE, i => 0));
      var chunks: seq<seq<Byte>> := [[2, 7], [0]];
      Run(s, Flatten(chunks)).state.phase == Len && ReceiveAll(s, chunks).state.phase == Data
  {
    var s := State(Len, 0, 0, 0, seq(BUFFER_SIZE, i => 0));
    var t := State(Data, 7, 1, 0, s.data);
    var chunks: seq<seq<Byte>> := [[2, 7], [0]];
    assert chunks[1..] == [[0]] && |chunks[1..][1..]| == 0;
    assert Flatten(chunks) == [2, 7] + [0] by { assert Flatten([[0]]) == [0]; }
    assert [2, 7][1..] == [7] && [7][1..] == [];
    hide Run, Feed;
    ReadLength(s, [2, 7]);
    OpcodeByte(State(Opcode, 0, 1, 0, s.data), [7]);
    RunNothing(t);
    RunAppend(s, [2, 7], [0]);
    BulkComplete(t, [0]);
    assert ReceiveAll(t, [[0]]) == Outcome(t, []);
  }
}
