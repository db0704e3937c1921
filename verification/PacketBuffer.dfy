/** The receive buffer of a connected user: bytes arrive in any pieces, whole packets come out. */
module PacketBuffer {
  import opened Bytes

  const BUFFER_SIZE := 65536
  const HEADER_LENGTH := 5
  const MAX_PACKET := 2048

  // ---------- Framing ----------

  /** A little-endian 16-bit field. */
  function Field(s: seq<byte>, at: nat): (v: nat)
    requires at + 1 < |s|
    ensures v < 65536
  {
    s[at] as nat + 256 * s[at + 1] as nat
  }

  /** What stands first in a run of bytes: too little to tell, nonsense, or a packet. */
  datatype Frame = Incomplete | Malformed | Packet(bytes: seq<byte>)

  function NextFrame(s: seq<byte>): (f: Frame)
    ensures f.Packet? ==> HEADER_LENGTH <= |f.bytes| <= |s| && f.bytes == s[..|f.bytes|]
  {
    if |s| < HEADER_LENGTH then Incomplete
    else if Field(s, 0) < HEADER_LENGTH || Field(s, 0) > MAX_PACKET then Malformed
    else if Field(s, 0) > |s| then Incomplete
    else Packet(s[..Field(s, 0)])
  }

  /** The packets of a run of bytes, and what is left after them. */
  datatype Framing = Framing(packets: seq<seq<byte>>, rest: seq<byte>)

  function FrameAll(s: seq<byte>): (r: Framing)
    ensures !NextFrame(r.rest).Packet?
    decreases |s|
  {
    var f := NextFrame(s);
    if f.Packet? then
      var r := FrameAll(s[|f.bytes|..]);
      Framing([f.bytes] + r.packets, r.rest)
    else Framing([], s)
  }

  function Join(packets: seq<seq<byte>>): seq<byte> {
    if packets == [] then [] else packets[0] + Join(packets[1..])
  }

  /** Framing loses nothing. */
  lemma {:induction false} FrameAllJoins(s: seq<byte>)
    ensures s == Join(FrameAll(s).packets) + FrameAll(s).rest
    decreases |s|
  {
    hide NextFrame;
    var f := NextFrame(s);
    if f.Packet? {
      var tail := s[|f.bytes|..];
      FrameAllJoins(tail);
      var r := FrameAll(tail);
      assert ([f.bytes] + r.packets)[1..] == r.packets;
      assert s == f.bytes + tail;
      ConcatAssoc(f.bytes, Join(r.packets), r.rest);
    }
  }

  /** What is known about the front stays known when more arrives. */
  lemma NextFrameStable(s: seq<byte>, t: seq<byte>)
    ensures !NextFrame(s).Incomplete? ==> NextFrame(s + t) == NextFrame(s)
  {
    if |s| >= HEADER_LENGTH {
      assert Field(s + t, 0) == Field(s, 0);
      if Field(s, 0) <= |s| {
        assert (s + t)[..Field(s, 0)] == s[..Field(s, 0)];
      }
    }
  }

  /** A packet as a client writes it: its whole length and its id, low byte first, its type, the rest. */
  predicate Written(p: seq<byte>, length: nat, id: nat) {
    && 5 <= length == |p| <= 2048 && id < 65536
    && p[0] == length % 256 && p[1] == length / 256 && p[2] == id % 256 && p[3] == id / 256
  }

  /** Such a packet comes out as it is, with its id, whatever follows it. */
  lemma WrittenFramed(p: seq<byte>, length: nat, id: nat, t: seq<byte>)
    requires Written(p, length, id)
    ensures NextFrame(p + t) == Packet(p) && Field(p, 2) == id
  {
    assert (p + t)[..length] == p;
  }

  /** A length too small for a header or larger than any packet is refused, and no other. */
  lemma MalformedExact(s: seq<byte>)
    ensures NextFrame(s).Malformed? <==> |s| >= 5 && !(5 <= s[0] as nat + 256 * s[1] as nat <= 2048)
    ensures NextFrame(s).Incomplete? <==> |s| < 5 || |s| < s[0] as nat + 256 * s[1] as nat <= 2048
  {
  }

  ghost predicate AllWritten(packets: seq<seq<byte>>) {
    forall k :: 0 <= k < |packets| ==> exists length, id :: Written(packets[k], length, id)
  }

  /** Packets written back to back come out one for one, and the beginning of another waits. */
  lemma {:induction false} WrittenStream(packets: seq<seq<byte>>, t: seq<byte>)
    requires AllWritten(packets) && NextFrame(t).Incomplete?
    ensures FrameAll(Join(packets) + t) == Framing(packets, t)
  {
    hide NextFrame;
    if packets == [] {
      assert [] + t == t;
    } else {
      var p, more := packets[0], Join(packets[1..]) + t;
      var length, id :| Written(p, length, id);
      WrittenFramed(p, length, id, more);
      WrittenStream(packets[1..], t);
      ConcatAssoc(p, Join(packets[1..]), t);
      assert (p + more)[|p|..] == more && [p] + packets[1..] == packets;
    }
  }

  /** Where a stream is cut does not matter: framing the whole is framing the front, then its rest with what follows. */
  lemma {:induction false} FrameAllAppend(s: seq<byte>, t: seq<byte>)
    ensures var r := FrameAll(s);
            FrameAll(s + t) == Framing(r.packets + FrameAll(r.rest + t).packets, FrameAll(r.rest + t).rest)
    decreases |s|
  {
    hide NextFrame;
    var f := NextFrame(s);
    if f.Packet? {
      var tail := s[|f.bytes|..];
      NextFrameStable(s, t);
      assert (s + t)[|f.bytes|..] == tail + t;
      FrameAllAppend(tail, t);
      var r := FrameAll(tail);
      ConcatAssoc([f.bytes], r.packets, FrameAll(r.rest + t).packets);
    } else {
      assert [] + FrameAll(s + t).packets == FrameAll(s + t).packets;
    }
  }

  // ---------- The buffer ----------

  /** Sizes and positions are unsigned 32-bit numbers; their sums wrap. */
  function Sum32(a: nat, b: nat): (r: nat)
    requires a < WORD && b < WORD
    ensures r == if a + b < WORD then a + b else a + b - WORD
  {
    (a + b) % WORD
  }

  /** `Overrun` is a copy past the end of the buffer, undefined in the source and not carried out here. */
  datatype Arrival = Accepted | Dropped | Overrun

  /** What the server is handed; without a packet all is zero. */
  datatype PacketInfo = PacketInfo(packetId: nat, dataSize: nat, data: seq<byte>)

  const NO_PACKET := PacketInfo(0, 0, [])

  /** The packets given so far and those still pending are the framing of the accepted bytes. */
  ghost predicate InStep(accepted: seq<byte>, given: seq<seq<byte>>, pending: seq<byte>) {
    && FrameAll(accepted) == Framing(given + FrameAll(pending).packets, FrameAll(pending).rest)
    && accepted == Join(given) + pending
  }

  class PacketBuffer {
    const buffer: array<byte>
    var wPos: nat
    var rPos: nat
    /** The bytes accepted and the packets given since the buffer was last reset. */
    ghost var accepted: seq<byte>
    ghost var given: seq<seq<byte>>

    ghost predicate Valid()
      reads this, buffer
    {
      buffer.Length == BUFFER_SIZE && rPos <= wPos <= BUFFER_SIZE && InStep(accepted, given, Pending())
    }

    ghost function Pending(): seq<byte>
      reads this, buffer
      requires rPos <= wPos <= buffer.Length
    {
      buffer[rPos..wPos]
    }

    constructor ()
      ensures Valid() && accepted == [] && given == [] && Pending() == [] && fresh(buffer)
    {
      buffer := new byte[BUFFER_SIZE](_ => 0);
      wPos, rPos, accepted, given := 0, 0, [], [];
      new;
      assert Pending() == [];
      StepReset();
    }

    method Reset()
      requires buffer.Length == BUFFER_SIZE
      modifies this
      ensures Valid() && accepted == [] && given == [] && Pending() == []
    {
      wPos, rPos, accepted, given := 0, 0, [], [];
      assert Pending() == [];
      StepReset();
    }

    /** Moves the pending bytes to the front of the buffer. */
    method Compact()
      requires Valid()
      modifies this`wPos, this`rPos, buffer
      ensures Valid() && rPos == 0 && Pending() == old(Pending())
    {
      hide InStep;
      MoveDown(rPos, wPos);
      wPos, rPos := wPos - rPos, 0;
    }

    /** Copies a stretch to the front; the two may overlap. */
    method MoveDown(from: nat, end: nat)
      requires from <= end <= buffer.Length
      modifies buffer
      ensures buffer[0..end - from] == old(buffer[from..end])
    {
      ghost var was := buffer[from..end];
      for i := 0 to end - from
        invariant buffer[..i] == was[..i] && buffer[from + i..end] == was[i..]
      {
        MoveByte(from + i, i, end);
      }
    }

    method MoveByte(from: nat, to: nat, ghost end: nat)
      requires to <= from < end <= buffer.Length
      modifies buffer
      ensures buffer[..to + 1] == old(buffer[..to]) + [old(buffer[from])]
      ensures buffer[from + 1..end] == old(buffer[from..end])[1..]
    {
      buffer[to] := buffer[from];
    }

    /**
     Takes in a piece of the stream, unless it does not fit behind the pending bytes: then all of it is dropped.
     A piece so long that the write position and its size add up to 2^32 is taken to fit, and the copy runs
     past the buffer.
     */
    method SetPacketData(data: seq<byte>) returns (r: Arrival)
      requires Valid() && |data| < WORD
      modifies this, buffer
      ensures Valid() && given == old(given)
      ensures r == if old(wPos) + |data| >= WORD then Overrun
                   else if |old(Pending())| + |data| <= 65536 then Accepted else Dropped
      ensures r.Accepted? ==> accepted == old(accepted) + data && Pending() == old(Pending()) + data
      ensures !r.Accepted? ==> accepted == old(accepted) && Pending() == old(Pending())
    {
      hide InStep, Sum32;
      ghost var pending := Pending();
      if Sum32(wPos, |data|) >= BUFFER_SIZE {
        Compact();
      }
      if Sum32(wPos, |data|) > BUFFER_SIZE {
        return Dropped;
      }
      if wPos + |data| > BUFFER_SIZE {
        return Overrun;
      }
      r := Accepted;
      CopyIn(data);
      StepArrive(accepted, given, pending, data);
      accepted := accepted + data;
    }

    method CopyIn(data: seq<byte>)
      requires rPos <= wPos && wPos + |data| <= buffer.Length
      modifies this`wPos, buffer
      ensures rPos <= wPos <= buffer.Length && Pending() == old(Pending()) + data
    {
      ghost var pending := Pending();
      var r, w := rPos, wPos;
      for i := 0 to |data|
        invariant r == rPos && w == wPos && buffer[r..w + i] == pending + data[..i]
      {
        PutByte(r, w + i, data[i]);
      }
      wPos := w + |data|;
    }

    method PutByte(start: nat, at: nat, b: byte)
      requires start <= at < buffer.Length
      modifies buffer
      ensures buffer[start..at + 1] == old(buffer[start..at]) + [b]
    {
      buffer[at] := b;
    }

    /** The next packet, if all of it is there; a malformed header throws everything pending away. */
    method GetPacket() returns (info: PacketInfo)
      requires Valid()
      modifies this
      ensures Valid()
      ensures var all := FrameAll(old(accepted));
              if |all.packets| > |old(given)| then
                var p := all.packets[|old(given)|];
                && info == PacketInfo(Field(p, 2), |p|, p)
                && given == old(given) + [p] && accepted == old(accepted) && old(Pending()) == p + Pending()
              else
                && info == NO_PACKET
                && (if NextFrame(all.rest).Malformed? then accepted == [] && given == [] && Pending() == []
                    else accepted == old(accepted) && given == old(given) && Pending() == old(Pending()))
    {
      hide InStep, FrameAll;
      StepNext(accepted, given, Pending());
      var remain := wPos - rPos;
      if remain < HEADER_LENGTH {
        return NO_PACKET;
      }
      ghost var pending := Pending();
      var length := Field(buffer[rPos..wPos], 0);
      if length < HEADER_LENGTH || length > MAX_PACKET {
        Reset();
        return NO_PACKET;
      }
      if length > remain {
        return NO_PACKET;
      }
      var data := buffer[rPos..rPos + length];
      StretchCut(buffer, rPos, rPos + length, wPos);
      info := PacketInfo(Field(data, 2), length, data);
      rPos := rPos + length;
      given := given + [data];
    }

    /** Would `GetPacket` give a packet now? */
    method HasPendingPacket() returns (b: bool)
      requires Valid()
      ensures b <==> |FrameAll(accepted).packets| > |given|
    {
      hide InStep, FrameAll;
      StepNext(accepted, given, Pending());
      var remain := wPos - rPos;
      if remain < HEADER_LENGTH {
        return false;
      }
      var length := Field(buffer[rPos..wPos], 0);
      if length < HEADER_LENGTH || length > MAX_PACKET {
        return false;
      }
      return length <= remain;
    }
  }

  lemma StretchCut(a: array<byte>, lo: nat, mid: nat, hi: nat)
    requires lo <= mid <= hi <= a.Length
    ensures a[lo..hi][..mid - lo] == a[lo..mid] && a[lo..hi][mid - lo..] == a[mid..hi]
  {
    assert a[lo..hi] == a[lo..mid] + a[mid..hi];
  }

  lemma StepReset()
    ensures InStep([], [], [])
  {
  }

  lemma StepArrive(accepted: seq<byte>, given: seq<seq<byte>>, pending: seq<byte>, data: seq<byte>)
    requires InStep(accepted, given, pending)
    ensures InStep(accepted + data, given, pending + data)
  {
    hide FrameAll, Join, NextFrame;
    FrameAllAppend(accepted, data);
    FrameAllAppend(pending, data);
    var r := FrameAll(pending);
    var more := FrameAll(r.rest + data);
    ConcatAssoc(given, r.packets, more.packets);
    ConcatAssoc(Join(given), pending, data);
  }

  /** Giving the packet at the front keeps step; without one, all packets were given. */
  lemma StepNext(accepted: seq<byte>, given: seq<seq<byte>>, pending: seq<byte>)
    requires InStep(accepted, given, pending)
    ensures var f := NextFrame(pending);
            if f.Packet? then
              && |FrameAll(accepted).packets| > |given| && FrameAll(accepted).packets[|given|] == f.bytes
              && InStep(accepted, given + [f.bytes], pending[|f.bytes|..])
            else |FrameAll(accepted).packets| == |given| && FrameAll(accepted).rest == pending
  {
    var f := NextFrame(pending);
    if f.Packet? {
      var tail := pending[|f.bytes|..];
      hide NextFrame, Join;
      ConcatAssoc(given, [f.bytes], FrameAll(tail).packets);
      JoinLast(given, f.bytes);
      assert pending == f.bytes + tail;
      ConcatAssoc(Join(given), f.bytes, tail);
    }
  }

  lemma {:induction false} JoinLast(packets: seq<seq<byte>>, p: seq<byte>)
    ensures Join(packets + [p]) == Join(packets) + p
  {
    if packets == [] {
      assert [p][1..] == [] && p + [] == p;
    } else {
      assert (packets + [p])[1..] == packets[1..] + [p];
      JoinLast(packets[1..], p);
    }
  }

  // ---------- Whole runs ----------

  /** Asks for packets until there is none, as the server does while one is pending. */
  method Drain(b: PacketBuffer) returns (packets: seq<seq<byte>>)
    requires b.Valid()
    modifies b, b.buffer
    ensures b.Valid() && b.accepted == old(b.accepted) && b.given == old(b.given) + packets
    ensures b.given == FrameAll(b.accepted).packets && b.Pending() == FrameAll(b.accepted).rest
  {
    packets := [];
    var more := b.HasPendingPacket();
    while more
      invariant b.Valid() && b.accepted == old(b.accepted) && b.given == old(b.given) + packets
      invariant more <==> |FrameAll(b.accepted).packets| > |b.given|
      decreases |FrameAll(b.accepted).packets| - |b.given|
    {
      var info := b.GetPacket();
      packets := packets + [info.data];
      more := b.HasPendingPacket();
    }
    StepNext(b.accepted, b.given, b.Pending());
  }

  /** One byte, and then as many as a size can say: the second piece is copied past the buffer. */
  method OverrunRun(first: byte, data: seq<byte>) returns (b: PacketBuffer, r: Arrival)
    requires |data| == WORD - 1
    ensures r == Overrun && b.Valid() && b.accepted == [first]
  {
    hide InStep;
    b := new PacketBuffer();
    var accepted := b.SetPacketData([first]);
    assert |b.Pending()| == 1;
    r := b.SetPacketData(data);
    assert [] + [first] == [first];
  }
}
