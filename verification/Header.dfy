/** The fixed header of an MQTT packet: type and flags, remaining length, packet identifier. */
module Header {
  import opened Common
  import opened VarInt
  import opened Props
  import opened Wire
  import opened SlotCodec

  const MAX_REMAINING: uint32 := 268435455

  const PUBLISH := 3
  const PUBREL := 6
  const SUBSCRIBE := 8
  const SUBACK := 9
  const UNSUBSCRIBE := 10

  function MType(flags: byte): nat {
    flags / 16
  }

  predicate ValidType(t: nat) {
    0 < t < 16
  }

  function DefaultFlags(t: nat): nat {
    if t == PUBREL || t == SUBSCRIBE || t == UNSUBSCRIBE then 2 else 0
  }

  /** Bits 1 and 2 of the flags of a PUBLISH. */
  function Qos(flags: byte): nat {
    flags / 2 % 4
  }

  /** The first byte a packet of type t may start with. */
  predicate ValidFirst(flags: byte, t: nat) {
    && ValidType(MType(flags)) && MType(flags) == t
    && (t == PUBLISH ==> Qos(flags) != 3)
    && (t != PUBLISH ==> flags % 16 == DefaultFlags(t))
  }

  function HeadBytes(flags: byte, remlen: nat): seq<byte> {
    [flags] + VarBytes(remlen)
  }

  datatype HeadScan = Head(flags: byte, remlen: nat, rest: seq<byte>) | NoHead(fault: Fault)

  /** header.decode into a header that already has a type, for types whose packets have a body. */
  function ParseHead(was: byte, s: seq<byte>): (r: HeadScan)
    ensures r.Head? ==> r.remlen <= |r.rest| < |s|
  {
    if s == [] then NoHead(Panic)
    else if !ValidFirst(s[0], MType(was)) then NoHead(InvalidMessage)
    else match Uvarint(s[1..])
      case None => NoHead(InvalidMessage)
      case Some((v, n)) =>
        var remlen := v % 0x1_0000_0000;
        if remlen > MAX_REMAINING || v == 0 || remlen > |s[1 + n..]| then NoHead(InvalidMessage)
        else Head(s[0], remlen, s[1 + n..])
  }

  lemma HeadReads(was: byte, flags: byte, remlen: nat, body: seq<byte>)
    requires remlen <= MAX_REMAINING
    ensures ParseHead(was, HeadBytes(flags, remlen) + body)
      == if ValidFirst(flags, MType(was)) && 0 < remlen <= |body| then Head(flags, remlen, body) else NoHead(InvalidMessage)
  {
    var s := HeadBytes(flags, remlen) + body;
    assert s[1..] == VarBytes(remlen) + body;
    UvarintRoundTrip(remlen, body);
    assert s[1 + |VarBytes(remlen)|..] == body;
  }

  /** The packet identifier after an encoder has made sure there is one: next is what the
      global counter delivers, and zero changes nothing. */
  function Assigned(packetId: seq<byte>, next: uint16): seq<byte> {
    if IdOf(packetId) != 0 || next == 0 then packetId else Big16(next)
  }

  lemma AssignedMeans(id: seq<byte>, next: uint16)
    ensures |id| == 2 && (id[0] != 0 || id[1] != 0) ==> Assigned(id, next) == id
    ensures next == 0 ==> Assigned(id, next) == id
    ensures next != 0 && (|id| == 2 ==> id[0] == id[1] == 0) ==> Assigned(id, next) == [next / 256, next % 256]
  {
  }

  function IdOf(packetId: seq<byte>): uint16 {
    if |packetId| == 2 then Num16(packetId[0], packetId[1]) else 0
  }

  class Fixed {
    var mtypeflags: byte
    var remlen: uint32
    var packetId: seq<byte>

    constructor (t: nat)
      requires ValidType(t)
      ensures mtypeflags == 16 * t + DefaultFlags(t) && remlen == 0 && packetId == []
    {
      mtypeflags := 16 * t + DefaultFlags(t);
      remlen := 0;
      packetId := [];
    }

    method SetPacketId(v: uint16)
      modifies this`packetId
      ensures packetId == if v == 0 then old(packetId) else Big16(v)
    {
      if v != 0 {
        packetId := Big16(v);
      }
    }

    /** `if PacketId() == 0 { SetPacketId(...) }` */
    method EnsurePacketId(next: uint16)
      modifies this`packetId
      ensures packetId == Assigned(old(packetId), next)
    {
      if IdOf(packetId) == 0 {
        SetPacketId(next);
      }
    }

    method SetRemainingLength(n: uint32) returns (ok: bool)
      modifies this`remlen
      ensures ok == (n <= MAX_REMAINING) && remlen == if ok then n else old(remlen)
    {
      if n > MAX_REMAINING {
        return false;
      }
      remlen := n;
      return true;
    }

    /** A remaining length that no packet can have still counts as four bytes. */
    function Msglen(): (n: nat)
      reads this
      ensures n == if remlen <= MAX_REMAINING then |HeadBytes(mtypeflags, remlen)| else 5
    {
      if remlen <= MAX_REMAINING then VarBytesFit(remlen); 1 + VarLen(remlen) else
      1 + VarLen(remlen)
    }

    /** What the encoders check. */
    function Refused(): Option<Fault>
      reads this
    {
      if remlen > MAX_REMAINING then Some(OutOfBound) else if !ValidType(MType(mtypeflags)) then Some(InvalidMessage) else None
    }

    method Encode(dst: array<byte>) returns (n: nat, err: Option<Fault>)
      modifies dst
      ensures err == if dst.Length < Msglen() then Some(Insufficient) else Refused()
      ensures n == if err.None? then Msglen() else 0
      ensures dst[..] == if err.None? then Splice(old(dst[..]), 0, HeadBytes(mtypeflags, remlen)) else old(dst[..])
    {
      var ml := Msglen();
      if dst.Length < ml {
        return 0, Some(Insufficient);
      }
      if remlen > MAX_REMAINING {
        return 0, Some(OutOfBound);
      }
      if !ValidType(MType(mtypeflags)) {
        return 0, Some(InvalidMessage);
      }
      ghost var was := dst[..];
      Copy(dst, 0, [mtypeflags]);
      Copy(dst, 1, VarBytes(remlen));
      SpliceTwice(was, 0, [mtypeflags], VarBytes(remlen));
      return ml, None;
    }

    method EncodeToBuf(dst: Buf) returns (err: Option<Fault>)
      modifies dst
      ensures err == Refused()
      ensures dst.data == old(dst.data) + if err.None? then HeadBytes(mtypeflags, remlen) else []
    {
      if remlen > MAX_REMAINING {
        return Some(OutOfBound);
      }
      if !ValidType(MType(mtypeflags)) {
        return Some(InvalidMessage);
      }
      dst.WriteByte(mtypeflags);
      var n := dst.PutUvarint(remlen);
      Associate(old(dst.data), [mtypeflags], VarBytes(remlen));
      return None;
    }

    /** Any first byte is stored before it is checked. */
    method Decode(src: seq<byte>) returns (total: nat, err: Option<Fault>)
      requires MType(mtypeflags) in {PUBLISH, SUBSCRIBE, SUBACK}
      modifies this`mtypeflags, this`remlen
      ensures mtypeflags == if |src| == 0 then old(mtypeflags) else src[0]
      ensures err.Some? ==> ParseHead(old(mtypeflags), src) == NoHead(err.value)
      ensures err.None? ==> total <= |src| && ParseHead(old(mtypeflags), src) == Head(mtypeflags, remlen, src[total..])
    {
      total := 0;
      var mtype := MType(mtypeflags);
      if |src| == 0 {
        return total, Some(Panic);
      }
      mtypeflags := src[0];
      if !ValidType(MType(mtypeflags)) {
        return total, Some(InvalidMessage);
      }
      if mtype != MType(mtypeflags) {
        return total, Some(InvalidMessage);
      }
      if mtype != PUBLISH && mtypeflags % 16 != DefaultFlags(mtype) {
        return total, Some(InvalidMessage);
      }
      if mtype == PUBLISH && Qos(mtypeflags) == 3 {
        return total, Some(InvalidMessage);
      }
      var u := Uvarint(src[1..]);
      var v, m := if u.Some? then u.value.0 else 0, if u.Some? then u.value.1 else 0;
      total := 1 + m;
      remlen := v % 0x1_0000_0000;
      if remlen > MAX_REMAINING || v == 0 {
        return total, Some(InvalidMessage);
      }
      if remlen > |src| - total {
        return total, Some(InvalidMessage);
      }
      return total, None;
    }
  }
}
