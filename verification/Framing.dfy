/** Cutting the byte stream of a connection into packets: peekMessageSize and peekMessage on
    top of the ring, for the packet types whose codec is modelled here. */
module Framing {
  import opened Common
  import opened VarInt
  import opened Props
  import opened Header
  import IdFront
  import Pub = Publish
  import Sub = Subscribe
  import Ack = Suback
  import PM = PublishMessage
  import SM = SubscribeMessage
  import AM = SubackMessage
  import ByteRing

  datatype Packet = Pub(p: Pub.Msg) | Sub(s: Sub.Msg) | Ack(a: Ack.Msg)

  /** OtherType: a packet type whose codec is not part of this model, or none at all. */
  datatype PeekFault = Ring(fault: ByteRing.Fault) | FourthByte | TooLarge | OtherType | Undecodable(why: Fault)

  // ----- the size of the next packet -----

  datatype SizeScan = Sized(mtype: nat, total: nat) | More | NoSize

  /** What a prefix of the stream says about the first packet, looking at cnt bytes first. More:
      there are not enough bytes yet. */
  function SizeFrom(q: seq<byte>, cnt: nat): SizeScan
    requires cnt >= 2
    decreases 6 - cnt
  {
    if cnt > 5 then NoSize
    else if |q| < cnt then More
    else if q[cnt - 1] >= 0x80 then SizeFrom(q, cnt + 1)
    else match Uvarint(q[1..cnt])
      case Some((remlen, m)) => Sized(MType(q[0]), remlen + 1 + m)
      case None => Sized(MType(q[0]), 1)
  }

  function Size(q: seq<byte>): SizeScan {
    SizeFrom(q, 2)
  }

  /** Binary.Uvarint always succeeds on what the loop has gathered. */
  method PeekMessageSize(ring: ByteRing.Ring) returns (mtype: nat, total: nat, err: Option<PeekFault>)
    requires ring.Valid() && ring.size >= 5
    modifies ring`tmp
    ensures ring.Valid() && ring.Contents() == old(ring.Contents())
    ensures match Size(ring.Contents())
      case Sized(t, n) => err == None && mtype == t && total == n
      case More => err == Some(Ring(if ring.done then ByteRing.Eof else ByteRing.Blocked))
      case NoSize => err == Some(FourthByte)
  {
    mtype, total := 0, 0;
    var cnt, b := 2, [];
    while true
      invariant 2 <= cnt <= 6 && ring.Valid() && ring.Contents() == old(ring.Contents())
      invariant Size(ring.Contents()) == SizeFrom(ring.Contents(), cnt)
      decreases 6 - cnt
    {
      if cnt > 5 {
        return 0, 0, Some(FourthByte);
      }
      var r := ring.ReadWait(cnt);
      if r.Err? {
        return 0, 0, Some(Ring(r.error));
      }
      b := r.value;
      if b[cnt - 1] >= 0x80 {
        cnt := cnt + 1;
      } else {
        break;
      }
    }
    assert b[1..] == ring.Contents()[1..cnt];
    var u := Uvarint(b[1..]);
    var remlen, m := if u.Some? then u.value.0 else 0, if u.Some? then u.value.1 else 0;
    return MType(b[0]), remlen + 1 + m, None;
  }

  /** The size is known as soon as the header is there, and then it is exact: no byte behind the
      header is waited for, let alone one behind the packet. */
  lemma SizeOfFrame(flags: byte, remlen: nat, rest: seq<byte>)
    requires remlen <= MAX_REMAINING
    ensures Size(HeadBytes(flags, remlen) + rest) == Sized(MType(flags), |HeadBytes(flags, remlen)| + remlen)
  {
    var q := HeadBytes(flags, remlen) + rest;
    VarBytesFit(remlen);
    Continuations(remlen);
    assert forall i :: 0 <= i < |VarBytes(remlen)| ==> q[i + 1] == VarBytes(remlen)[i];
    SkipMarked(q, 2, 1 + |VarBytes(remlen)|);
    assert q[1..1 + |VarBytes(remlen)|] == VarBytes(remlen) + [];
    UvarintRoundTrip(remlen, []);
  }

  /** All bytes of an encoding but the last are marked. */
  lemma {:induction false} Continuations(x: nat)
    ensures forall i :: 0 <= i < |VarBytes(x)| ==> (VarBytes(x)[i] >= 0x80 <==> i < |VarBytes(x)| - 1)
  {
    if x >= 128 {
      Continuations(x / 128);
      assert forall i :: 1 <= i < |VarBytes(x)| ==> VarBytes(x)[i] == VarBytes(x / 128)[i - 1];
    }
  }

  lemma {:induction false} SkipMarked(q: seq<byte>, cnt: nat, last: nat)
    requires 2 <= cnt <= last <= 5 && last <= |q|
    requires forall i :: cnt - 1 <= i < last - 1 ==> q[i] >= 0x80
    ensures SizeFrom(q, cnt) == SizeFrom(q, last)
    decreases last - cnt
  {
    if cnt < last { SkipMarked(q, cnt + 1, last); }
  }

  /** A header that is not complete yet is waited for. */
  lemma SizeOfPart(flags: byte, remlen: nat, q: seq<byte>)
    requires remlen <= MAX_REMAINING && q < HeadBytes(flags, remlen)
    ensures Size(q) == More
  {
    VarBytesFit(remlen);
    Continuations(remlen);
    if |q| >= 2 {
      assert forall i :: 1 <= i < |q| ==> q[i] == HeadBytes(flags, remlen)[i] == VarBytes(remlen)[i - 1];
      AllMarked(q, 2);
    }
  }

  lemma {:induction false} AllMarked(q: seq<byte>, cnt: nat)
    requires 2 <= cnt <= |q| + 1 <= 5
    requires forall i :: cnt - 1 <= i < |q| ==> q[i] >= 0x80
    ensures SizeFrom(q, cnt) == More
    decreases |q| - cnt
  {
    if cnt <= |q| { AllMarked(q, cnt + 1); }
  }

  // ----- the packet itself -----

  datatype PacketScan = Whole(packet: Packet, n: int) | Spoilt(fault: PeekFault)

  /** mtype.New() and Decode on the bytes of one packet. */
  function Decoded(mtype: nat, b: seq<byte>): PacketScan {
    if mtype == PUBLISH then
      match Pub.Parse(Pub.FRESH, b)
      case Parsed(m, _, rest) => PacketScan.Whole(Packet.Pub(m), |b| - |rest|)
      case Failed(e) => Spoilt(Undecodable(e))
    else if mtype == SUBSCRIBE then
      match Sub.Parse(Sub.FRESH, b)
      case Parsed(m, _, rest) => PacketScan.Whole(Packet.Sub(m), |b| - |rest|)
      case Failed(e) => Spoilt(Undecodable(e))
    else if mtype == SUBACK then
      match Ack.Parse(Ack.FRESH, b)
      case Parsed(m, _, rest) => PacketScan.Whole(Packet.Ack(m), |b| - |rest|)
      case Failed(e) => Spoilt(Undecodable(e))
    else Spoilt(OtherType)
  }

  /** A new message object of the type, filled from the bytes. */
  method NewDecoded(mtype: nat, b: seq<byte>) returns (packet: Option<Packet>, n: nat, err: Option<PeekFault>)
    ensures err.Some? ==> Decoded(mtype, b) == Spoilt(err.value)
    ensures err.None? ==> packet.Some? && n <= |b| && Decoded(mtype, b) == PacketScan.Whole(packet.value, n)
  {
    hide Pub.Parse, Sub.Parse, Ack.Parse;
    packet, n, err := None, 0, Some(OtherType);
    var e;
    if mtype == PUBLISH {
      var msg := new PM.PublishMessage();
      n, e := msg.Decode(b);
      packet := Some(Packet.Pub(msg.View()));
    } else if mtype == SUBSCRIBE {
      var msg := new SM.SubscribeMessage();
      n, e := msg.Decode(b);
      packet := Some(Packet.Sub(msg.View()));
    } else if mtype == SUBACK {
      var msg := new AM.SubackMessage();
      n, e := msg.Decode(b);
      packet := Some(Packet.Ack(msg.View()));
    } else {
      return;
    }
    err := if e.Some? then Some(Undecodable(e.value)) else None;
  }

  /** Only a packet that decodes is taken out of the ring, as many bytes of it as were decoded. */
  method PeekMessage(ring: ByteRing.Ring, mtype: nat, total: nat) returns (packet: Option<Packet>, n: nat, err: Option<PeekFault>)
    requires ring.Valid()
    modifies ring`tmp, ring`cseq
    ensures ring.Valid() && ring.size == old(ring.size)
    ensures total > ring.size ==> err == Some(Ring(ByteRing.BufferFull))
    ensures total <= ring.size && |old(ring.Contents())| < total ==>
      err == Some(Ring(if ring.done then ByteRing.Eof else ByteRing.Blocked))
    ensures total <= ring.size && |old(ring.Contents())| >= total ==>
      var d := Decoded(mtype, old(ring.Contents())[..total]);
      && (d.Spoilt? ==> err == Some(d.fault))
      && (d.Whole? ==> err == None && packet == Some(d.packet) && n == d.n <= total)
    ensures ring.Contents() == if err.None? then old(ring.Contents())[n..] else old(ring.Contents())
  {
    packet, n, err := None, 0, None;
    var r := ring.ReadWait(total);
    if r.Err? {
      return None, 0, Some(Ring(r.error));
    }
    packet, n, err := NewDecoded(mtype, r.value);
    if err.Some? {
      return;
    }
    var c := ring.ReadCommit(n);
  }

  // ----- a stream of packets -----

  datatype NextScan = Ready(packet: Packet, n: int) | Wait | Stop(fault: PeekFault)

  /** The size of the ring and the largest packet the configuration allows. */
  datatype Limits = Limits(ring: nat, packet: nat)

  predicate Allowed(total: nat, lim: Limits) {
    total <= lim.packet && total <= lim.ring
  }

  function Refused(total: nat, lim: Limits): PeekFault {
    if total > lim.packet then TooLarge else Ring(ByteRing.BufferFull)
  }

  /** One turn of the processor on a ring that holds q. */
  function Next(q: seq<byte>, lim: Limits): NextScan {
    match Size(q)
    case NoSize => Stop(FourthByte)
    case More => Wait
    case Sized(t, total) =>
      if !Allowed(total, lim) then Stop(Refused(total, lim))
      else if |q| < total then Wait
      else match Decoded(t, q[..total])
        case Whole(p, n) => Ready(p, n)
        case Spoilt(e) => Stop(e)
  }

  method ReadNext(ring: ByteRing.Ring, maxPacketSize: nat) returns (packet: Option<Packet>, n: nat, err: Option<PeekFault>)
    requires ring.Valid() && ring.size >= 5
    modifies ring`tmp, ring`cseq
    ensures ring.Valid() && ring.size == old(ring.size)
    ensures match Next(old(ring.Contents()), Limits(ring.size, maxPacketSize))
      case Ready(p, k) =>
        err == None && packet == Some(p) && n == k <= |old(ring.Contents())| && ring.Contents() == old(ring.Contents())[n..]
      case Wait =>
        err == Some(Ring(if ring.done then ByteRing.Eof else ByteRing.Blocked)) && ring.Contents() == old(ring.Contents())
      case Stop(e) => err == Some(e) && ring.Contents() == old(ring.Contents())
  {
    var mtype, total;
    mtype, total, err := PeekMessageSize(ring);
    if err.Some? {
      return None, 0, err;
    }
    if total > maxPacketSize {
      return None, 0, Some(TooLarge);
    }
    packet, n, err := PeekMessage(ring, mtype, total);
  }

  function WireOf(p: Packet): seq<byte>
    requires Good(p)
  {
    match p
    case Pub(m) => Pub.WireOf(m)
    case Sub(m) => Sub.WireOf(m)
    case Ack(m) =>
      Ack.AckSlotsFacts(m.props);
      Ack.WireOf(m)
  }

  /** The packets whose round trip is exact. */
  predicate Good(p: Packet) {
    match p
    case Pub(m) => Pub.Encodable(m) && Pub.Survives(m)
    case Sub(m) => Sub.Encodable(m) && Sub.Survives(m)
    case Ack(m) => Ack.Encodable(m) && Ack.Survives(m)
  }

  function TypeOf(p: Packet): nat {
    match p
    case Pub(_) => PUBLISH
    case Sub(_) => SUBSCRIBE
    case Ack(_) => SUBACK
  }

  /** The bytes of a packet decode to it, using all of them. */
  lemma DecodedBack(p: Packet)
    requires Good(p)
    ensures Decoded(TypeOf(p), WireOf(p)) == PacketScan.Whole(p, |WireOf(p)|)
  {
    hide Pub.Parse, Sub.Parse, Ack.Parse, Pub.WireOf, Sub.WireOf, Ack.WireOf;
    assert WireOf(p) + [] == WireOf(p);
    match p
    case Pub(m) => Pub.PublishRoundTrip(m, []);
    case Sub(m) => Sub.SubscribeRoundTrip(m, []);
    case Ack(m) => Ack.SubackRoundTrip(m, []);
  }

  /** The encoding is a header and as many bytes as it says. */
  lemma FrameShape(p: Packet) returns (flags: byte, remlen: nat, body: seq<byte>)
    requires Good(p)
    ensures remlen <= MAX_REMAINING && |body| == remlen && MType(flags) == TypeOf(p)
    ensures WireOf(p) == HeadBytes(flags, remlen) + body
  {
    hide HeadBytes, Pub.Body, Sub.Body, Ack.Body, Pub.BodyLen, Sub.BodyLen, Ack.BodyLen, TailIds, Pub.AllSlots;
    match p
    case Pub(m) =>
      Pub.BodyLength(m);
      flags, remlen, body := m.flags, Pub.BodyLen(m), Pub.Body(m);
    case Sub(m) =>
      Sub.BodyLength(m);
      flags, remlen, body := m.flags, Sub.BodyLen(m), Sub.Body(m);
    case Ack(m) =>
      Ack.AckSlotsFacts(m.props);
      Ack.BodyLength(m);
      flags, remlen, body := m.flags, Ack.BodyLen(m), Ack.Body(m);
  }

  /** A packet at the front of the stream is read whatever follows it, if and only if it fits the
      ring and is no larger than allowed; any other stops the connection. */
  lemma FrameRead(p: Packet, rest: seq<byte>, lim: Limits)
    requires Good(p)
    ensures Next(WireOf(p) + rest, lim)
      == if |WireOf(p)| <= lim.packet && |WireOf(p)| <= lim.ring then Ready(p, |WireOf(p)|)
         else Stop(if |WireOf(p)| > lim.packet then TooLarge else Ring(ByteRing.BufferFull))
  {
    hide Size, Decoded, WireOf, Good;
    var flags, remlen, body := FrameShape(p);
    assert WireOf(p) + rest == HeadBytes(flags, remlen) + (body + rest);
    SizeOfFrame(flags, remlen, body + rest);
    assert (WireOf(p) + rest)[..|WireOf(p)|] == WireOf(p);
    DecodedBack(p);
  }

  /** As long as a packet that fits is incomplete, nothing is read and nothing goes wrong. */
  lemma FramePart(p: Packet, q: seq<byte>, lim: Limits)
    requires Good(p) && Allowed(|WireOf(p)|, lim) && q < WireOf(p)
    ensures Next(q, lim) == Wait
  {
    hide Size, Decoded, WireOf, Good;
    var flags, remlen, body := FrameShape(p);
    var h := HeadBytes(flags, remlen);
    if |q| < |h| {
      assert q < h;
      SizeOfPart(flags, remlen, q);
    } else {
      assert q == h + q[|h|..];
      SizeOfFrame(flags, remlen, q[|h|..]);
    }
  }

  /** The header of a frame that has been cut at its announced size says how long the rest is. */
  lemma HeadOfFrame(q: seq<byte>, was: byte)
    requires Size(q).Sized? && Size(q).total <= |q|
    ensures var h := ParseHead(was, q[..Size(q).total]);
      h.Head? ==> |h.rest| == h.remlen
  {
    hide Uvarint;
    var b := q[..Size(q).total];
    var cnt := SizeShape(q, 2);
    if Uvarint(q[1..cnt]).Some? {
      var (v, m) := Uvarint(q[1..cnt]).value;
      UvarintPrefix(q[1..cnt], 0, q[1..1 + m]);
      assert q[1..1 + m] <= b[1..];
      UvarintExtends(q[1..1 + m], 0, b[1..]);
      UvarintSmall(q[1..1 + m], 0);
    } else {
      NoUvarint();
      assert b[1..] == [];
    }
  }

  /** Where the size has been read. */
  lemma {:induction false} SizeShape(q: seq<byte>, from: nat) returns (cnt: nat)
    requires from >= 2 && SizeFrom(q, from).Sized?
    ensures 2 <= cnt <= 5 && cnt <= |q|
    ensures SizeFrom(q, from).total == match Uvarint(q[1..cnt])
      case Some((remlen, m)) => remlen + 1 + m
      case None => 1
    decreases 6 - from
  {
    cnt := from;
    if from <= 5 && q[from - 1] >= 0x80 { cnt := SizeShape(q, from + 1); }
  }

  lemma NoUvarint()
    ensures Uvarint([]) == None
  {
  }

  /** A PUBLISH leaves what is behind the remaining length its header announces. */
  lemma PubUses(m0: Pub.Msg, s: seq<byte>)
    ensures var r, h := Pub.Parse(m0, s), ParseHead(m0.flags, s);
      r.Parsed? ==> h.Head? && |r.rest| == |h.rest| - h.remlen
  {
    hide ParseHead, Pub.ParseProps, ReadLP, LbParse;
  }

  lemma AckUses(m0: Ack.Msg, s: seq<byte>)
    ensures var r, h := Ack.Parse(m0, s), ParseHead(m0.flags, s);
      r.Parsed? ==> h.Head? && |r.rest| == |h.rest| - h.remlen
  {
    hide ParseHead, Ack.ParseProps, LbParse;
  }

  /** So does a SUBSCRIBE whose bytes end where its remaining length does. */
  lemma SubUses(m0: Sub.Msg, s: seq<byte>)
    ensures var r, h := Sub.Parse(m0, s), ParseHead(m0.flags, s);
      r.Parsed? ==> h.Head? && (|h.rest| == h.remlen ==> r.rest == [])
  {
    hide ParseHead, ReadSlots, Sub.SubSlots, Sub.WithSlots, Sub.ReadTopics, LbParse;
    var f := IdFront.ParseFront(m0.flags, s);
    if f.Front? {
      var p := Sub.ParseProps(m0.props, f.rest);
      if p.GotProps? { TopicsFill(p.rest); }
    }
  }

  /** Filters that fill what is left are read to the end. */
  lemma {:induction false} TopicsFill(s: seq<byte>)
    ensures var t := Sub.ReadTopics(s, |s|); t.GotTopics? ==> t.rest == []
    decreases |s|
  {
    hide Sub.ReadOne;
    if s != [] {
      var o := Sub.ReadOne(s);
      if o.GotOne? { TopicsFill(o.rest); }
    }
  }

  /** Whatever is decoded from a frame uses all of it. */
  lemma FrameUsed(q: seq<byte>)
    requires Size(q).Sized? && Size(q).total <= |q|
    ensures var d := Decoded(Size(q).mtype, q[..Size(q).total]); d.Whole? ==> d.n == Size(q).total
  {
    hide Pub.Parse, Sub.Parse, Ack.Parse, ParseHead, Size;
    var b := q[..Size(q).total];
    PubUses(Pub.FRESH, b);
    SubUses(Sub.FRESH, b);
    AckUses(Ack.FRESH, b);
    HeadOfFrame(q, Pub.FRESH.flags);
    HeadOfFrame(q, Sub.FRESH.flags);
    HeadOfFrame(q, Ack.FRESH.flags);
  }

  lemma {:induction false} SizePositive(q: seq<byte>, cnt: nat)
    requires cnt >= 2
    ensures SizeFrom(q, cnt).Sized? ==> SizeFrom(q, cnt).total > 0
    decreases 6 - cnt
  {
    hide Uvarint;
    if cnt <= 5 && |q| >= cnt && q[cnt - 1] >= 0x80 { SizePositive(q, cnt + 1); }
  }

  /** Whatever bytes arrive, a packet that is accepted takes out exactly the frame its header
      announces: no peer can make the processor lose the boundaries of the stream. */
  lemma NextConsumes(q: seq<byte>, lim: Limits)
    ensures var x := Next(q, lim);
      x.Ready? ==> Size(q).Sized? && x.n == Size(q).total && 0 < x.n <= |q|
  {
    SizePositive(q, 2);
    var z := Size(q);
    if z.Sized? && z.total <= |q| { FrameUsed(q); }
    hide Decoded, Size;
  }

  /** Everything the processor takes from a ring that holds q. */
  function Drain(q: seq<byte>, lim: Limits): seq<Packet>
    decreases |q|
  {
    NextConsumes(q, lim);
    match Next(q, lim)
    case Ready(p, n) => [p] + Drain(q[n..], lim)
    case _ => []
  }

  /** The reading side of the processor's loop, until it would have to wait or has to stop. */
  method Process(ring: ByteRing.Ring, maxPacketSize: nat) returns (packets: seq<Packet>, why: PeekFault)
    requires ring.Valid() && ring.size >= 5
    modifies ring`tmp, ring`cseq
    ensures ring.Valid() && ring.size == old(ring.size)
    ensures packets == Drain(old(ring.Contents()), Limits(ring.size, maxPacketSize))
    ensures match Next(ring.Contents(), Limits(ring.size, maxPacketSize))
      case Ready(_, _) => false
      case Wait => why == Ring(if ring.done then ByteRing.Eof else ByteRing.Blocked)
      case Stop(e) => why == e
  {
    hide Next;
    packets := [];
    ghost var q, lim := ring.Contents(), Limits(ring.size, maxPacketSize);
    while true
      invariant ring.Valid() && ring.size == lim.ring
      invariant Drain(q, lim) == packets + Drain(ring.Contents(), lim)
      decreases |ring.Contents()|
    {
      NextConsumes(ring.Contents(), lim);
      var p, n, err := ReadNext(ring, maxPacketSize);
      if err.Some? {
        return packets, err.value;
      }
      ConcatAssoc(packets, [p.value], Drain(ring.Contents(), lim));
      packets := packets + [p.value];
    }
  }

  function Stream(ps: seq<Packet>): seq<byte>
    requires forall p :: p in ps ==> Good(p)
  {
    if ps == [] then [] else WireOf(ps[0]) + Stream(ps[1..])
  }

  /** One packet at the front is taken by one turn. */
  lemma OneDrained(p: Packet, rest: seq<byte>, lim: Limits)
    requires Good(p) && Allowed(|WireOf(p)|, lim)
    ensures Drain(WireOf(p) + rest, lim) == [p] + Drain(rest, lim)
  {
    hide Next, WireOf, Good;
    FrameRead(p, rest, lim);
    assert (WireOf(p) + rest)[|WireOf(p)|..] == rest;
  }

  /** A stream of packets that fit the ring is cut exactly at their boundaries: the processor gets
      these packets, in order, and then goes on with what follows. */
  lemma {:induction false} StreamRecovered(ps: seq<Packet>, tail: seq<byte>, lim: Limits)
    requires forall p :: p in ps ==> Good(p) && Allowed(|WireOf(p)|, lim)
    ensures Drain(Stream(ps) + tail, lim) == ps + Drain(tail, lim)
    decreases |ps|
  {
    hide Drain, WireOf, Good;
    if ps == [] {
      assert Stream(ps) + tail == tail;
      assert ps + Drain(tail, lim) == Drain(tail, lim);
    } else {
      StreamRecovered(ps[1..], tail, lim);
      ConcatAssoc(WireOf(ps[0]), Stream(ps[1..]), tail);
      OneDrained(ps[0], Stream(ps[1..]) + tail, lim);
      ConcatAssoc([ps[0]], ps[1..], Drain(tail, lim));
      assert [ps[0]] + ps[1..] == ps;
    }
  }

  // ----- deliveries and turns, in any order -----

  /** Bytes arrive in the ring, or the processor takes one turn. */
  datatype Event = Arrive(bytes: seq<byte>) | Turn

  /** What the ring holds, and the packets read so far. */
  datatype Conn = Conn(held: seq<byte>, packets: seq<Packet>)

  function Happens(c: Conn, e: Event, lim: Limits): Conn {
    match e
    case Arrive(b) => c.(held := c.held + b)
    case Turn =>
      NextConsumes(c.held, lim);
      match Next(c.held, lim)
      case Ready(p, n) => Conn(c.held[n..], c.packets + [p])
      case _ => c
  }

  function RunConn(es: seq<Event>, lim: Limits): Conn {
    if es == [] then Conn([], []) else Happens(RunConn(es[..|es| - 1], lim), es[|es| - 1], lim)
  }

  function Arrived(es: seq<Event>): seq<byte> {
    if es == [] then []
    else Arrived(es[..|es| - 1]) + match es[|es| - 1] case Arrive(b) => b case Turn => []
  }

  lemma {:induction false} SizeStable(q: seq<byte>, more: seq<byte>, cnt: nat)
    requires cnt >= 2 && SizeFrom(q, cnt) != More
    ensures SizeFrom(q + more, cnt) == SizeFrom(q, cnt)
    decreases 6 - cnt
  {
    if cnt <= 5 {
      assert (q + more)[1..cnt] == q[1..cnt];
      if q[cnt - 1] >= 0x80 { SizeStable(q, more, cnt + 1); }
    }
  }

  /** A turn that does not have to wait does the same whatever arrives in the meantime. */
  lemma NextStable(q: seq<byte>, more: seq<byte>, lim: Limits)
    requires !Next(q, lim).Wait?
    ensures Next(q + more, lim) == Next(q, lim)
  {
    hide Decoded;
    SizeStable(q, more, 2);
    var z := Size(q);
    if z.Sized? && z.total <= |q| { assert (q + more)[..z.total] == q[..z.total]; }
  }

  /** However a stream is cut into deliveries and wherever the processor's turns fall between
      them: what has been read, then what the ring holds and whatever is still to come, give the
      packets of the whole stream. */
  lemma {:induction false} CutAnywhere(es: seq<Event>, coming: seq<byte>, lim: Limits)
    ensures var c := RunConn(es, lim);
      Drain(Arrived(es) + coming, lim) == c.packets + Drain(c.held + coming, lim)
  {
    hide Next;
    if es == [] {
      assert [] + coming == coming;
      assert [] + Drain(coming, lim) == Drain(coming, lim);
    } else {
      var init, e := es[..|es| - 1], es[|es| - 1];
      var c := RunConn(init, lim);
      match e
      case Arrive(b) =>
        CutAnywhere(init, b + coming, lim);
        assert Arrived(es) + coming == Arrived(init) + (b + coming);
        assert (c.held + b) + coming == c.held + (b + coming);
      case Turn =>
        CutAnywhere(init, coming, lim);
        assert Arrived(es) == Arrived(init);
        TurnTakes(c, coming, lim);
    }
  }

  lemma TurnTakes(c: Conn, coming: seq<byte>, lim: Limits)
    ensures var d := Happens(c, Turn, lim);
      c.packets + Drain(c.held + coming, lim) == d.packets + Drain(d.held + coming, lim)
  {
    hide Next;
    NextConsumes(c.held, lim);
    var x := Next(c.held, lim);
    if x.Ready? {
      NextStable(c.held, coming, lim);
      assert (c.held + coming)[x.n..] == c.held[x.n..] + coming;
      var more := Drain(c.held[x.n..] + coming, lim);
      assert Drain(c.held + coming, lim) == [x.packet] + more;
      assert c.packets + ([x.packet] + more) == (c.packets + [x.packet]) + more;
    }
  }

  /** Deliveries and processor never block each other: a full ring holds a packet to take, or
      one that stops the connection. */
  lemma FullNeverWaits(q: seq<byte>, lim: Limits)
    requires |q| == lim.ring >= 5
    ensures !Next(q, lim).Wait?
  {
    NeverMore(q, 2);
  }

  lemma {:induction false} NeverMore(q: seq<byte>, cnt: nat)
    requires |q| >= 5 && cnt >= 2
    ensures SizeFrom(q, cnt) != More
    decreases 6 - cnt
  {
    if cnt <= 5 { NeverMore(q, cnt + 1); }
  }

  /** So when packets that fit the ring have arrived, in whatever pieces, and the processor has
      nothing left to do, exactly these packets have been read. */
  lemma AllPacketsRead(ps: seq<Packet>, es: seq<Event>, lim: Limits)
    requires forall p :: p in ps ==> Good(p) && Allowed(|WireOf(p)|, lim)
    requires Arrived(es) == Stream(ps) && !Next(RunConn(es, lim).held, lim).Ready?
    ensures RunConn(es, lim).packets == ps
  {
    hide Next, WireOf, Good;
    var c := RunConn(es, lim);
    CutAnywhere(es, [], lim);
    StreamRecovered(ps, [], lim);
    NothingToDrain(lim);
    assert Stream(ps) + [] == Stream(ps) && c.held + [] == c.held;
    assert ps + [] == ps && c.packets + [] == c.packets;
  }

  lemma NothingToDrain(lim: Limits)
    ensures Drain([], lim) == []
  {
  }

  function Turns(k: nat): (es: seq<Event>)
    ensures |es| == k
  {
    if k == 0 then [] else Turns(k - 1) + [Turn]
  }

  /** Whatever has arrived: k turns read the next k packets that are complete, or all there are. */
  lemma {:induction false} TurnsRead(es: seq<Event>, k: nat, lim: Limits)
    ensures var c, d, all := RunConn(es, lim), RunConn(es + Turns(k), lim), Drain(RunConn(es, lim).held, lim);
      if k <= |all| then d.packets == c.packets + all[..k] && Drain(d.held, lim) == all[k..]
      else d.packets == c.packets + all && Drain(d.held, lim) == []
    decreases k
  {
    hide Next, Drain;
    var c, all := RunConn(es, lim), Drain(RunConn(es, lim).held, lim);
    if k == 0 {
      assert es + [] == es && c.packets + [] == c.packets;
    } else {
      TurnsRead(es, k - 1, lim);
      assert es + Turns(k) == (es + Turns(k - 1)) + [Turn];
      OneTurn(es + Turns(k - 1), lim);
      if k <= |all| {
        assert c.packets + all[..k] == (c.packets + all[..k - 1]) + [all[k - 1]];
      }
    }
  }

  lemma OneTurn(es: seq<Event>, lim: Limits)
    ensures var c, d := RunConn(es, lim), RunConn(es + [Turn], lim);
      var all := Drain(c.held, lim);
      if all == [] then d.packets == c.packets && Drain(d.held, lim) == []
      else d.packets == c.packets + [all[0]] && Drain(d.held, lim) == all[1..]
  {
    hide Next;
    var c := RunConn(es, lim);
    assert (es + [Turn])[..|es|] == es;
    NextConsumes(c.held, lim);
  }

  /** So as many turns as packets have arrived are enough, wherever the earlier ones fell. */
  lemma EnoughTurns(ps: seq<Packet>, es: seq<Event>, lim: Limits)
    requires forall p :: p in ps ==> Good(p) && Allowed(|WireOf(p)|, lim)
    requires Arrived(es) == Stream(ps)
    ensures RunConn(es + Turns(|ps|), lim).packets == ps
  {
    hide Next, WireOf, Good, RunConn;
    var c := RunConn(es, lim);
    CutAnywhere(es, [], lim);
    StreamRecovered(ps, [], lim);
    NothingToDrain(lim);
    assert Stream(ps) + [] == Stream(ps) && c.held + [] == c.held && ps + [] == ps;
    TurnsRead(es, |ps|, lim);
    assert |Drain(c.held, lim)| <= |ps|;
    assert Drain(c.held, lim)[..|Drain(c.held, lim)|] == Drain(c.held, lim);
  }
}
