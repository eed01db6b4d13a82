/** What SUBSCRIBE and SUBACK have in front of their properties: the fixed header, a packet
    identifier and the property length. */
module IdFront {
  import opened Common
  import opened VarInt
  import opened Wire
  import opened Header

  /** left: how much of the remaining length is left. */
  datatype Front = Front(flags: byte, packetId: seq<byte>, propsLen: nat, left: int, rest: seq<byte>) | NoFront(fault: Fault)

  function ParseFront(was: byte, s: seq<byte>): (r: Front)
    ensures r.Front? ==> |r.packetId| == 2
  {
    match ParseHead(was, s)
    case NoHead(e) => NoFront(e)
    case Head(flags, remlen, body) =>
      if |body| < 2 then NoFront(Panic)
      else match LbParse(body[2..])
        case Bad(e) => NoFront(e)
        case Got(propsLen, rest) =>
          if propsLen > |rest| then NoFront(ProtocolError)
          else Front(flags, body[..2], propsLen, remlen - (|body| - |rest|), rest)
  }

  /** What has been written is read back; a property length that exceeds the packet is refused. */
  lemma FrontBack(was: byte, flags: byte, id: seq<byte>, remlen: nat, propsLen: nat, rest: seq<byte>)
    requires |id| == 2 && propsLen <= MAX_REMAINING
    requires 0 < remlen <= MAX_REMAINING && remlen <= 2 + |VarBytes(propsLen)| + |rest|
    ensures var v := VarBytes(propsLen);
      ParseFront(was, HeadBytes(flags, remlen) + (id + (v + rest)))
        == if !ValidFirst(flags, MType(was)) then NoFront(InvalidMessage)
           else if propsLen > |rest| then NoFront(ProtocolError)
           else Front(flags, id, propsLen, remlen - 2 - |v|, rest)
  {
    var body := id + (VarBytes(propsLen) + rest);
    HeadReads(was, flags, remlen, body);
    assert body[..2] == id && body[2..] == VarBytes(propsLen) + rest;
    LbRoundTrip(propsLen, rest);
  }

  /** hn is where the header ends. */
  method DecodeFront(head: Fixed, src: seq<byte>) returns (hn: nat, total: nat, propsLen: uint32, err: Option<Fault>)
    requires MType(head.mtypeflags) in {SUBSCRIBE, SUBACK}
    modifies head
    ensures var f := ParseFront(old(head.mtypeflags), src);
      && (err.Some? ==> f == NoFront(err.value))
      && (err.None? ==>
        && hn <= total <= |src| && |head.packetId| == 2
        && f == Front(head.mtypeflags, head.packetId, propsLen, head.remlen - (total - hn), src[total..]))
  {
    total, propsLen := 0, 0;
    hn, err := head.Decode(src);
    if err.Some? {
      return;
    }
    if |src| - hn < 2 {
      return hn, hn, 0, Some(Panic);
    }
    assert src[hn..][..2] == src[hn..hn + 2];
    DropDrop(src, hn, 2);
    head.packetId := src[hn..hn + 2];
    total := hn + 2;
    var n;
    propsLen, n, err := LbDecode(src[total..]);
    if err.Some? {
      return;
    }
    DropDrop(src, total, n);
    total := total + n;
    if propsLen > |src| - total {
      return hn, total, propsLen, Some(ProtocolError);
    }
  }
}
