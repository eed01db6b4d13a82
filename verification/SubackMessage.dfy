/** The SUBACK message object, against the definitions of Suback. */
module SubackMessage {
  import opened Common
  import opened VarInt
  import opened Props
  import opened Wire
  import opened SlotCodec
  import opened Header
  import opened IdFront
  import opened Suback

  function LenOf(m: Msg): nat {
    |HeadBytes(m.flags, BodyLen(m))| + BodyLen(m)
  }

  /** What the encoders refuse after the codes and the room have been looked at. */
  function LateRefusal(m: Msg): Option<Fault> {
    if !ValidType(MType(m.flags)) then Some(InvalidMessage)
    else if |m.props.reason| > MAX_LP then Some(TooLong)
    else None
  }

  class SubackMessage {
    const head: Fixed
    var propertiesLen: nat
    var props: AckProps
    var reasonCodes: seq<byte>

    constructor ()
      ensures fresh(head) && Valid() && View() == FRESH
    {
      head := new Fixed(SUBACK);
      propertiesLen, props, reasonCodes := 0, NO_PROPS, [];
    }

    function View(): Msg
      reads this, head
    {
      Msg(head.mtypeflags, head.packetId, props, reasonCodes)
    }

    predicate Valid()
      reads head
    {
      |head.packetId| == 0 || |head.packetId| == 2
    }

    /** build */
    method Build()
      requires BodyLen(View()) <= MAX_REMAINING
      modifies this`propertiesLen, head`remlen
      ensures propertiesLen == PropsLen(View()) && head.remlen == BodyLen(View())
    {
      var total := 2;
      if |props.reason| > 0 {
        total := total + 1 + 2 + |props.reason|;
      }
      var n := BuildUserPropertyLen(props.userProperty);
      total := total + n;
      var ss := AckSlots(props);
      LenOfCons(ss.head, ss.tail);
      LenOfCons(ss.tail.head, Nil);
      propertiesLen := total - 2;
      var b := LbEncode(propertiesLen);
      total := total + |b|;
      total := total + |reasonCodes|;
      var ok := head.SetRemainingLength(total);
    }

    method Len() returns (n: nat)
      requires BodyLen(View()) <= MAX_REMAINING
      modifies this`propertiesLen, head`remlen
      ensures n == LenOf(View())
    {
      Build();
      n := head.Msglen() + head.remlen;
    }

    /** The check both encoders begin with. */
    method CodesValid() returns (ok: bool)
      ensures ok == ValidCodes(reasonCodes)
      ensures ok <==> forall c :: c in reasonCodes ==> c <= 2 || c in {0x80, 0x83, 0x87, 0x8F, 0x91, 0x97, 0x9E, 0xA1, 0xA2}
    {
      for i := 0 to |reasonCodes|
        invariant ValidCodes(reasonCodes[..i])
      {
        if !ValidCode(reasonCodes[i]) {
          assert reasonCodes[i] in reasonCodes;
          return false;
        }
      }
      assert reasonCodes[..|reasonCodes|] == reasonCodes;
      return true;
    }

    method Encode(dst: array<byte>) returns (total: nat, err: Option<Fault>)
      requires Valid() && BodyLen(View()) <= MAX_REMAINING
      modifies this`propertiesLen, head`remlen, dst
      ensures View() == old(View())
      ensures err == if !ValidCodes(reasonCodes) then Some(BadReasonCode)
        else if dst.Length < LenOf(View()) then Some(Insufficient)
        else LateRefusal(View())
      ensures err.None? ==> AllFit(AckSlots(props)) && total == |WireOf(View())| <= dst.Length
      ensures err.None? ==> dst[..] == Splice(old(dst[..]), 0, WireOf(View()))
    {
      var ok := CodesValid();
      if !ok {
        return 0, Some(BadReasonCode);
      }
      Build();
      if dst.Length < head.Msglen() + head.remlen {
        return 0, Some(Insufficient);
      }
      AckSlotsFacts(props);
      total, err := EncodeAll(dst, AckSlots(props));
      if err.None? {
        WireParts(View());
      }
    }

    method EncodeAll(dst: array<byte>, ss: Slots) returns (total: nat, err: Option<Fault>)
      requires Table(ss) && propertiesLen == SlotsLen(ss) < VAR_LIMIT && head.remlen <= MAX_REMAINING
      requires head.Msglen() + 2 + |VarBytes(propertiesLen)| + propertiesLen + |reasonCodes| <= dst.Length
      modifies dst
      ensures err == if !ValidType(MType(head.mtypeflags)) then Some(InvalidMessage) else if AllFit(ss) then None else Some(TooLong)
      ensures err.None? ==>
        var bytes := HeadBytes(head.mtypeflags, head.remlen) + IdBytes(head.packetId) + RestBytes(propertiesLen, ss, reasonCodes);
        total == |bytes| <= dst.Length && dst[..] == Splice(old(dst[..]), 0, bytes)
    {
      hide Splice, RestBytes, HeadBytes, SlotsLen, WireSlots, AllFit, Table, VarBytes;
      ghost var was := dst[..];
      total, err := head.Encode(dst);
      if err.Some? {
        return;
      }
      ghost var out := HeadBytes(head.mtypeflags, head.remlen);
      Copy(dst, total, if |head.packetId| == 2 then head.packetId else [0, 0]);
      SpliceTwice(was, 0, out, IdBytes(head.packetId));
      out := out + IdBytes(head.packetId);
      total := total + 2;
      var n;
      n, err := EncodeRest(dst, total, propertiesLen, ss, reasonCodes);
      if err.None? {
        SpliceTwice(was, 0, out, RestBytes(propertiesLen, ss, reasonCodes));
        total := total + n;
      }
    }

    /** The bytes before an error stay in the buffer. */
    method EncodeToBuf(dst: Buf) returns (err: Option<Fault>)
      requires Valid() && BodyLen(View()) <= MAX_REMAINING
      modifies this`propertiesLen, head`remlen, dst
      ensures View() == old(View()) && old(dst.data) <= dst.data
      ensures err == if !ValidCodes(reasonCodes) then Some(BadReasonCode)
        else if LateRefusal(View()) == None && !Whole(props.userProperty) then Some(TooLong)
        else LateRefusal(View())
      ensures err.None? ==> AllFit(AckSlots(props)) && dst.data == old(dst.data) + WireOf(View())
    {
      var ok := CodesValid();
      if !ok {
        return Some(BadReasonCode);
      }
      Build();
      err := head.EncodeToBuf(dst);
      if err.Some? {
        return;
      }
      ghost var out := HeadBytes(head.mtypeflags, head.remlen);
      dst.Write(if |head.packetId| != 2 then [0, 0] else head.packetId);
      Associate(old(dst.data), out, IdBytes(head.packetId));
      out := out + IdBytes(head.packetId);
      AckSlotsFacts(props);
      ghost var ss := AckSlots(props);
      err := EncodeRestToBuf(dst, propertiesLen, AckSlots(props), reasonCodes);
      if err.None? {
        Associate(old(dst.data), out, RestBytes(propertiesLen, ss, reasonCodes));
        WireParts(View());
      }
    }

    /** After an error the fields read so far are overwritten, with what is not said. */
    method Decode(src: seq<byte>) returns (total: nat, err: Option<Fault>)
      requires Valid() && MType(head.mtypeflags) == SUBACK
      modifies this, head
      ensures err.Some? ==> Parse(old(View()), src) == Failed(err.value)
      ensures err.None? ==> Valid() && total <= |src| && Parse(old(View()), src) == Parsed(View(), propertiesLen, src[total..])
    {
      var hn;
      hn, total, propertiesLen, err := DecodeFront(head, src);
      if err.None? {
        total, err := DecodeRest(src, total, head.remlen - (total - hn), Parse(old(View()), src));
      }
    }

    /** Properties and codes; left is what the remaining length leaves for them. */
    method DecodeRest(src: seq<byte>, at: nat, left: int, ghost whole: Scan) returns (total: nat, err: Option<Fault>)
      requires at <= |src|
      requires whole == Finish(View(), propertiesLen, left - (|src| - at), ParseProps(props, src[at..]))
      modifies this`props, this`reasonCodes
      ensures err.Some? ==> whole == Failed(err.value)
      ensures err.None? ==> total <= |src| && whole == Parsed(View(), propertiesLen, src[total..])
    {
      hide ReadSlots, AckSlots, WithSlots;
      var slots, n;
      slots, n, err := TakeSlots(src, at, AckSlots(props));
      total := at + n;
      if err.Some? {
        return;
      }
      props := WithSlots(props, slots);
      var l := left - n;
      if l == 0 {
        return total, Some(ProtocolError);
      }
      if l < 0 || l > |src| - total {
        return total, Some(Panic);
      }
      DropDrop(src, total, l);
      reasonCodes := src[total..][..l];
      total := total + l;
      var ok := CodesValid();
      if !ok {
        return total, Some(ProtocolError);
      }
    }
  }

  lemma WireParts(m: Msg)
    requires AllFit(AckSlots(m.props))
    ensures WireOf(m) == HeadBytes(m.flags, BodyLen(m)) + IdBytes(m.packetId) + RestBytes(PropsLen(m), AckSlots(m.props), m.codes)
  {
  }
}
