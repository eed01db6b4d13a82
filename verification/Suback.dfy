/** SUBACK packets: what the encoders write, what the decoder makes of bytes, and exactly which
    acknowledgements survive the trip. */
module Suback {
  import opened Common
  import opened VarInt
  import opened Props
  import opened Header
  import opened IdFront

  datatype AckProps = AckProps(reason: seq<byte>, userProperty: seq<seq<byte>>)

  datatype Msg = Msg(flags: byte, packetId: seq<byte>, props: AckProps, codes: seq<byte>)

  const NO_PROPS := AckProps([], [])

  /** NewSubackMessage */
  const FRESH := Msg(144, [], NO_PROPS, [])

  /** ValidSubAckReasonCode */
  predicate ValidCode(c: byte) {
    c in {0x00, 0x01, 0x02, 0x80, 0x83, 0x87, 0x8F, 0x91, 0x97, 0x9E, 0xA1, 0xA2}
  }

  predicate ValidCodes(cs: seq<byte>) {
    forall i :: 0 <= i < |cs| ==> ValidCode(cs[i])
  }

  function AckSlots(p: AckProps): Slots {
    Cons(Slot(0x1F, true, false, false, Text(p.reason)),
      Cons(Slot(USER_PROPERTY, true, true, false, Pairs(p.userProperty)), Nil))
  }

  // ----- writing -----

  /** A missing packet identifier is written as zero. */
  function IdBytes(id: seq<byte>): seq<byte> {
    if |id| == 2 then id else [0, 0]
  }

  function PropsLen(m: Msg): nat {
    SlotsLen(AckSlots(m.props))
  }

  /** The remaining length build computes. */
  function BodyLen(m: Msg): nat {
    2 + PropsLen(m) + |VarBytes(PropsLen(m))| + |m.codes|
  }

  function Body(m: Msg): seq<byte>
    requires AllFit(AckSlots(m.props))
  {
    IdBytes(m.packetId) + (VarBytes(PropsLen(m)) + (WireSlots(AckSlots(m.props)) + m.codes))
  }

  function WireOf(m: Msg): seq<byte>
    requires AllFit(AckSlots(m.props))
  {
    HeadBytes(m.flags, BodyLen(m)) + Body(m)
  }

  predicate Encodable(m: Msg) {
    && MType(m.flags) == SUBACK && ValidCodes(m.codes)
    && |m.props.reason| <= MAX_LP && Whole(m.props.userProperty) && BodyLen(m) <= MAX_REMAINING
  }

  // ----- reading -----

  datatype PropsScan = GotProps(props: AckProps, rest: seq<byte>) | BadProps(fault: Fault)

  function ParseProps(p: AckProps, s: seq<byte>): PropsScan {
    match ReadSlots(AckSlots(p), s)
    case FailAll(e) => BadProps(e)
    case TookAll(slots, rest) => GotProps(WithSlots(p, slots), rest)
  }

  function WithSlots(p: AckProps, slots: Slots): AckProps {
    match slots
    case Cons(Slot(_, _, _, _, Text(reason)), Cons(Slot(_, _, _, _, Pairs(up)), Nil)) => AckProps(reason, up)
    case _ => p
  }

  datatype Scan = Parsed(m: Msg, propsLen: nat, rest: seq<byte>) | Failed(fault: Fault)

  /** Decode into a message that already has the values m0. */
  function Parse(m0: Msg, s: seq<byte>): Scan {
    match ParseFront(m0.flags, s)
    case NoFront(e) => Failed(e)
    case Front(flags, id, propsLen, left, s1) =>
      Finish(Msg(flags, id, m0.props, m0.codes), propsLen, left - |s1|, ParseProps(m0.props, s1))
  }

  /** The reason codes are what is left of the remaining length. */
  function Finish(m: Msg, propsLen: nat, over: int, r: PropsScan): Scan {
    match r
    case BadProps(e) => Failed(e)
    case GotProps(props, s) =>
      var l := over + |s|;
      if l == 0 then Failed(ProtocolError)
      else if l < 0 || l > |s| then Failed(Panic)
      else if !ValidCodes(s[..l]) then Failed(ProtocolError)
      else Parsed(m.(props := props, codes := s[..l]), propsLen, s[l..])
  }

  // ----- the round trip -----

  /** What a caller can check before encoding. No legal reason code is a property identifier, so
      nothing needs to be said about the first one. */
  predicate Survives(m: Msg) {
    m.flags == 144 && |m.packetId| == 2 && |m.props.userProperty| % 2 == 0 && m.codes != []
  }

  lemma AckSlotsFacts(p: AckProps)
    ensures var ss, up := AckSlots(p), p.userProperty;
      && Table(ss) && (AllFit(ss) <==> |p.reason| <= MAX_LP)
      && (AllWhole(ss) <==> Whole(up))
      && (AllFaithful(ss) <==> |up| % 2 == 0 && Whole(up))
      && Blank(ss) == AckSlots(NO_PROPS)
      && (AllFit(ss) ==> TailIds(ss) <= {0x1F, 0x26})
  {
    var ss, up := AckSlots(p), p.userProperty;
    assert Ids(ss.tail.tail) == {} && Ids(ss.tail) == {0x26} && Table(ss.tail) && AllFit(ss.tail);
    assert AllWhole(ss.tail) <==> Whole(up);
    assert AllFaithful(ss.tail) <==> |up| % 2 == 0 && Whole(up);
    assert Blank(ss.tail) == AckSlots(NO_PROPS).tail;
    assert WireSlots(ss.tail.tail) == [] && TailIds(ss.tail) == {0x26};
  }

  /** Decoding what was encoded gives back every field, if and only if the message survives; and
      then exactly the encoded bytes are used. */
  lemma SubackRoundTrip(m: Msg, extra: seq<byte>)
    requires Encodable(m)
    ensures AllFit(AckSlots(m.props))
    ensures var r := Parse(FRESH, WireOf(m) + extra);
      && (r.Parsed? && r.m == m <==> Survives(m))
      && (Survives(m) ==> r == Parsed(m, PropsLen(m), extra))
  {
    hide ReadSlots, WireSlots, SlotsLen, ParseFront, ParseProps, Finish;
    AckSlotsFacts(m.props);
    FlagsKept(FRESH, WireOf(m) + extra);
    NoCodesRefused(FRESH, WireOf(m) + extra);
    if m.flags == 144 && |m.packetId| == 2 {
      var w, tail := WireSlots(AckSlots(m.props)), m.codes + extra;
      BodySplit(m, extra);
      BodyLength(m);
      FrontBack(144, 144, m.packetId, BodyLen(m), PropsLen(m), w + tail);
      FinishBack(m, extra, PropsLen(m), ParseProps(NO_PROPS, w + tail));
      if m.codes != [] {
        assert tail[0] == m.codes[0];
        PropsBack(m, tail);
      }
    }
  }

  /** No legal reason code is taken for a property. */
  lemma PropsBack(m: Msg, tail: seq<byte>)
    requires Encodable(m) && AllFit(AckSlots(m.props)) && tail != [] && ValidCode(tail[0])
    ensures var r := ParseProps(NO_PROPS, WireSlots(AckSlots(m.props)) + tail);
      && (|m.props.userProperty| % 2 == 0 ==> r == GotProps(m.props, tail))
      && (r.GotProps? && r.props == m.props && |r.rest| == |tail| ==> |m.props.userProperty| % 2 == 0)
  {
    var ss := AckSlots(m.props);
    var s := WireSlots(ss) + tail;
    AckSlotsFacts(m.props);
    ClearMeans(ss, tail);
    SlotsRoundTrip(ss, tail);
    if ReadSlots(AckSlots(NO_PROPS), s).TookAll? {
      ShapeKept(AckSlots(NO_PROPS), s);
      SlotsOfShape(ReadSlots(AckSlots(NO_PROPS), s).slots);
    }
  }

  lemma SlotsOfShape(slots: Slots)
    requires SameShape(slots, AckSlots(NO_PROPS))
    ensures slots == AckSlots(WithSlots(NO_PROPS, slots))
  {
    var t := AckSlots(NO_PROPS);
    assert SameShape(slots.tail, t.tail);
    assert SameShape(slots.tail.tail, Nil);
  }

  lemma FlagsKept(m0: Msg, s: seq<byte>)
    ensures var r := Parse(m0, s);
      r.Parsed? ==> ValidFirst(r.m.flags, MType(m0.flags)) && |r.m.packetId| == 2
  {
  }

  lemma NoCodesRefused(m0: Msg, s: seq<byte>)
    ensures Parse(m0, s).Parsed? ==> Parse(m0, s).m.codes != []
  {
  }

  lemma FinishBack(m: Msg, extra: seq<byte>, propsLen: nat, r: PropsScan)
    requires ValidCodes(m.codes) && m.flags == 144
    ensures var f := Finish(Msg(144, m.packetId, NO_PROPS, []), propsLen, -|extra|, r);
      && (r == GotProps(m.props, m.codes + extra) && m.codes != [] ==> f == Parsed(m, propsLen, extra))
      && (f.Parsed? && f.m == m ==> r.GotProps? && r.props == m.props && |r.rest| == |m.codes + extra|)
  {
  }

  lemma BodySplit(m: Msg, extra: seq<byte>)
    requires AllFit(AckSlots(m.props))
    ensures WireOf(m) + extra
      == HeadBytes(m.flags, BodyLen(m)) + (IdBytes(m.packetId) + (VarBytes(PropsLen(m))
        + (WireSlots(AckSlots(m.props)) + (m.codes + extra))))
  {
  }

  /** The computed remaining length is the length of what is written. */
  lemma BodyLength(m: Msg)
    requires Encodable(m) && AllFit(AckSlots(m.props))
    ensures |Body(m)| == BodyLen(m) && |WireSlots(AckSlots(m.props))| == PropsLen(m)
  {
    AckSlotsFacts(m.props);
    SlotsLength(AckSlots(m.props));
  }
}
