/** The packets byte by byte, in the terms of sections 2 and 3 of MQTT Version 5.0 and of nothing
    the codec is made of: what each identifier, bit and prefix in the encoded bytes stands for. */
module Layout {
  import opened Common
  import opened Bits
  import opened VarInt
  import opened Props
  import opened Header
  import Publish
  import Subscribe
  import SubscribeMessage
  import Suback

  /** Section 1.5.4: a string behind its length, most significant byte first. */
  function Str(b: seq<byte>): seq<byte>
    requires |b| <= 65535
  {
    [|b| / 256, |b| % 256] + b
  }

  /** Section 1.5.7: user properties, a last name without a value completed. */
  function UserProperties(ps: seq<seq<byte>>): seq<byte>
    requires forall i :: 0 <= i < |ps| ==> |ps[i]| <= 65535
  {
    if ps == [] then []
    else if |ps| == 1 then [0x26] + Str(ps[0]) + [0, 0]
    else [0x26] + Str(ps[0]) + Str(ps[1]) + UserProperties(ps[2..])
  }

  /** A property that is left out when it has no value. */
  function Property(id: byte, here: bool, value: seq<byte>): seq<byte> {
    if here then [id] + value else []
  }

  /** The first byte, the remaining length, and as many bytes. */
  function Packet(first: byte, rest: seq<byte>): seq<byte> {
    [first] + VarBytes(|rest|) + rest
  }

  /** Properties behind their length. */
  function Counted(props: seq<byte>): seq<byte> {
    VarBytes(|props|) + props
  }

  // ----- PUBLISH: section 3.3 -----

  function PublishProperties(p: Publish.PubProps): seq<byte>
    requires |p.responseTopic| <= 65535 && |p.correlation| <= 65535 && |p.contentType| <= 65535 && Whole(p.userProperty)
  {
    Property(0x01, p.formatIndicator != 0, [p.formatIndicator])
    + (Property(0x02, p.expiry != 0, [p.expiry / 0x100_0000, p.expiry / 0x1_0000 % 256, p.expiry / 0x100 % 256, p.expiry % 256])
    + (Property(0x23, p.alias != 0, [p.alias / 256, p.alias % 256])
    + (Property(0x08, p.responseTopic != [], Str(p.responseTopic))
    + (Property(0x09, p.correlation != [], Str(p.correlation))
    + (UserProperties(p.userProperty)
    + (Property(0x0B, 0 < p.subscriptionId < 168435455, VarBytes(p.subscriptionId))
    + Property(0x03, p.contentType != [], Str(p.contentType))))))))
  }

  lemma {:induction false} PairsLaidOut(ps: seq<seq<byte>>)
    requires Whole(ps)
    ensures PairsBytes(ps) == UserProperties(ps)
    decreases |ps|
  {
    if |ps| > 1 {
      PairsLaidOut(ps[2..]);
    }
  }

  /** Where a name or a value is too long, writing stops: everything before it has been written, and
      so has its identifier. */
  lemma {:induction false} PairsStop(whole: seq<seq<byte>>, more: seq<seq<byte>>)
    requires Whole(whole) && |whole| % 2 == 0 && more != []
    ensures |more[0]| > 65535 ==> PairsBytes(whole + more) == UserProperties(whole) + [0x26]
    ensures |more| > 1 && |more[0]| <= 65535 < |more[1]| ==>
      PairsBytes(whole + more) == UserProperties(whole) + ([0x26] + Str(more[0]))
    decreases |whole|
  {
    hide PairsBytes, UserProperties, Whole, Str;
    if whole == [] {
      assert whole + more == more;
      NoPairs();
      StopsAt(more);
    } else {
      TwoMore(whole, more);
      PairsStop(whole[2..], more);
      assert (whole + more)[2..] == whole[2..] + more;
    }
  }

  lemma NoPairs()
    ensures Whole([]) && UserProperties([]) == []
  {
  }

  lemma StopsAt(ps: seq<seq<byte>>)
    requires ps != []
    ensures |ps[0]| > 65535 ==> PairsBytes(ps) == [0x26]
    ensures |ps| > 1 && |ps[0]| <= 65535 < |ps[1]| ==> PairsBytes(ps) == [0x26] + Str(ps[0])
  {
  }

  lemma TwoMore(whole: seq<seq<byte>>, more: seq<seq<byte>>)
    requires Whole(whole) && |whole| >= 2
    ensures |whole[0]| <= 65535 && |whole[1]| <= 65535 && Whole(whole[2..])
    ensures UserProperties(whole) == ([0x26] + Str(whole[0]) + Str(whole[1])) + UserProperties(whole[2..])
    ensures PairsBytes(whole + more) == ([0x26] + Str(whole[0]) + Str(whole[1])) + PairsBytes((whole + more)[2..])
  {
    assert whole + more != [] && (whole + more)[0] == whole[0] && (whole + more)[1] == whole[1];
  }

  lemma QuadBytes(d: uint32)
    ensures Big32(d) == [d / 0x100_0000, d / 0x1_0000 % 256, d / 0x100 % 256, d % 256]
  {
    var hi, lo := d / 0x1_0000, d % 0x1_0000;
    DivModUnique(d, 0x100_0000, hi / 256, hi % 256 * 0x1_0000 + lo);
    DivModUnique(d, 256, hi * 256 + lo / 256, lo % 256);
    DivModUnique(d / 0x100, 256, hi, lo / 256);
  }

  lemma OneSlot(slot: Slot, rest: Slots)
    requires AllFit(Cons(slot, rest))
    ensures Fits(slot.value) && AllFit(rest)
    ensures WireSlots(Cons(slot, rest))
      == (if slot.value.Pairs? then PairsBytes(slot.value.ps) else Property(slot.id, Present(slot.value), ValueBytes(slot.value)))
        + WireSlots(rest)
  {
  }

  lemma NoSlot()
    ensures AllFit(Nil) && WireSlots(Nil) == []
  {
  }

  lemma PublishSection(p: Publish.PubProps)
    requires AllFit(Publish.AllSlots(p)) && Whole(p.userProperty)
    ensures |p.responseTopic| <= 65535 && |p.correlation| <= 65535 && |p.contentType| <= 65535
    ensures WireSlots(Publish.AllSlots(p)) == PublishProperties(p)
    ensures SlotsLen(Publish.AllSlots(p)) == |PublishProperties(p)|
  {
    hide WireSlots, AllFit, Publish.FirstSlots, Publish.LastSlots, UserProperties, Property, Str, SlotsLen, Append, Whole, VarBytes;
    Publish.AllSlotsTable(p);
    AppendWire(Publish.FirstSlots(p), Publish.LastSlots(p));
    Publish.AllSlotsWhole(p);
    SlotsLength(Publish.AllSlots(p));
    FirstSection(p);
    LastSection(p);
  }

  lemma FirstSection(p: Publish.PubProps)
    ensures AllFit(Publish.FirstSlots(p))
    ensures WireSlots(Publish.FirstSlots(p))
      == Property(0x01, p.formatIndicator != 0, [p.formatIndicator])
        + (Property(0x02, p.expiry != 0, [p.expiry / 0x100_0000, p.expiry / 0x1_0000 % 256, p.expiry / 0x100 % 256, p.expiry % 256])
        + Property(0x23, p.alias != 0, [p.alias / 256, p.alias % 256]))
  {
    hide WireSlots, AllFit, Property, Big32;
    var a := Publish.FirstSlots(p);
    Publish.AllSlotsTable(p);
    QuadBytes(p.expiry);
    NoSlot();
    OneSlot(a.head, a.tail);
    OneSlot(a.tail.head, a.tail.tail);
    OneSlot(a.tail.tail.head, Nil);
  }

  lemma LastSection(p: Publish.PubProps)
    requires AllFit(Publish.LastSlots(p)) && Whole(p.userProperty)
    ensures |p.responseTopic| <= 65535 && |p.correlation| <= 65535 && |p.contentType| <= 65535
    ensures WireSlots(Publish.LastSlots(p))
      == Property(0x08, p.responseTopic != [], Str(p.responseTopic))
        + (Property(0x09, p.correlation != [], Str(p.correlation))
        + (UserProperties(p.userProperty)
        + (Property(0x0B, 0 < p.subscriptionId < 168435455, VarBytes(p.subscriptionId))
        + Property(0x03, p.contentType != [], Str(p.contentType)))))
  {
    hide WireSlots, AllFit, Property, UserProperties, PairsBytes, VarBytes, Whole;
    var b := Publish.LastSlots(p);
    PairsLaidOut(p.userProperty);
    NoSlot();
    OneSlot(b.head, b.tail);
    OneSlot(b.tail.head, b.tail.tail);
    OneSlot(b.tail.tail.head, b.tail.tail.tail);
    OneSlot(b.tail.tail.tail.head, b.tail.tail.tail.tail);
    OneSlot(b.tail.tail.tail.tail.head, Nil);
  }

  /** The bytes of a PUBLISH, whatever is in it: the identifier is there exactly when bit 1 or bit 2
      of the first byte is set, and each property stands behind the identifier of table 2-4. */
  lemma PublishLaidOut(m: Publish.Msg)
    requires Publish.Encodable(m) && (m.flags / 2 % 4 != 0 ==> |m.packetId| == 2)
    ensures |m.topic| <= 65535 && AllFit(Publish.AllSlots(m.props))
    ensures |m.props.responseTopic| <= 65535 && |m.props.correlation| <= 65535 && |m.props.contentType| <= 65535
    ensures Publish.WireOf(m) == Packet(m.flags,
              Str(m.topic) + (if m.flags / 2 % 4 != 0 then m.packetId else [])
              + Counted(PublishProperties(m.props)) + m.payload)
  {
    hide PublishProperties, WireSlots, VarBytes, SlotsLen, Publish.AllSlots, AllFit, Whole;
    PublishSection(m.props);
    var rest := Str(m.topic) + (if m.flags / 2 % 4 != 0 then m.packetId else []) + Counted(PublishProperties(m.props)) + m.payload;
    assert Publish.Body(m) == rest;
    assert |rest| == Publish.BodyLen(m);
  }

  /** What the encoders of a PUBLISH refuse. */
  lemma PublishRefused(m: Publish.Msg)
    ensures Publish.Refusal(m) == None <==>
      && (m.topic != [] || m.props.alias != 0) && m.payload != [] && m.flags >= 16 && |m.topic| <= 65535
      && |m.props.responseTopic| <= 65535 && |m.props.correlation| <= 65535 && |m.props.contentType| <= 65535
  {
    hide AllFit, Publish.LastSlots;
    Publish.AllSlotsTable(m.props);
    LastFits(m.props);
  }

  lemma LastFits(p: Publish.PubProps)
    ensures AllFit(Publish.LastSlots(p)) <==> |p.responseTopic| <= 65535 && |p.correlation| <= 65535 && |p.contentType| <= 65535
  {
    var b := Publish.LastSlots(p);
    assert AllFit(b.tail.tail.tail.tail) <==> |p.contentType| <= 65535;
    assert AllFit(b.tail.tail) <==> AllFit(b.tail.tail.tail.tail);
  }

  // ----- SUBSCRIBE: section 3.8 -----

  predicate Options(r: Subscribe.Request) {
    |r.topic| <= 65535 && r.qos < 4 && r.noLocal < 2 && r.retainAsPub < 2
  }

  /** Section 3.8.3.1: the bits of the options. */
  function OptionBits(r: Subscribe.Request): byte
    requires Options(r)
  {
    r.qos + 4 * r.noLocal + 8 * r.retainAsPub + 16 * (r.retainHandling % 16)
  }

  function Filters(rs: seq<Subscribe.Request>): seq<byte>
    requires forall i :: 0 <= i < |rs| ==> Options(rs[i])
  {
    if rs == [] then []
    else
      assert Options(rs[0]);
      Str(rs[0].topic) + [OptionBits(rs[0])] + Filters(rs[1..])
  }

  lemma {:induction false} FiltersLaidOut(rs: seq<Subscribe.Request>)
    requires Subscribe.TopicsFit(rs) && Subscribe.AllSound(rs)
    ensures forall i :: 0 <= i < |rs| ==> Options(rs[i])
    ensures Subscribe.TopicsBytes(rs) == Filters(rs)
  {
    hide Subscribe.OptionByte;
    if rs != [] {
      FiltersLaidOut(rs[1..]);
      Subscribe.LowBits(rs[0]);
    }
  }

  lemma SubscribeLaidOut(m: Subscribe.Msg)
    requires Subscribe.Encodable(m) && |m.packetId| == 2
    ensures forall i :: 0 <= i < |m.requests| ==> Options(m.requests[i])
    ensures Subscribe.WireOf(m) == Packet(m.flags,
              m.packetId
              + Counted(Property(0x0B, 0 < m.props.subscriptionId < 0x1000_0000, VarBytes(m.props.subscriptionId))
                        + UserProperties(m.props.userProperty))
              + Filters(m.requests))
  {
    FiltersLaidOut(m.requests);
    Subscribe.BodyLength(m);
    SubscribeSection(m.props);
    hide VarBytes, UserProperties, Filters, SlotsLen, Property, Subscribe.TopicsBytes, Subscribe.SubSlots, WireSlots, Subscribe.TopicsFit,
      Subscribe.AllSound, Whole, Subscribe.TopicsLen;
    var props := Property(0x0B, 0 < m.props.subscriptionId < 0x1000_0000, VarBytes(m.props.subscriptionId)) + UserProperties(m.props.userProperty);
    assert Subscribe.Body(m) == m.packetId + Counted(props) + Filters(m.requests);
  }

  lemma SubscribeSection(p: Subscribe.SubProps)
    requires Whole(p.userProperty)
    ensures AllFit(Subscribe.SubSlots(p))
    ensures WireSlots(Subscribe.SubSlots(p))
      == Property(0x0B, 0 < p.subscriptionId < 0x1000_0000, VarBytes(p.subscriptionId)) + UserProperties(p.userProperty)
  {
    hide WireSlots, AllFit, Property, UserProperties, PairsBytes, VarBytes, Whole;
    var ss := Subscribe.SubSlots(p);
    Subscribe.SubSlotsFacts(p);
    PairsLaidOut(p.userProperty);
    NoSlot();
    OneSlot(ss.head, ss.tail);
    OneSlot(ss.tail.head, Nil);
  }

  lemma {:induction false} LongFilter(rs: seq<Subscribe.Request>)
    ensures Subscribe.TopicsFit(rs) <==> forall i :: 0 <= i < |rs| ==> |rs[i].topic| <= 65535
  {
    if rs != [] {
      LongFilter(rs[1..]);
      assert forall i :: 1 <= i < |rs| ==> rs[i] == rs[1..][i - 1];
    }
  }

  /** What the encoders of a SUBSCRIBE refuse. */
  lemma SubscribeRefused(m: Subscribe.Msg)
    ensures SubscribeMessage.Refusal(m) == None <==>
      m.flags >= 16 && forall i :: 0 <= i < |m.requests| ==> |m.requests[i].topic| <= 65535
  {
    LongFilter(m.requests);
  }

  // ----- SUBACK: section 3.9 -----

  lemma SubackLaidOut(m: Suback.Msg)
    requires Suback.Encodable(m)
    ensures AllFit(Suback.AckSlots(m.props))
    ensures Suback.WireOf(m) == Packet(m.flags,
              (if |m.packetId| == 2 then m.packetId else [0, 0])
              + Counted(Property(0x1F, m.props.reason != [], Str(m.props.reason)) + UserProperties(m.props.userProperty))
              + m.codes)
  {
    Suback.AckSlotsFacts(m.props);
    Suback.BodyLength(m);
    SubackSection(m.props);
    hide VarBytes, UserProperties, SlotsLen, Property, Suback.AckSlots, WireSlots, AllFit, Whole, Suback.ValidCodes;
    var props := Property(0x1F, m.props.reason != [], Str(m.props.reason)) + UserProperties(m.props.userProperty);
    assert Suback.Body(m) == (if |m.packetId| == 2 then m.packetId else [0, 0]) + Counted(props) + m.codes;
  }

  lemma SubackSection(p: Suback.AckProps)
    requires Whole(p.userProperty) && |p.reason| <= 65535
    ensures AllFit(Suback.AckSlots(p))
    ensures WireSlots(Suback.AckSlots(p)) == Property(0x1F, p.reason != [], Str(p.reason)) + UserProperties(p.userProperty)
  {
    hide WireSlots, AllFit, Property, UserProperties, PairsBytes, Whole;
    var ss := Suback.AckSlots(p);
    Suback.AckSlotsFacts(p);
    PairsLaidOut(p.userProperty);
    NoSlot();
    OneSlot(ss.head, ss.tail);
    OneSlot(ss.tail.head, Nil);
  }

  // ----- the first byte: section 2.1 -----

  /** Bits 4 to 7 are the type, and bits 1 and 2 of a PUBLISH its QoS. */
  lemma FirstBits(flags: byte)
    ensures MType(flags) == Shr(flags, 4) && Qos(flags) == And(Shr(flags, 1), 3)
  {
    Subscribe.Halves(flags);
    assert Shr(flags, 1) == Shr(flags / 2, 0) == flags / 2 && Pow2(2) == 4;
    MaskIsMod(flags / 2, 2);
  }

  /** The first bytes that are accepted: a PUBLISH with QoS 0, 1 or 2, and one byte each for
      SUBSCRIBE and SUBACK. */
  lemma FirstByte(flags: byte)
    ensures ValidFirst(flags, PUBLISH) <==> flags / 16 == 3 && flags / 2 % 4 < 3
    ensures ValidFirst(flags, SUBSCRIBE) <==> flags == 0x82
    ensures ValidFirst(flags, SUBACK) <==> flags == 0x90
  {
  }

  // ----- what the decoder refuses: sections 3.3.2.1 and 3.3.2.3 -----

  /** A property that comes twice in a row. */
  lemma TwiceRefused(slot: Slot, v: Value, rest: seq<byte>)
    requires Fits(v) && Present(v) && !v.Pairs? && (v.Var? ==> v.limit <= VAR_LIMIT) && SameKind(slot.value, v)
    ensures ReadSlot(slot, [slot.id] + (ValueBytes(v) + ([slot.id] + rest))) == Fail(ProtocolError)
  {
    hide ReadValue, ValueBytes, Present;
    var s := [slot.id] + (ValueBytes(v) + ([slot.id] + rest));
    ValueReads(slot.value, v, [slot.id] + rest);
    assert s[1..] == ValueBytes(v) + ([slot.id] + rest);
  }

  /** A topic alias of 0. */
  lemma ZeroAliasRefused(topic: seq<byte>, rest: seq<byte>)
    ensures Publish.ParseProps(Publish.NO_PROPS, topic, [0x23, 0, 0] + rest) == Publish.BadProps(ProtocolError)
  {
    var a := Publish.FirstSlots(Publish.NO_PROPS);
    var s := [0x23, 0, 0] + rest;
    assert ReadSlot(a.tail.tail.head, s) == Fail(ProtocolError);
    assert ReadSlots(a.tail.tail, s) == FailAll(ProtocolError);
    assert ReadSlots(a.tail, s) == FailAll(ProtocolError);
  }

  /** An empty response topic, empty correlation data, a subscription identifier of 0, an empty
      content type. */
  lemma EmptyRefused(p: Publish.PubProps, rest: seq<byte>)
    ensures var b := Publish.LastSlots(p);
      && ReadSlots(b, [0x08, 0, 0] + rest) == ReadSlots(b, [0x09, 0, 0] + rest) == FailAll(ProtocolError)
      && ReadSlots(b, [0x0B, 0] + rest) == ReadSlots(b, [0x03, 0, 0] + rest) == FailAll(ProtocolError)
  {
    hide ReadSlot, ReadSlots;
    var b := Publish.LastSlots(p);
    FirstRefused(b, [0x08, 0, 0] + rest);
    LaterRefused(b, [0x09, 0, 0] + rest);
    LaterRefused(b, [0x0B, 0] + rest);
    LaterRefused(b, [0x03, 0, 0] + rest);
    FirstRefused(b.tail, [0x09, 0, 0] + rest);
    LaterRefused(b.tail, [0x0B, 0] + rest);
    LaterRefused(b.tail, [0x03, 0, 0] + rest);
    LaterRefused(b.tail.tail, [0x0B, 0] + rest);
    LaterRefused(b.tail.tail, [0x03, 0, 0] + rest);
    FirstRefused(b.tail.tail.tail, [0x0B, 0] + rest);
    LaterRefused(b.tail.tail.tail, [0x03, 0, 0] + rest);
    FirstRefused(b.tail.tail.tail.tail, [0x03, 0, 0] + rest);
  }

  /** The identifier that comes next belongs to the first slot, and its value is empty. */
  lemma FirstRefused(ss: Slots, s: seq<byte>)
    requires ss.Cons? && !ss.head.zeroOk && Starts(s, ss.head.id)
    requires (ss.head.value.Text? && |s| >= 3 && s[1] == s[2] == 0) || (ss.head.value.Var? && |s| >= 2 && s[1] == 0)
    ensures ReadSlots(ss, s) == FailAll(ProtocolError)
  {
    if ss.head.value.Text? {
      assert ReadLP(s[1..]) == Piece([], s[1..][2..]);
    } else {
      assert LbParse(s[1..]) == Got(0, s[1..][1..]);
    }
  }

  lemma LaterRefused(ss: Slots, s: seq<byte>)
    requires ss.Cons? && s != [] && s[0] != ss.head.id && (ss.head.value.Pairs? ==> ss.head.id == USER_PROPERTY)
    ensures ReadSlots(ss.tail, s).FailAll? ==> ReadSlots(ss, s) == ReadSlots(ss.tail, s)
    ensures ss.head.value.Pairs? && ss.head.value.ps == [] ==> ReadSlot(ss.head, s) == Took(ss.head.value, s)
  {
  }

  /** A topic with a wildcard, and no alias to make up for it. */
  lemma WildcardRefused(m: Publish.Msg, extra: seq<byte>)
    requires Publish.Encodable(m) && m.props.alias == 0 && (35 in m.topic || 43 in m.topic)
    ensures var r := Publish.Parse(Publish.FRESH, Publish.WireOf(m) + extra); r.Failed? || r.m != m
  {
    hide Publish.Parse, Publish.WireOf;
    Publish.PublishRoundTrip(m, extra);
  }
}
