/** SUBSCRIBE packets: what the encoders write, what the decoder makes of bytes, and exactly
    which requests survive the trip. */
module Subscribe {
  import opened Common
  import opened Bits
  import opened VarInt
  import opened Props
  import opened Header
  import opened IdFront

  /** One topic filter with its subscription options. */
  datatype Request = Request(topic: seq<byte>, qos: byte, noLocal: byte, retainAsPub: byte, retainHandling: byte)

  datatype SubProps = SubProps(subscriptionId: nat, userProperty: seq<seq<byte>>)

  datatype Msg = Msg(flags: byte, packetId: seq<byte>, props: SubProps, requests: seq<Request>)

  /** NewSubscribeMessage */
  const FRESH := Msg(130, [], NO_PROPS, [])
  const NO_PROPS := SubProps(0, [])

  function SubSlots(p: SubProps): Slots {
    Cons(Slot(0x0B, false, false, false, Var(p.subscriptionId, VAR_LIMIT)),
      Cons(Slot(USER_PROPERTY, true, true, false, Pairs(p.userProperty)), Nil))
  }

  // ----- the option byte -----

  /** What AddTopicAll, the setters and the decoder keep; only SetTopicRetainHandling stores
      whatever it is given. */
  predicate Sound(r: Request) {
    r.qos < 3 && r.noLocal < 2 && r.retainAsPub < 2
  }

  predicate ValidOptions(r: Request) {
    Sound(r) && r.retainHandling < 3
  }

  /** The encoder's shifts and ors make this of sound options. */
  function OptionByte(r: Request): byte {
    (r.qos + 4 * r.noLocal + 8 * r.retainAsPub + 16 * r.retainHandling) % 256
  }

  /** The fields of an option byte; BitFields says that the decoder's masks and shifts read these. */
  function Options(topic: seq<byte>, o: byte): Request {
    Request(topic, o % 4, o / 4 % 2, o / 8 % 2, o / 16 % 4)
  }

  predicate BadOptions(o: byte) {
    o % 4 == 3 || o / 16 % 4 == 3 || o / 64 != 0
  }

  /** The options of a request come back exactly when all of them are legal. */
  lemma OptionsRoundTrip(r: Request)
    requires Sound(r)
    ensures !BadOptions(OptionByte(r)) && Options(r.topic, OptionByte(r)) == r <==> ValidOptions(r)
  {
    var o := OptionByte(r);
    if r.retainHandling < 3 {
      assert o == r.qos + 4 * r.noLocal + 8 * r.retainAsPub + 16 * r.retainHandling;
      assert o / 4 == r.noLocal + 2 * r.retainAsPub + 4 * r.retainHandling;
      assert o / 8 == r.retainAsPub + 2 * r.retainHandling;
      assert o / 16 == r.retainHandling;
    }
  }

  lemma BitFields(o: byte)
    ensures And(o, 3) == o % 4 && Shr(And(o, 4), 2) == o / 4 % 2 && Shr(And(o, 8), 3) == o / 8 % 2
    ensures Shr(And(o, 48), 4) == o / 16 % 4 && Shr(o, 6) == o / 64
  {
    assert Pow2(2) == 4 && Pow2(1) == 2;
    assert Shl(1, 2) == 4 && Shl(1, 3) == 8 && Shl(3, 4) == 48;
    MaskIsMod(o, 2);
    AndAbove(o, 1, 2);
    AndAbove(o, 1, 3);
    AndAbove(o, 3, 4);
    Halves(o);
    MaskIsMod(o / 4, 1);
    MaskIsMod(o / 8, 1);
    MaskIsMod(o / 16, 2);
  }

  lemma Halves(o: byte)
    ensures Shr(o, 2) == o / 4 && Shr(o, 3) == o / 8 && Shr(o, 4) == o / 16 && Shr(o, 6) == o / 64
  {
    assert Shr(o, 2) == Shr(o / 2, 1) == Shr(o / 2 / 2, 0) == o / 4;
    assert Shr(o, 3) == Shr(o / 2, 2);
    assert Shr(o / 2, 2) == Shr(o / 2 / 2, 1) == Shr(o / 2 / 2 / 2, 0) == o / 8;
    assert Shr(o, 4) == Shr(o / 2, 3);
    assert Shr(o / 2, 3) == Shr(o / 2 / 2, 2);
    assert Shr(o / 2 / 2, 2) == Shr(o / 8, 1) == o / 16;
    assert Shr(o, 6) == Shr(o / 2, 5);
    assert Shr(o / 2, 5) == Shr(o / 2 / 2, 4);
    assert Shr(o / 4, 4) == Shr(o / 8, 3);
    assert Shr(o / 8, 3) == Shr(o / 16, 2);
    assert Shr(o / 16, 2) == Shr(o / 32, 1) == o / 64;
  }

  /** The bits of the byte that is written, as section 3.8.3.1 of MQTT Version 5.0 numbers them. */
  lemma OptionBits(r: Request)
    requires Sound(r)
    ensures var o := OptionByte(r);
      && And(o, 3) == r.qos && Shr(And(o, 4), 2) == r.noLocal && Shr(And(o, 8), 3) == r.retainAsPub
      && Shr(And(o, 48), 4) == r.retainHandling % 4 && Shr(o, 6) == r.retainHandling / 4 % 4
  {
    hide And, Shr, OptionByte;
    var h := r.retainHandling % 16;
    BitFields(OptionByte(r));
    Digits(r.qos, r.noLocal, r.retainAsPub, h);
    LowBits(r);
    LowDigits(r.retainHandling);
  }

  lemma LowDigits(n: nat)
    requires n < 256
    ensures n % 16 % 4 == n % 4 && n % 16 / 4 == n / 4 % 4
  {
    var k, h := n / 16, n % 16;
    DivModUnique(n, 4, 4 * k + h / 4, h % 4);
    DivModUnique(4 * k + h / 4, 4, k, h / 4);
  }

  lemma LowBits(r: Request)
    requires Sound(r)
    ensures OptionByte(r) == r.qos + 4 * r.noLocal + 8 * r.retainAsPub + 16 * (r.retainHandling % 16)
  {
    var low := r.qos + 4 * r.noLocal + 8 * r.retainAsPub;
    DivModUnique(low + 16 * r.retainHandling, 256, r.retainHandling / 16, low + 16 * (r.retainHandling % 16));
  }

  lemma Digits(a: nat, b: nat, c: nat, h: nat)
    requires a < 4 && b < 2 && c < 2
    ensures var o := a + 4 * b + 8 * c + 16 * h;
      o % 4 == a && o / 4 % 2 == b && o / 8 % 2 == c && o / 16 == h && o / 64 == h / 4
  {
    var o := a + 4 * b + 8 * c + 16 * h;
    DivModUnique(o, 4, b + 2 * c + 4 * h, a);
    DivModUnique(b + 2 * c + 4 * h, 2, c + 2 * h, b);
    DivModUnique(o, 8, c + 2 * h, a + 4 * b);
    DivModUnique(c + 2 * h, 2, h, c);
    DivModUnique(o, 16, h, a + 4 * b + 8 * c);
    DivModUnique(o, 64, h / 4, a + 4 * b + 8 * c + 16 * (h % 4));
  }

  lemma JoinNoLocal(a: nat, b: nat)
    requires a < 4 && b < 2
    ensures Or(a, Shl(b, 2) % 256) == a + 4 * b
  {
    hide Or, Shl, Pow2;
    Shift(b);
    OrAbove(a, b, 2);
  }

  lemma JoinRetainAsPub(a: nat, b: nat)
    requires a < 8 && b < 2
    ensures Or(a, Shl(b, 3) % 256) == a + 8 * b
  {
    hide Or, Shl, Pow2;
    Shift(b);
    OrAbove(a, b, 3);
  }

  lemma JoinRetainHandling(a: nat, b: byte)
    requires a < 16
    ensures Or(a, Shl(b, 4) % 256) == (a + 16 * b) % 256
  {
    hide Or, Shl, Pow2;
    var low := b % 16;
    Shift(b);
    Shift(low);
    OrAbove(a, low, 4);
    DivModUnique(16 * b, 256, b / 16, 16 * low);
    DivModUnique(a + 16 * b, 256, b / 16, a + 16 * low);
  }

  lemma Shift(b: nat)
    ensures Shl(b, 2) == 4 * b && Shl(b, 3) == 8 * b && Shl(b, 4) == 16 * b
    ensures Pow2(2) == 4 && Pow2(3) == 8 && Pow2(4) == 16
  {
    assert Shl(b, 1) == 2 * b && Shl(b, 2) == 2 * Shl(b, 1);
    assert Shl(b, 3) == 2 * Shl(b, 2) && Shl(b, 4) == 2 * Shl(b, 3);
    assert Pow2(1) == 2 && Pow2(2) == 4 && Pow2(3) == 2 * Pow2(2) && Pow2(4) == 2 * Pow2(3);
  }

  // ----- writing -----

  predicate TopicsFit(rs: seq<Request>) {
    rs == [] || (|rs[0].topic| <= MAX_LP && TopicsFit(rs[1..]))
  }

  predicate AllSound(rs: seq<Request>) {
    rs == [] || (Sound(rs[0]) && AllSound(rs[1..]))
  }

  predicate AllValid(rs: seq<Request>) {
    rs == [] || (ValidOptions(rs[0]) && AllValid(rs[1..]))
  }

  function OneTopic(r: Request): seq<byte>
    requires |r.topic| <= MAX_LP
  {
    LP(r.topic) + [OptionByte(r)]
  }

  function TopicsBytes(rs: seq<Request>): seq<byte>
    requires TopicsFit(rs)
  {
    if rs == [] then [] else OneTopic(rs[0]) + TopicsBytes(rs[1..])
  }

  function TopicsLen(rs: seq<Request>): nat {
    if rs == [] then 0 else 3 + |rs[0].topic| + TopicsLen(rs[1..])
  }

  function PropsLen(m: Msg): nat {
    SlotsLen(SubSlots(m.props))
  }

  /** The remaining length build computes. */
  function BodyLen(m: Msg): nat {
    2 + PropsLen(m) + |VarBytes(PropsLen(m))| + TopicsLen(m.requests)
  }

  function Body(m: Msg): seq<byte>
    requires TopicsFit(m.requests)
  {
    m.packetId + (VarBytes(PropsLen(m)) + (WireSlots(SubSlots(m.props)) + TopicsBytes(m.requests)))
  }

  function WireOf(m: Msg): seq<byte>
    requires TopicsFit(m.requests)
  {
    HeadBytes(m.flags, BodyLen(m)) + Body(m)
  }

  predicate Encodable(m: Msg) {
    && MType(m.flags) == SUBSCRIBE && TopicsFit(m.requests) && AllSound(m.requests)
    && Whole(m.props.userProperty) && BodyLen(m) <= MAX_REMAINING
  }

  // ----- reading -----

  datatype TopicsScan = GotTopics(requests: seq<Request>, rest: seq<byte>) | BadTopics(fault: Fault)

  /** One filter and its options. */
  datatype OneScan = GotOne(r: Request, rest: seq<byte>) | BadOne(fault: Fault)

  function ReadOne(s: seq<byte>): (o: OneScan)
    ensures o.GotOne? ==> |s| - |o.rest| == 3 + |o.r.topic| && ValidOptions(o.r)
  {
    match ReadLP(s)
    case NoPiece(e) => BadOne(e)
    case Piece(t, s1) =>
      if s1 == [] then BadOne(Panic)
      else if BadOptions(s1[0]) then BadOne(ProtocolError)
      else GotOne(Options(t, s1[0]), s1[1..])
  }

  /** What the decoder makes of any option byte behind a filter. */
  lemma OptionsRead(t: seq<byte>, o: byte, rest: seq<byte>)
    requires |t| <= MAX_LP
    ensures var x := ReadOne(LP(t) + ([o] + rest));
      && (x.GotOne? <==> And(o, 3) != 3 && Shr(And(o, 48), 4) != 3 && Shr(o, 6) == 0)
      && (x.GotOne? ==>
            && x.r.topic == t && x.r.qos == And(o, 3) && x.r.noLocal == Shr(And(o, 4), 2)
            && x.r.retainAsPub == Shr(And(o, 8), 3) && x.r.retainHandling == Shr(And(o, 48), 4) && x.rest == rest)
      && (x.BadOne? ==> x.fault == ProtocolError)
  {
    hide And, Shr;
    LPReads(t, [o] + rest);
    BitFields(o);
    assert ([o] + rest)[1..] == rest;
  }

  /** Filters are read as long as there is something left of the remaining length. */
  function ReadTopics(s: seq<byte>, left: int): TopicsScan
    decreases |s|
  {
    if left <= 0 then GotTopics([], s)
    else match ReadOne(s)
      case BadOne(e) => BadTopics(e)
      case GotOne(r, s1) => Prepend(r, ReadTopics(s1, left - (|s| - |s1|)))
  }

  function Prepend(r: Request, t: TopicsScan): TopicsScan {
    match t
    case GotTopics(rs, rest) => GotTopics([r] + rs, rest)
    case BadTopics(e) => t
  }

  datatype PropsScan = GotProps(props: SubProps, rest: seq<byte>) | BadProps(fault: Fault)

  function ParseProps(p: SubProps, s: seq<byte>): PropsScan {
    match ReadSlots(SubSlots(p), s)
    case FailAll(e) => BadProps(e)
    case TookAll(slots, rest) => GotProps(WithSlots(p, slots), rest)
  }

  function WithSlots(p: SubProps, slots: Slots): SubProps {
    match slots
    case Cons(Slot(_, _, _, _, Var(id, _)), Cons(Slot(_, _, _, _, Pairs(up)), Nil)) => SubProps(id, up)
    case _ => p
  }

  datatype Scan = Parsed(m: Msg, propsLen: nat, rest: seq<byte>) | Failed(fault: Fault)

  /** Decode into a message that already has the values m0; filters are appended to its own. */
  function Parse(m0: Msg, s: seq<byte>): Scan {
    match ParseFront(m0.flags, s)
    case NoFront(e) => Failed(e)
    case Front(flags, id, propsLen, left, s1) =>
      Finish(Msg(flags, id, m0.props, m0.requests), propsLen, left - |s1|, ParseProps(m0.props, s1))
  }

  /** The filters fill what is left of the remaining length. */
  function Finish(m: Msg, propsLen: nat, over: int, r: PropsScan): Scan {
    match r
    case BadProps(e) => Failed(e)
    case GotProps(props, s) =>
      match ReadTopics(s, over + |s|)
      case BadTopics(e) => Failed(e)
      case GotTopics(rs, rest) =>
        if m.requests + rs == [] then Failed(ProtocolError)
        else Parsed(m.(props := props, requests := m.requests + rs), propsLen, rest)
  }

  /** Parse, once the front has been read. */
  lemma ParseIs(m0: Msg, s: seq<byte>)
    ensures var f := ParseFront(m0.flags, s);
      Parse(m0, s) == if f.NoFront? then Failed(f.fault)
        else Finish(Msg(f.flags, f.packetId, m0.props, m0.requests), f.propsLen, f.left - |f.rest|, ParseProps(m0.props, f.rest))
  {
  }

  // ----- the round trip -----

  /** What a caller can check before encoding. The last line: the length of the first filter must
      not begin with a byte that is taken for another property. */
  predicate Survives(m: Msg) {
    && m.flags == 130 && |m.packetId| == 2
    && |m.props.userProperty| % 2 == 0 && m.props.subscriptionId < VAR_LIMIT
    && m.requests != [] && AllValid(m.requests)
    && |m.requests[0].topic| / 256 !in (if m.props.userProperty == [] then {0x0B, 0x26} else {0x26})
  }

  lemma {:induction false} TopicsBack(rs: seq<Request>, rest: seq<byte>)
    requires TopicsFit(rs) && AllValid(rs)
    ensures ReadTopics(TopicsBytes(rs) + rest, TopicsLen(rs)) == GotTopics(rs, rest)
    decreases |rs|
  {
    if rs == [] {
      NoTopicsBack(rs, rest);
    } else {
      TopicsBack(rs[1..], rest);
      NextTopicsBack(rs, rest);
    }
  }

  lemma NoTopicsBack(rs: seq<Request>, rest: seq<byte>)
    requires rs == []
    ensures ReadTopics(TopicsBytes(rs) + rest, TopicsLen(rs)) == GotTopics(rs, rest)
  {
  }

  lemma NextTopicsBack(rs: seq<Request>, rest: seq<byte>)
    requires rs != [] && TopicsFit(rs) && ValidOptions(rs[0])
    requires ReadTopics(TopicsBytes(rs[1..]) + rest, TopicsLen(rs[1..])) == GotTopics(rs[1..], rest)
    ensures ReadTopics(TopicsBytes(rs) + rest, TopicsLen(rs)) == GotTopics(rs, rest)
  {
    hide ReadTopics, ReadOne, OneTopic;
    FirstBack(rs[0], TopicsBytes(rs[1..]) + rest, TopicsLen(rs[1..]));
    Associate(OneTopic(rs[0]), TopicsBytes(rs[1..]), rest);
    assert [rs[0]] + rs[1..] == rs;
  }

  lemma FirstBack(r: Request, rest: seq<byte>, left: nat)
    requires |r.topic| <= MAX_LP && ValidOptions(r)
    ensures ReadTopics(OneTopic(r) + rest, 3 + |r.topic| + left) == Prepend(r, ReadTopics(rest, left))
  {
    OneBack(r, rest);
  }

  lemma OneBack(r: Request, rest: seq<byte>)
    requires |r.topic| <= MAX_LP && ValidOptions(r)
    ensures ReadOne(OneTopic(r) + rest) == GotOne(r, rest)
  {
    OptionsRoundTrip(r);
    Associate(LP(r.topic), [OptionByte(r)], rest);
    LPReads(r.topic, [OptionByte(r)] + rest);
    assert ([OptionByte(r)] + rest)[1..] == rest;
  }

  /** Only legal options are ever read. */
  lemma {:induction false} TopicsShape(s: seq<byte>, left: int)
    ensures ReadTopics(s, left).GotTopics? ==> AllValid(ReadTopics(s, left).requests)
    decreases |s|
  {
    if left > 0 {
      var o := ReadOne(s);
      if o.GotOne? {
        TopicsShape(o.rest, left - (|s| - |o.rest|));
        ValidAfter(o.r, ReadTopics(o.rest, left - (|s| - |o.rest|)));
      }
    }
  }

  lemma ValidAfter(r: Request, t: TopicsScan)
    requires ValidOptions(r) && (t.GotTopics? ==> AllValid(t.requests))
    ensures t.GotTopics? ==> AllValid(Prepend(r, t).requests)
  {
  }

  lemma {:induction false} TopicsLength(rs: seq<Request>)
    requires TopicsFit(rs)
    ensures |TopicsBytes(rs)| == TopicsLen(rs)
    decreases |rs|
  {
    if rs != [] { TopicsLength(rs[1..]); }
  }

  lemma SubSlotsTable(p: SubProps)
    ensures var ss := SubSlots(p);
      Table(ss) && AllFit(ss) && Strict(ss) && TailIds(ss) == if p.userProperty == [] then {0x0B, 0x26} else {0x26}
  {
    var ss, up := SubSlots(p), p.userProperty;
    assert Ids(ss.tail.tail) == {} && Ids(ss.tail) == {0x26} && Table(ss.tail) && AllFit(ss.tail) && Strict(ss.tail);
    assert WireSlots(ss.tail.tail) == [] && TailIds(ss.tail) == {0x26};
    assert WireSlots(ss.tail) == PairsBytes(up) + [] == PairsBytes(up);
  }

  lemma SubSlotsFacts(p: SubProps)
    ensures var ss, up := SubSlots(p), p.userProperty;
      && Table(ss) && AllFit(ss) && Strict(ss)
      && (AllWhole(ss) <==> Whole(up))
      && (AllFaithful(ss) <==> p.subscriptionId < VAR_LIMIT && |up| % 2 == 0 && Whole(up))
      && Blank(ss) == SubSlots(NO_PROPS)
      && TailIds(ss) == if up == [] then {0x0B, 0x26} else {0x26}
  {
    SubSlotsTable(p);
    hide Table, AllFit, Strict, TailIds, Ids, WireSlots;
    var ss, up := SubSlots(p), p.userProperty;
    assert AllWhole(ss.tail) <==> Whole(up);
    assert AllFaithful(ss.tail) <==> |up| % 2 == 0 && Whole(up);
    assert Blank(ss.tail) == SubSlots(NO_PROPS).tail;
  }

  /** The properties in front of tail come back exactly if they can and tail is clear of them. */
  lemma PropsBack(p: SubProps, tail: seq<byte>)
    requires AllFit(SubSlots(p)) && Whole(p.userProperty)
    ensures var r := ParseProps(NO_PROPS, WireSlots(SubSlots(p)) + tail);
      var good := |p.userProperty| % 2 == 0 && p.subscriptionId < VAR_LIMIT && Clear(SubSlots(p), tail);
      && (good ==> r == GotProps(p, tail))
      && (r.GotProps? && r.props == p ==> good && r.rest == tail)
  {
    var ss := SubSlots(p);
    var s := WireSlots(ss) + tail;
    SubSlotsFacts(p);
    if AllFaithful(ss) && Clear(ss, tail) {
      SlotsRoundTrip(ss, tail);
    }
    if ReadSlots(SubSlots(NO_PROPS), s).TookAll? {
      ShapeKept(SubSlots(NO_PROPS), s);
      SlotsOfShape(ReadSlots(SubSlots(NO_PROPS), s).slots);
      SlotsOnlyBack(ss, tail);
    }
  }

  lemma SlotsOfShape(slots: Slots)
    requires SameShape(slots, SubSlots(NO_PROPS))
    ensures slots == SubSlots(WithSlots(NO_PROPS, slots))
  {
    var t := SubSlots(NO_PROPS);
    assert SameShape(slots.tail, t.tail);
    assert SameShape(slots.tail.tail, Nil);
  }

  lemma ClearOfFirst(p: SubProps, rs: seq<Request>, extra: seq<byte>)
    requires AllFit(SubSlots(p)) && TopicsFit(rs) && rs != []
    ensures Clear(SubSlots(p), TopicsBytes(rs) + extra)
      <==> |rs[0].topic| / 256 !in (if p.userProperty == [] then {0x0B, 0x26} else {0x26})
  {
    var tail := TopicsBytes(rs) + extra;
    assert tail[0] == |rs[0].topic| / 256;
    SubSlotsFacts(p);
    ClearMeans(SubSlots(p), tail);
  }

  /** Decoding what was encoded gives back every field, if and only if the message survives; and
      then exactly the encoded bytes are used. */
  lemma SubscribeRoundTrip(m: Msg, extra: seq<byte>)
    requires Encodable(m)
    ensures var r := Parse(FRESH, WireOf(m) + extra);
      && (r.Parsed? && r.m == m <==> Survives(m))
      && (Survives(m) ==> r == Parsed(m, PropsLen(m), extra))
  {
    hide ReadSlots, WireSlots, SlotsLen, TopicsBytes, ReadTopics, ParseFront, ParseProps, Finish, Clear;
    FlagsKept(FRESH, WireOf(m) + extra);
    SubSlotsFacts(m.props);
    if m.flags == 130 && |m.packetId| == 2 {
      var w, tail := WireSlots(SubSlots(m.props)), TopicsBytes(m.requests) + extra;
      BodySplit(m, extra);
      BodyLength(m);
      FrontBack(130, 130, m.packetId, BodyLen(m), PropsLen(m), w + tail);
      PropsBack(m.props, tail);
      FinishBack(m, extra, PropsLen(m), ParseProps(NO_PROPS, w + tail));
      if m.requests != [] { ClearOfFirst(m.props, m.requests, extra); }
    }
  }

  lemma FlagsKept(m0: Msg, s: seq<byte>)
    ensures var r := Parse(m0, s);
      r.Parsed? ==> ValidFirst(r.m.flags, MType(m0.flags)) && |r.m.packetId| == 2
  {
  }

  lemma FinishBack(m: Msg, extra: seq<byte>, propsLen: nat, r: PropsScan)
    requires TopicsFit(m.requests)
    requires r.GotProps? && r.props == m.props ==> r.rest == TopicsBytes(m.requests) + extra
    ensures var f := Finish(Msg(130, m.packetId, NO_PROPS, []), propsLen, -|extra|, r);
      var good := m.requests != [] && AllValid(m.requests);
      && (r.GotProps? && r.props == m.props && good && m.flags == 130 ==> f == Parsed(m, propsLen, extra))
      && (f.Parsed? && f.m == m ==> r.GotProps? && r.props == m.props && good)
  {
    hide TopicsBytes, TopicsFit, TopicsLen, AllValid, ReadTopics;
    TopicsLength(m.requests);
    assert forall rs: seq<Request> :: [] + rs == rs;
    if r.GotProps? {
      TopicsShape(r.rest, |r.rest| - |extra|);
      if r.props == m.props && AllValid(m.requests) {
        TopicsBack(m.requests, extra);
      }
    }
  }

  lemma BodySplit(m: Msg, extra: seq<byte>)
    requires TopicsFit(m.requests)
    ensures WireOf(m) + extra
      == HeadBytes(m.flags, BodyLen(m)) + (m.packetId + (VarBytes(PropsLen(m))
        + (WireSlots(SubSlots(m.props)) + (TopicsBytes(m.requests) + extra))))
  {
  }

  /** The computed remaining length is the length of what is written. */
  lemma BodyLength(m: Msg)
    requires Encodable(m) && |m.packetId| == 2
    ensures |Body(m)| == BodyLen(m)
    ensures |WireSlots(SubSlots(m.props))| == PropsLen(m) && |TopicsBytes(m.requests)| == TopicsLen(m.requests)
  {
    SubSlotsFacts(m.props);
    SlotsLength(SubSlots(m.props));
    TopicsLength(m.requests);
  }
}
