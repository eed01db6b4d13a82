/** PUBLISH packets: what the encoders write, what the decoder makes of bytes, and exactly
    which messages survive the trip. */
module Publish {
  import opened Common
  import opened VarInt
  import opened Props
  import opened Header

  const SI_LIMIT := 168435455  // as the source has it

  datatype PubProps = PubProps(
    formatIndicator: byte,
    expiry: uint32,
    alias: uint16,
    responseTopic: seq<byte>,
    correlation: seq<byte>,
    userProperty: seq<seq<byte>>,
    subscriptionId: nat,  // a uint32 in the source
    contentType: seq<byte>
  )

  datatype Msg = Msg(flags: byte, packetId: seq<byte>, topic: seq<byte>, props: PubProps, payload: seq<byte>)

  const NO_PROPS := PubProps(0, 0, 0, [], [], [], 0, [])

  /** NewPublishMessage */
  const FRESH := Msg(48, [], [], NO_PROPS, [])

  /** The slots before and after the check of the topic. */
  function FirstSlots(p: PubProps): Slots {
    Cons(Slot(0x01, true, true, false, Byte1(p.formatIndicator)),
      Cons(Slot(0x02, true, true, false, Int32(p.expiry)),
        Cons(Slot(0x23, false, true, false, Int16(p.alias)), Nil)))
  }

  function LastSlots(p: PubProps): Slots {
    Cons(Slot(0x08, false, true, false, Text(p.responseTopic)),
      Cons(Slot(0x09, false, true, false, Text(p.correlation)),
        Cons(Slot(USER_PROPERTY, true, true, false, Pairs(p.userProperty)),
          Cons(Slot(0x0B, false, true, true, Var(p.subscriptionId, SI_LIMIT)),
            Cons(Slot(0x03, false, true, true, Text(p.contentType)), Nil)))))
  }

  function AllSlots(p: PubProps): Slots {
    Append(FirstSlots(p), LastSlots(p))
  }

  lemma LastSlotsTable(p: PubProps)
    ensures Table(LastSlots(p)) && Ids(LastSlots(p)) == {0x08, 0x09, 0x26, 0x0B, 0x03}
  {
    var b1 := LastSlots(p);
    var b2 := b1.tail;
    var b3 := b2.tail;
    var b4 := b3.tail;
    var b5 := b4.tail;
    assert Ids(b5.tail) == {} && Ids(b5) == {0x03} && Table(b5);
    assert Ids(b4) == {0x0B, 0x03} && Table(b4);
    assert Ids(b3) == {0x26, 0x0B, 0x03} && Table(b3);
    assert Ids(b2) == {0x09, 0x26, 0x0B, 0x03} && Table(b2);
  }

  /** One more slot in front. */
  lemma TableCons(slot: Slot, more: Slots)
    requires Table(more) && slot.id !in Ids(more) && !slot.value.Pairs? && !slot.value.Var?
    ensures Table(Cons(slot, more)) && Ids(Cons(slot, more)) == {slot.id} + Ids(more)
    ensures !slot.value.Text? ==> (AllFit(Cons(slot, more)) <==> AllFit(more))
  {
  }

  lemma AllSlotsTable(p: PubProps)
    ensures Table(FirstSlots(p)) && Table(LastSlots(p)) && Table(AllSlots(p))
    ensures AllFit(FirstSlots(p)) && (AllFit(AllSlots(p)) <==> AllFit(LastSlots(p)))
    ensures Ids(AllSlots(p)) == {0x01, 0x02, 0x23, 0x08, 0x09, 0x26, 0x0B, 0x03}
  {
    hide Table, Ids, AllFit, LastSlots;
    var a, b := FirstSlots(p), LastSlots(p);
    LastSlotsTable(p);
    NoSlots();
    TableCons(a.tail.tail.head, Nil);
    TableCons(a.tail.head, a.tail.tail);
    TableCons(a.head, a.tail);
    TableCons(a.tail.tail.head, b);
    TableCons(a.tail.head, Cons(a.tail.tail.head, b));
    TableCons(a.head, Cons(a.tail.head, Cons(a.tail.tail.head, b)));
    assert Append(a.tail.tail, b) == Cons(a.tail.tail.head, b);
    assert Append(a.tail, b) == Cons(a.tail.head, Append(a.tail.tail, b));
    AppendParts(a, b);
  }

  lemma NoSlots()
    ensures Table(Nil) && Ids(Nil) == {} && AllFit(Nil)
  {
  }

  predicate ValidTopic(topic: seq<byte>) {
    topic != [] && 35 !in topic && 43 !in topic
  }

  // ----- writing -----

  function IdLen(flags: byte): nat {
    if Qos(flags) != 0 then 2 else 0
  }

  function IdBytes(m: Msg): seq<byte> {
    if Qos(m.flags) != 0 then m.packetId else []
  }

  /** The property length, and the remaining length build computes from it. */
  function PropsLen(m: Msg): nat {
    SlotsLen(AllSlots(m.props))
  }

  function BodyLen(m: Msg): nat {
    2 + |m.topic| + IdLen(m.flags) + PropsLen(m) + |VarBytes(PropsLen(m))| + |m.payload|
  }

  function Body(m: Msg): seq<byte>
    requires |m.topic| <= MAX_LP && AllFit(AllSlots(m.props))
  {
    LP(m.topic) + (IdBytes(m) + (VarBytes(PropsLen(m)) + (WireSlots(AllSlots(m.props)) + m.payload)))
  }

  function WireOf(m: Msg): seq<byte>
    requires |m.topic| <= MAX_LP && AllFit(AllSlots(m.props))
  {
    HeadBytes(m.flags, BodyLen(m)) + Body(m)
  }

  /** Len(): the whole packet. */
  function LenOf(m: Msg): nat {
    |HeadBytes(m.flags, BodyLen(m))| + BodyLen(m)
  }

  /** What the encoders refuse, in the order they look. */
  function Refusal(m: Msg): Option<Fault> {
    if m.topic == [] && m.props.alias == 0 then Some(NoTopic)
    else if m.payload == [] then Some(NoPayload)
    else if !ValidType(MType(m.flags)) then Some(InvalidMessage)
    else if |m.topic| > MAX_LP || !AllFit(AllSlots(m.props)) then Some(TooLong)
    else None
  }

  /** A message that EncodeToBuf accepts. */
  predicate Encodable(m: Msg) {
    && MType(m.flags) == PUBLISH && Refusal(m) == None
    && Whole(m.props.userProperty) && BodyLen(m) <= MAX_REMAINING
  }

  // ----- reading -----

  datatype PropsScan = GotProps(props: PubProps, rest: seq<byte>) | BadProps(fault: Fault)

  function WithFirst(p: PubProps, a: Slots): PubProps {
    match a
    case Cons(Slot(_, _, _, _, Byte1(x)), Cons(Slot(_, _, _, _, Int32(y)), Cons(Slot(_, _, _, _, Int16(z)), Nil))) =>
      p.(formatIndicator := x, expiry := y, alias := z)
    case _ => p
  }

  function WithLast(p: PubProps, b: Slots): PubProps {
    match b
    case Cons(Slot(_, _, _, _, Text(rt)), Cons(Slot(_, _, _, _, Text(cd)), Cons(Slot(_, _, _, _, Pairs(up)),
           Cons(Slot(_, _, _, _, Var(si, _)), Cons(Slot(_, _, _, _, Text(ct)), Nil))))) =>
      p.(responseTopic := rt, correlation := cd, userProperty := up,
         subscriptionId := si, contentType := ct)
    case _ => p
  }

  function ParseFirst(p: PubProps, s: seq<byte>): PropsScan {
    match ReadSlots(FirstSlots(p), s)
    case FailAll(e) => BadProps(e)
    case TookAll(a, rest) => GotProps(WithFirst(p, a), rest)
  }

  function ParseLast(p: PubProps, s: seq<byte>): PropsScan {
    match ReadSlots(LastSlots(p), s)
    case FailAll(e) => BadProps(e)
    case TookAll(b, rest) => GotProps(WithLast(p, b), rest)
  }

  /** A topic is only looked at when there is no alias, and that after the first three properties. */
  function ParseProps(p: PubProps, topic: seq<byte>, s: seq<byte>): PropsScan {
    match ParseFirst(p, s)
    case BadProps(e) => BadProps(e)
    case GotProps(q, s1) => if q.alias == 0 && !ValidTopic(topic) then BadProps(InvalidTopic) else ParseLast(q, s1)
  }

  /** A decoded message with its property length and the bytes not used. */
  datatype Scan = Parsed(m: Msg, propsLen: nat, rest: seq<byte>) | Failed(fault: Fault)

  /** What stands before the properties. left: how much of the remaining length is left, negative
      when the decoder has run past it. */
  datatype Front = Front(flags: byte, topic: seq<byte>, packetId: seq<byte>, propsLen: nat, left: int, rest: seq<byte>)
                 | NoFront(fault: Fault)

  function ParseTop(was: byte, oldId: seq<byte>, s: seq<byte>): Front {
    match ParseHead(was, s)
    case NoHead(e) => NoFront(e)
    case Head(flags, remlen, body) =>
      match ReadLP(body)
      case NoPiece(e) => NoFront(e)
      case Piece(topic, s1) =>
        var left := remlen - (|body| - |s1|);
        if Qos(flags) == 0 then Front(flags, topic, oldId, 0, left, s1)
        else if |s1| < 2 then NoFront(Panic)
        else Front(flags, topic, s1[..2], 0, left - 2, s1[2..])
  }

  function ParseFront(was: byte, oldId: seq<byte>, s: seq<byte>): Front {
    match ParseTop(was, oldId, s)
    case NoFront(e) => NoFront(e)
    case Front(flags, topic, id, _, left, s1) =>
      match LbParse(s1)
      case Bad(e) => NoFront(e)
      case Got(propsLen, s2) => Front(flags, topic, id, propsLen, left - (|s1| - |s2|), s2)
  }

  /** ParseFront, once the part before the property length has been read. */
  lemma FrontIs(was: byte, oldId: seq<byte>, s: seq<byte>)
    ensures var t := ParseTop(was, oldId, s);
      && (t.NoFront? ==> ParseFront(was, oldId, s) == t)
      && (t.Front? ==>
        var v := LbParse(t.rest);
        && (v.Bad? ==> ParseFront(was, oldId, s) == NoFront(v.fault))
        && (v.Got? ==> ParseFront(was, oldId, s) == Front(t.flags, t.topic, t.packetId, v.value, t.left - (|t.rest| - |v.rest|), v.rest)))
  {
    hide ParseTop, LbParse;
  }

  /** Decode into a message that already has the values m0. */
  function Parse(m0: Msg, s: seq<byte>): Scan {
    match ParseFront(m0.flags, m0.packetId, s)
    case NoFront(e) => Failed(e)
    case Front(flags, topic, id, propsLen, left, s1) =>
      Finish(Msg(flags, id, topic, m0.props, m0.payload), propsLen, left - |s1|, ParseProps(m0.props, topic, s1))
  }

  /** The payload is what is left of the remaining length. */
  function Finish(m: Msg, propsLen: nat, over: int, r: PropsScan): Scan {
    match r
    case BadProps(e) => Failed(e)
    case GotProps(props, s) =>
      var n := over + |s|;
      if n < 0 || n > |s| then Failed(Panic)
      else Parsed(m.(props := props, payload := s[..n]), propsLen, s[n..])
  }

  /** Parse, once the front has been read. */
  lemma ParseIs(m0: Msg, s: seq<byte>)
    ensures var f := ParseFront(m0.flags, m0.packetId, s);
      Parse(m0, s) == if f.NoFront? then Failed(f.fault)
        else Finish(Msg(f.flags, f.packetId, f.topic, m0.props, m0.payload), f.propsLen, f.left - |f.rest|, ParseProps(m0.props, f.topic, f.rest))
  {
    hide ParseFront, Finish, ParseProps;
  }

  // ----- the round trip of the properties -----

  /** What an object whose properties are p0 holds after p has been read into it: the decoder
      assigns a property only when it is in the packet, user properties always. */
  function MergeProps(p0: PubProps, p: PubProps): PubProps {
    PubProps(
      if p.formatIndicator != 0 then p.formatIndicator else p0.formatIndicator,
      if p.expiry != 0 then p.expiry else p0.expiry,
      if p.alias != 0 then p.alias else p0.alias,
      if p.responseTopic != [] then p.responseTopic else p0.responseTopic,
      if p.correlation != [] then p.correlation else p0.correlation,
      p.userProperty,
      if 0 < p.subscriptionId < SI_LIMIT then p.subscriptionId else p0.subscriptionId,
      if p.contentType != [] then p.contentType else p0.contentType)
  }

  /** The properties can be read, over p0, and end where they should. */
  predicate PropsReadable(p0: PubProps, p: PubProps, topic: seq<byte>) {
    && (p.alias != 0 || p0.alias != 0 || ValidTopic(topic))
    && |p.userProperty| % 2 == 0
  }

  predicate PropsSurvive(p: PubProps, topic: seq<byte>) {
    && (p.alias != 0 || ValidTopic(topic))
    && |p.userProperty| % 2 == 0
    && p.subscriptionId < SI_LIMIT
  }

  /** The properties that p leaves out have no other value in p0. */
  predicate NoneStale(p0: PubProps, p: PubProps) {
    && (p.formatIndicator == 0 ==> p0.formatIndicator == 0)
    && (p.expiry == 0 ==> p0.expiry == 0)
    && (p.alias == 0 ==> p0.alias == 0)
    && (p.responseTopic == [] ==> p0.responseTopic == [])
    && (p.correlation == [] ==> p0.correlation == [])
    && (!(0 < p.subscriptionId < SI_LIMIT) ==> p0.subscriptionId == p.subscriptionId)
    && (p.contentType == [] ==> p0.contentType == [])
  }

  lemma MergeFirst(p0: PubProps, p: PubProps)
    ensures SameShape(FirstSlots(p0), FirstSlots(p)) && AllPaired(FirstSlots(p))
    ensures MergeSlots(FirstSlots(p0), FirstSlots(p)) == FirstSlots(MergeProps(p0, p))
  {
    var a, d := FirstSlots(p), FirstSlots(p0);
    assert SameShape(d.tail.tail, a.tail.tail) && SameShape(d.tail, a.tail) && SameShape(d, a);
    assert AllPaired(a.tail.tail) && AllPaired(a.tail);
    var e := FirstSlots(MergeProps(p0, p));
    assert MergeSlots(d.tail.tail, a.tail.tail) == e.tail.tail;
    assert MergeSlots(d.tail, a.tail) == e.tail;
  }

  lemma PairedCons(slot: Slot, more: Slots)
    ensures AllPaired(Cons(slot, more)) <==> Paired(slot.value) && AllPaired(more)
    ensures AllPaired(Nil)
  {
  }

  lemma MergeLast(p0: PubProps, p: PubProps)
    requires Whole(p.userProperty)
    ensures SameShape(LastSlots(p0), LastSlots(p)) && (AllPaired(LastSlots(p)) <==> |p.userProperty| % 2 == 0)
    ensures MergeSlots(LastSlots(p0), LastSlots(p)) == LastSlots(MergeProps(p0, p))
  {
    var b, c, e := LastSlots(p), LastSlots(p0), LastSlots(MergeProps(p0, p));
    var b2, c2, e2 := b.tail.tail, c.tail.tail, e.tail.tail;
    assert SameShape(c2.tail.tail, b2.tail.tail) && SameShape(c2.tail, b2.tail) && SameShape(c2, b2);
    assert SameShape(c.tail, b.tail) && SameShape(c, b);
    PairedCons(b.head, b.tail);
    PairedCons(b.tail.head, b2);
    PairedCons(b2.head, b2.tail);
    PairedCons(b2.tail.head, b2.tail.tail);
    PairedCons(b2.tail.tail.head, Nil);
    assert MergeSlots(c2.tail.tail, b2.tail.tail) == e2.tail.tail;
    assert MergeSlots(c2.tail, b2.tail) == e2.tail;
    assert MergeSlots(c2, b2) == e2;
    assert MergeSlots(c.tail, b.tail) == e.tail;
  }

  lemma MergeSections(p0: PubProps, p: PubProps)
    requires Whole(p.userProperty)
    ensures SameShape(AllSlots(p0), AllSlots(p)) && (AllPaired(AllSlots(p)) <==> |p.userProperty| % 2 == 0)
    ensures MergeSlots(AllSlots(p0), AllSlots(p)) == AllSlots(MergeProps(p0, p))
  {
    MergeFirst(p0, p);
    MergeLast(p0, p);
    AppendMerge(FirstSlots(p0), LastSlots(p0), FirstSlots(p), LastSlots(p));
  }

  /** The properties of an object are given by its slots. */
  lemma SlotsGiveProps(p0: PubProps, p: PubProps)
    ensures WithFirst(p0, FirstSlots(p)) == p0.(formatIndicator := p.formatIndicator, expiry := p.expiry, alias := p.alias)
    ensures LastSlots(WithFirst(p0, FirstSlots(p))) == LastSlots(p0)
    ensures WithLast(WithFirst(p0, FirstSlots(p)), LastSlots(p)) == p
  {
  }

  lemma SlotsTellProps(p: PubProps, q: PubProps)
    requires AllSlots(p) == AllSlots(q)
    ensures p == q
  {
    var a, b := FirstSlots(p), FirstSlots(q);
    assert AllSlots(p).tail == Append(a.tail, LastSlots(p)) && AllSlots(q).tail == Append(b.tail, LastSlots(q));
    assert AllSlots(p).tail.tail == Append(a.tail.tail, LastSlots(p)) && AllSlots(q).tail.tail == Append(b.tail.tail, LastSlots(q));
    assert AllSlots(p).tail.tail.tail == LastSlots(p) && AllSlots(q).tail.tail.tail == LastSlots(q);
  }

  /** What is read back over p0. */
  lemma PropsMerged(p0: PubProps, p: PubProps, topic: seq<byte>, tail: seq<byte>)
    requires AllFit(AllSlots(p)) && Whole(p.userProperty) && tail != []
    requires PropsReadable(p0, p, topic) && tail[0] !in TailIds(AllSlots(p))
    ensures ParseProps(p0, topic, WireSlots(AllSlots(p)) + tail) == GotProps(MergeProps(p0, p), tail)
  {
    hide FirstSlots, LastSlots, WireSlots, ReadSlots, Clear, TailIds, MergeSlots, SameShape, Table, AllFit, Append, Ids, AllPaired;
    hide WithFirst, WithLast;
    var a, b, q := FirstSlots(p), LastSlots(p), MergeProps(p0, p);
    AllSlotsTable(p);
    ClearMeans(AllSlots(p), tail);
    AppendParts(a, b);
    AppendClear(a, b, tail);
    AppendWire(a, b);
    Associate(WireSlots(a), WireSlots(b), tail);
    MergeFirst(p0, p);
    MergeLast(p0, p);
    SlotsGiveProps(p0, q);
    SlotsReuse(FirstSlots(p0), a, WireSlots(b) + tail);
    SlotsReuse(LastSlots(p0), b, tail);
  }

  lemma FirstOfShape(q: PubProps, a: Slots)
    requires SameShape(a, FirstSlots(q))
    ensures a == FirstSlots(WithFirst(q, a))
    ensures LastSlots(WithFirst(q, a)) == LastSlots(q)
  {
    var t := FirstSlots(q);
    assert SameShape(a.tail, t.tail);
    assert SameShape(a.tail.tail, t.tail.tail);
    assert SameShape(a.tail.tail.tail, Nil);
  }

  lemma LastOfShape(q: PubProps, b: Slots)
    requires SameShape(b, LastSlots(q))
    ensures b == LastSlots(WithLast(q, b))
    ensures FirstSlots(WithLast(q, b)) == FirstSlots(q)
  {
    var t := LastSlots(q);
    assert SameShape(b.tail, t.tail);
    assert SameShape(b.tail.tail, t.tail.tail);
    assert SameShape(b.tail.tail.tail, t.tail.tail.tail);
    assert SameShape(b.tail.tail.tail.tail, t.tail.tail.tail.tail);
    assert SameShape(b.tail.tail.tail.tail.tail, Nil);
  }

  /** Whatever properties are read are those of the slots read. */
  lemma SlotsOfProps(p0: PubProps, topic: seq<byte>, s: seq<byte>)
    ensures var r := ParseProps(p0, topic, s);
      r.GotProps? ==>
        && ReadSlots(AllSlots(p0), s) == TookAll(AllSlots(r.props), r.rest)
        && (r.props.alias != 0 || ValidTopic(topic))
  {
    var a := ReadSlots(FirstSlots(p0), s);
    AppendReads(FirstSlots(p0), LastSlots(p0), s);
    if a.TookAll? {
      ShapeKept(FirstSlots(p0), s);
      FirstOfShape(p0, a.slots);
      LastRead(WithFirst(p0, a.slots), a.rest);
    }
  }

  lemma LastRead(q: PubProps, s: seq<byte>)
    ensures var r := ParseLast(q, s);
      r.GotProps? ==>
        && ReadSlots(LastSlots(q), s) == TookAll(LastSlots(r.props), r.rest)
        && FirstSlots(r.props) == FirstSlots(q) && r.props.alias == q.alias
  {
    var b := ReadSlots(LastSlots(q), s);
    if b.TookAll? {
      ShapeKept(LastSlots(q), s);
      LastOfShape(q, b.slots);
    }
  }

  /** The converse: whenever the properties come back and as much is left as was behind them. */
  lemma PropsOnlyComeBack(p0: PubProps, p: PubProps, topic: seq<byte>, tail: seq<byte>)
    requires AllFit(AllSlots(p)) && Whole(p.userProperty) && tail != []
    requires var r := ParseProps(p0, topic, WireSlots(AllSlots(p)) + tail);
      r.GotProps? && r.props == p && |r.rest| == |tail|
    ensures PropsReadable(p0, p, topic) && MergeProps(p0, p) == p && tail[0] !in TailIds(AllSlots(p))
  {
    hide FirstSlots, LastSlots, WireSlots, ReadSlots, Clear, TailIds, MergeSlots, SameShape, Table, AllFit, Append, Ids, AllPaired;
    hide ParseFirst, ParseLast, MergeProps, AllSlots;
    AllSlotsTable(p);
    MergeSections(p0, p);
    SlotsOfProps(p0, topic, WireSlots(AllSlots(p)) + tail);
    SlotsReuse(AllSlots(p0), AllSlots(p), tail);
    SlotsTellProps(MergeProps(p0, p), p);
    ClearMeans(AllSlots(p), tail);
  }

  // ----- the round trip of the packet -----

  /** What a caller can check before encoding. The last line is the price of not using the
      property length: the payload must not start with the identifier of the last property that
      is set, or of one that could follow it. */
  predicate Survives(m: Msg)
    requires Encodable(m)
  {
    && Qos(m.flags) != 3
    && |m.packetId| == IdLen(m.flags)
    && PropsSurvive(m.props, m.topic)
    && m.payload[0] !in TailIds(AllSlots(m.props))
  }

  /** The identifier an object holds after the front of a packet has been read. */
  function IdAfter(flags: byte, oldId: seq<byte>, id: seq<byte>): seq<byte> {
    if Qos(flags) == 0 then oldId else id
  }

  /** What an object that held m0 holds after the packet of m has been decoded into it. */
  function Merge(m0: Msg, m: Msg): Msg {
    Msg(m.flags, IdAfter(m.flags, m0.packetId, m.packetId), m.topic, MergeProps(m0.props, m.props), m.payload)
  }

  /** The packet of m can be decoded into an object that holds m0. */
  predicate Readable(m0: Msg, m: Msg)
    requires Encodable(m)
  {
    && Qos(m.flags) != 3
    && |IdBytes(m)| == IdLen(m.flags)
    && PropsReadable(m0.props, m.props, m.topic)
    && m.payload[0] !in TailIds(AllSlots(m.props))
  }

  /** m comes back from an object that held m0: the packet does not carry properties that are not
      set, nor at QoS 0 the packet identifier, so those must already be there. */
  predicate SurvivesOver(m0: Msg, m: Msg)
    requires Encodable(m)
  {
    && Readable(m0, m)
    && NoneStale(m0.props, m.props)
    && (Qos(m.flags) == 0 ==> m.packetId == m0.packetId)
  }

  /** Decoding what was encoded into an object that has been used before leaves there the message
      merged with what the object held; that is the message itself if and only if the message
      survives over it; and exactly the encoded bytes are used. */
  lemma PublishReuse(m0: Msg, m: Msg, extra: seq<byte>)
    requires Encodable(m) && MType(m0.flags) == PUBLISH
    ensures var r := Parse(m0, WireOf(m) + extra);
      && (Readable(m0, m) ==> r == Parsed(Merge(m0, m), PropsLen(m), extra))
      && (r.Parsed? && r.m == m <==> SurvivesOver(m0, m))
  {
    hide AllSlots, WireSlots, TailIds, ParseFront, ParseProps, VarBytes, Body, BodyLen, WireOf, PropsLen, HeadBytes, PropsReadable;
    var w, tail := WireSlots(AllSlots(m.props)), m.payload + extra;
    BodySplit(m, extra);
    if Qos(m.flags) != 3 && |IdBytes(m)| == IdLen(m.flags) {
      BodyLength(m);
      FrontBack(m0.flags, m0.packetId, m.flags, m.topic, IdBytes(m), BodyLen(m), PropsLen(m), w + tail);
      FinishBack(m0, m, extra, PropsLen(m), ParseProps(m0.props, m.topic, w + tail));
      PropsBack(m0.props, m, tail);
    } else {
      FrontLost(m0, m, Body(m) + extra);
    }
  }

  /** Decoding into a new message gives back every field, if and only if the message survives. */
  lemma PublishRoundTrip(m: Msg, extra: seq<byte>)
    requires Encodable(m)
    ensures var r := Parse(FRESH, WireOf(m) + extra);
      && (r.Parsed? && r.m == m <==> Survives(m))
      && (Survives(m) ==> r == Parsed(m, PropsLen(m), extra))
  {
    hide AllSlots, TailIds, Parse, WireOf;
    PublishReuse(FRESH, m, extra);
  }

  lemma AllSlotsWhole(p: PubProps)
    ensures AllWhole(AllSlots(p)) <==> Whole(p.userProperty)
  {
    var b := LastSlots(p);
    assert AllWhole(b.tail.tail.tail.tail) && AllWhole(b.tail.tail.tail);
    assert AllWhole(b.tail) <==> AllWhole(b.tail.tail);
    assert AllWhole(b) <==> AllWhole(b.tail);
    var a := FirstSlots(p);
    assert AllWhole(a.tail.tail) && AllWhole(a.tail) && AllWhole(a);
    AppendParts(a, b);
  }

  /** The computed length is the length written, exactly when no user property is too long and
      there is an identifier to go with the QoS. (An identifier is never longer than two bytes.) */
  lemma LengthExact(m: Msg)
    requires Refusal(m) == None && |m.packetId| <= 2
    ensures |WireOf(m)| <= LenOf(m)
    ensures |WireOf(m)| == LenOf(m) <==> Whole(m.props.userProperty) && |IdBytes(m)| == IdLen(m.flags)
  {
    AllSlotsWhole(m.props);
    SlotsLength(AllSlots(m.props));
  }

  /** Encode does not notice a user property that is too long. The packet it reports as written
      is then shorter than its own header says, and no decoder of this kind takes it. */
  lemma CutPacketRefused(m: Msg, m0: Msg)
    requires MType(m.flags) == MType(m0.flags) == PUBLISH && Qos(m.flags) != 3
    requires Refusal(m) == None && |m.packetId| <= 2 && BodyLen(m) <= MAX_REMAINING
    requires !Whole(m.props.userProperty)
    ensures Parse(m0, WireOf(m)) == Failed(InvalidMessage)
  {
    LengthExact(m);
    HeadReads(m0.flags, m.flags, BodyLen(m), Body(m));
  }

  lemma BodyLength(m: Msg)
    requires Encodable(m) && |IdBytes(m)| == IdLen(m.flags)
    ensures |Body(m)| == BodyLen(m)
    ensures |WireSlots(AllSlots(m.props))| == PropsLen(m)
  {
    AllSlotsWhole(m.props);
    SlotsLength(AllSlots(m.props));
  }

  lemma BodySplit(m: Msg, extra: seq<byte>)
    requires |m.topic| <= MAX_LP && AllFit(AllSlots(m.props))
    ensures WireOf(m) + extra == HeadBytes(m.flags, BodyLen(m)) + (Body(m) + extra)
    ensures Body(m) + extra
      == LP(m.topic) + (IdBytes(m) + (VarBytes(PropsLen(m)) + (WireSlots(AllSlots(m.props)) + (m.payload + extra))))
  {
  }

  lemma FrontBack(was: byte, oldId: seq<byte>, flags: byte, topic: seq<byte>, id: seq<byte>, remlen: nat, propsLen: nat, rest: seq<byte>)
    requires MType(flags) == MType(was) == PUBLISH && Qos(flags) != 3
    requires |topic| <= MAX_LP && |id| == IdLen(flags) && propsLen <= MAX_REMAINING
    requires 0 < remlen <= MAX_REMAINING && remlen <= 2 + |topic| + |id| + |VarBytes(propsLen)| + |rest|
    ensures var v := VarBytes(propsLen);
      ParseFront(was, oldId, HeadBytes(flags, remlen) + (LP(topic) + (id + (v + rest))))
        == Front(flags, topic, IdAfter(flags, oldId, id), propsLen, remlen - 2 - |topic| - |id| - |v|, rest)
  {
    TopBack(was, oldId, flags, topic, id, remlen, VarBytes(propsLen) + rest);
    LbRoundTrip(propsLen, rest);
  }

  lemma TopBack(was: byte, oldId: seq<byte>, flags: byte, topic: seq<byte>, id: seq<byte>, remlen: nat, rest: seq<byte>)
    requires MType(flags) == MType(was) == PUBLISH && Qos(flags) != 3
    requires |topic| <= MAX_LP && |id| == IdLen(flags)
    requires 0 < remlen <= MAX_REMAINING && remlen <= 2 + |topic| + |id| + |rest|
    ensures ParseTop(was, oldId, HeadBytes(flags, remlen) + (LP(topic) + (id + rest)))
      == Front(flags, topic, IdAfter(flags, oldId, id), 0, remlen - 2 - |topic| - |id|, rest)
  {
    HeadReads(was, flags, remlen, LP(topic) + (id + rest));
    LPReads(topic, id + rest);
    assert (id + rest)[|id|..] == rest && (id + rest)[..|id|] == id;
  }

  lemma FinishBack(m0: Msg, m: Msg, extra: seq<byte>, propsLen: nat, r: PropsScan)
    ensures var f := Finish(Msg(m.flags, IdAfter(m.flags, m0.packetId, m.packetId), m.topic, m0.props, m0.payload), propsLen, -|extra|, r);
      && (r == GotProps(MergeProps(m0.props, m.props), m.payload + extra) ==> f == Parsed(Merge(m0, m), propsLen, extra))
      && (f.Parsed? && f.m == m ==>
        && IdAfter(m.flags, m0.packetId, m.packetId) == m.packetId
        && r.GotProps? && r.props == m.props && |r.rest| == |m.payload + extra|)
  {
  }

  lemma PropsBack(p0: PubProps, m: Msg, tail: seq<byte>)
    requires Encodable(m) && tail != []
    ensures var r := ParseProps(p0, m.topic, WireSlots(AllSlots(m.props)) + tail);
      var good := PropsReadable(p0, m.props, m.topic) && tail[0] !in TailIds(AllSlots(m.props));
      && (good ==> r == GotProps(MergeProps(p0, m.props), tail))
      && (r.GotProps? && r.props == m.props && |r.rest| == |tail| ==> good && MergeProps(p0, m.props) == m.props)
  {
    hide AllSlots, WireSlots, TailIds, ParseProps, PropsReadable, MergeProps;
    var r := ParseProps(p0, m.topic, WireSlots(AllSlots(m.props)) + tail);
    if PropsReadable(p0, m.props, m.topic) && tail[0] !in TailIds(AllSlots(m.props)) {
      PropsMerged(p0, m.props, m.topic, tail);
    } else if r.GotProps? && r.props == m.props && |r.rest| == |tail| {
      PropsOnlyComeBack(p0, m.props, m.topic, tail);
    }
  }

  /** A QoS of 3 is refused; an identifier that does not go with the QoS is not restored. */
  lemma FrontLost(m0: Msg, m: Msg, body: seq<byte>)
    requires Encodable(m) && MType(m0.flags) == PUBLISH && (Qos(m.flags) == 3 || |IdBytes(m)| != IdLen(m.flags))
    ensures var f := ParseFront(m0.flags, m0.packetId, HeadBytes(m.flags, BodyLen(m)) + body);
      !(f.Front? && f.flags == m.flags && f.packetId == m.packetId)
  {
  }
}
