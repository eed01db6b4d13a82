/** How a node of the retained-message tree takes a message in: by encoding it and decoding the
    bytes into the message object it already has. The decoder assigns only what is in the
    packet, so properties of an earlier message can survive; KeptExactly says when they do. */
module RetainMessage {
  import opened Common
  import opened VarInt
  import opened Props
  import opened Wire
  import opened Header
  import opened Publish
  import opened PublishMessage

  /** What a PUBLISH object can hold. */
  type Held = m: Msg | MType(m.flags) == PUBLISH && |m.packetId| in {0, 2} witness FRESH

  /** The object the bytes are decoded into. */
  function Base(was: Option<Held>): Held {
    if was.Some? then was.value else FRESH
  }

  datatype Upshot = Upshot(held: Option<Held>, err: bool)

  /** What is held once m has been taken in, where m is the message as its encoder leaves it.
      Junk is what stood in the buffer behind a packet shorter than its computed length; spoilt
      are the fields that a decoder which fails leaves behind. */
  function Kept(was: Option<Held>, m: Msg, junk: seq<byte>, spoilt: Held): Upshot
    requires MType(m.flags) == PUBLISH
  {
    if Refusal(m).Some? then Upshot(was, true)
    else
      var r := Parse(Base(was), WireOf(m) + junk);
      HoldsParsed(Base(was), WireOf(m) + junk);
      match r
      case Failed(_) => Upshot(Some(spoilt), true)
      case Parsed(got, _, _) => Upshot(Some(got), false)
  }

  lemma HoldsParsed(m0: Held, s: seq<byte>)
    ensures var r := Parse(m0, s); r.Parsed? ==> MType(r.m.flags) == PUBLISH && |r.m.packetId| in {0, 2}
  {
  }

  /** A message that an object holding m0 takes in unchanged: it can be written and read back,
      and every field that its packet does not carry has the same value there. */
  predicate Intact(m0: Held, m: Msg)
    requires MType(m.flags) == PUBLISH && BodyLen(m) <= MAX_REMAINING
  {
    Refusal(m) == None && Whole(m.props.userProperty) && SurvivesOver(m0, m)
  }

  /** Exactly the intact messages are held as they are. */
  lemma KeptExactly(was: Option<Held>, m: Msg, junk: seq<byte>, spoilt: Held)
    requires MType(m.flags) == PUBLISH && BodyLen(m) <= MAX_REMAINING
    ensures var u := Kept(was, m, junk, spoilt);
      u.held == Some(m) && !u.err <==> Intact(Base(was), m)
  {
    hide Parse, SurvivesOver, WireOf, AllSlots;
    if Refusal(m) == None {
      if Whole(m.props.userProperty) {
        PublishReuse(Base(was), m, junk);
      } else {
        OnlyWholeRead(Base(was), WireOf(m) + junk);
      }
    }
  }

  lemma OnlyWholeRead(m0: Msg, s: seq<byte>)
    ensures Parse(m0, s).Parsed? ==> Whole(Parse(m0, s).m.props.userProperty)
  {
    hide FirstSlots, LastSlots, ReadSlots, ParseProps, AllSlots;
    var f := ParseFront(m0.flags, m0.packetId, s);
    if f.Front? {
      var r := ParseProps(m0.props, f.topic, f.rest);
      SlotsOfProps(m0.props, f.topic, f.rest);
      ReadWhole(AllSlots(m0.props), f.rest);
      if r.GotProps? { AllSlotsWhole(r.props); }
    }
  }

  /** What is held in general: the message merged with what was held before. */
  lemma KeptMerged(was: Option<Held>, m: Msg, junk: seq<byte>, spoilt: Held)
    requires Encodable(m) && Readable(Base(was), m)
    ensures Kept(was, m, junk, spoilt).held == Some(Merge(Base(was), m)) && !Kept(was, m, junk, spoilt).err
  {
    PublishReuse(Base(was), m, junk);
  }

  /** Retain "h" on topic "a" with content type "x", then "h" again without properties: the
      content type is still there, and the second message is not what is held. */
  lemma ContentTypeStays(spoilt: Held)
    ensures var plain := Msg(49, [], [97], NO_PROPS, [104]);
      var typed := plain.(props := NO_PROPS.(contentType := [120]));
      var first := Kept(None, typed, [], spoilt);
      var second := Kept(first.held, plain, [], spoilt);
      !first.err && !second.err && first.held == second.held == Some(typed)
  {
    var plain := Msg(49, [], [97], NO_PROPS, [104]);
    var typed := plain.(props := NO_PROPS.(contentType := [120]));
    TypedEncodable(plain, typed);
    KeptMerged(None, typed, [], spoilt);
    KeptMerged(Some(typed), plain, [], spoilt);
  }

  lemma TypedEncodable(plain: Msg, typed: Msg)
    requires plain == Msg(49, [], [97], NO_PROPS, [104]) && typed == plain.(props := NO_PROPS.(contentType := [120]))
    ensures Encodable(plain) && Readable(typed, plain)
    ensures Encodable(typed) && Readable(FRESH, typed)
  {
    hide AllSlots, TailIds, VarBytes;
    OnlyContentType(plain.props);
    OnlyContentType(typed.props);
    VarBytesFit(0);
    VarBytesFit(4);
  }

  lemma OnlyContentType(p: PubProps)
    requires p == NO_PROPS.(contentType := p.contentType) && |p.contentType| <= 1
    ensures AllFit(AllSlots(p)) && SlotsLen(AllSlots(p)) == if p.contentType == [] then 0 else 4
    ensures 104 !in TailIds(AllSlots(p))
  {
    hide TailIds, Ids, Table, SlotsLen;
    var a, b := FirstSlots(p), LastSlots(p);
    AllSlotsTable(p);
    AppendParts(a, b);
    LenOfThree(a.head, a.tail.head, a.tail.tail.head);
    LenOfCons(b.head, b.tail);
    LenOfCons(b.tail.head, b.tail.tail);
    LenOfThree(b.tail.tail.head, b.tail.tail.tail.head, b.tail.tail.tail.tail.head);
    var b2 := b.tail.tail;
    assert AllFit(b2.tail.tail) && AllFit(b2.tail) && AllFit(b2) && AllFit(b.tail) && AllFit(b);
    TailAmongIds(AllSlots(p));
  }

  lemma WireFirst(m: Msg)
    requires Refusal(m) == None
    ensures |m.topic| <= MAX_LP && AllFit(AllSlots(m.props)) && WireOf(m) != [] && WireOf(m)[0] == m.flags
  {
  }

  lemma SpliceFront(d: seq<byte>, b: seq<byte>)
    requires |b| <= |d|
    ensures Splice(d, 0, b) == b + d[|b|..]
  {
  }

  /** What a decoder leaves is what is held. */
  lemma KeptIs(was: Option<Held>, m: Msg, junk: seq<byte>, left: Held, propsLen: nat, rest: seq<byte>, e: Option<Fault>)
    requires MType(m.flags) == PUBLISH && Refusal(m) == None
    requires Parse(Base(was), WireOf(m) + junk) == if e.Some? then Failed(e.value) else Parsed(left, propsLen, rest)
    ensures Kept(was, m, junk, left) == Upshot(Some(left), e.Some?)
  {
  }

  /** Decoding into the object that is reused. */
  method Reread(was: Option<Held>, bytes: seq<byte>) returns (left: Held, e: Option<Fault>, ghost propsLen: nat, ghost rest: seq<byte>)
    requires bytes != [] && MType(bytes[0]) == PUBLISH
    ensures Parse(Base(was), bytes) == if e.Some? then Failed(e.value) else Parsed(left, propsLen, rest)
  {
    hide Parse;
    var msg := new PublishMessage();
    if was.Some? {
      msg.Restore(was.value);
    }
    var total;
    total, e := msg.Decode(bytes);
    left, propsLen := msg.View(), msg.propertiesLen;
    rest := if e.Some? then [] else bytes[total..];
  }

  /** The leaf of rinsert. The buffer is as long as the message says it is, its contents are
      whatever they were. */
  method Absorb(was: Option<Held>, pub: PublishMessage, next: uint16)
    returns (held: Option<Held>, err: bool, ghost junk: seq<byte>, ghost spoilt: Held)
    requires pub.Valid() && MType(pub.head.mtypeflags) == PUBLISH && BodyLen(pub.View()) <= MAX_REMAINING
    modifies pub`propertiesLen, pub.head`remlen, pub.head`packetId
    ensures pub.Valid() && (pub.View() == old(pub.View()) || pub.View() == Ready(old(pub.View()), next))
    ensures Refusal(old(pub.View())) == None ==> pub.View() == Ready(old(pub.View()), next)
    ensures Upshot(held, err) == Kept(was, pub.View(), junk, spoilt)
  {
    hide Parse, WireOf, Refusal, BodyLen, PropsLen, AllSlots, LenOf, Splice;
    ghost var given := pub.View();
    SameLength(given, next);
    var l := pub.Len();
    var buf := new byte[l];
    ghost var stale := buf[..];
    var n, e := pub.Encode(buf, next);
    if e.Some? {
      return was, true, [], FRESH;
    }
    ghost var m := pub.View();
    WireFirst(m);
    SpliceFront(stale, WireOf(m));
    var left, e', propsLen, rest := Reread(was, buf[..]);
    KeptIs(was, m, stale[n..], left, propsLen, rest, e');
    return Some(left), e'.Some?, stale[n..], left;
  }

  /** The packet identifier counts for neither. */
  lemma SameLength(m: Msg, next: uint16)
    ensures Refusal(Ready(m, next)) == Refusal(m)
    ensures EncodeRefusal(m, LenOf(m)) == Refusal(m)
  {
  }
}
