/** The PUBLISH message object, against the definitions of Publish: its two encoders write the
    same bytes, its decoder and its length computation agree with them. */
module PublishMessage {
  import opened Common
  import opened VarInt
  import opened Props
  import opened Wire
  import opened SlotCodec
  import opened Header
  import opened Publish

  /** The message as the encoders leave it: with a packet identifier if it needs one. */
  function Ready(m: Msg, next: uint16): Msg {
    if Qos(m.flags) != 0 then m.(packetId := Assigned(m.packetId, next)) else m
  }

  /** What is refused while writing. */
  function LateRefusal(m: Msg): Option<Fault> {
    if !ValidType(MType(m.flags)) then Some(InvalidMessage)
    else if |m.topic| > MAX_LP || !AllFit(AllSlots(m.props)) then Some(TooLong)
    else None
  }

  /** Encode looks at the room in dst before it looks at the type and the lengths. */
  function EncodeRefusal(m: Msg, room: nat): Option<Fault> {
    if Refusal(m) == Some(NoTopic) || Refusal(m) == Some(NoPayload) then Refusal(m)
    else if room < LenOf(m) then Some(Insufficient)
    else Refusal(m)
  }

  class PublishMessage {
    const head: Fixed
    var propertiesLen: nat
    var topic: seq<byte>
    var props: PubProps
    var payload: seq<byte>

    constructor ()
      ensures fresh(head) && View() == FRESH
    {
      head := new Fixed(PUBLISH);
      propertiesLen, topic, props, payload := 0, [], NO_PROPS, [];
    }

    function View(): Msg
      reads this, head
    {
      Msg(head.mtypeflags, head.packetId, topic, props, payload)
    }

    /** A packet identifier is either missing or two bytes long. */
    predicate Valid()
      reads head
    {
      |head.packetId| == 0 || |head.packetId| == 2
    }

    /** An object that holds m again, as one that is reused does. */
    method Restore(m: Msg)
      modifies this, head
      ensures View() == m
    {
      head.mtypeflags, head.packetId := m.flags, m.packetId;
      topic, props, payload := m.topic, m.props, m.payload;
    }

    /** build */
    method Build()
      requires BodyLen(View()) <= MAX_REMAINING
      modifies this`propertiesLen, head`remlen
      ensures propertiesLen == PropsLen(View()) && head.remlen == BodyLen(View())
    {
      var total := 2;
      total := total + |topic|;
      if Qos(head.mtypeflags) != 0 {
        total := total + 2;
      }
      var tag := total;
      var n := FirstLen(props);
      total := total + n;
      n := LastLen(props);
      total := total + n;
      AppendParts(FirstSlots(props), LastSlots(props));
      propertiesLen := total - tag;
      var b := LbEncode(propertiesLen);
      total := total + |b|;
      total := total + |payload|;
      var ok := head.SetRemainingLength(total);
    }

    method Len() returns (n: nat)
      requires BodyLen(View()) <= MAX_REMAINING
      modifies this`propertiesLen, head`remlen
      ensures n == LenOf(View())
    {
      Build();
      n := head.Msglen() + head.remlen;
    }

    /** next is the value the global counter of packet identifiers has reached. */
    method Encode(dst: array<byte>, next: uint16) returns (total: nat, err: Option<Fault>)
      requires Valid() && BodyLen(View()) <= MAX_REMAINING
      modifies this`propertiesLen, head`remlen, head`packetId, dst
      ensures Valid() && err == EncodeRefusal(old(View()), dst.Length)
      ensures View() == old(View()) || View() == Ready(old(View()), next)
      ensures err.None? ==> View() == Ready(old(View()), next) && total == |WireOf(View())| <= dst.Length
      ensures err.None? ==> dst[..] == Splice(old(dst[..]), 0, WireOf(View()))
    {
      hide Splice, AllSlots, SlotsLen, VarBytes, WireOf, AllFit, HeadBytes;
      if |topic| == 0 && props.alias == 0 {
        return 0, Some(NoTopic);
      }
      if |payload| == 0 {
        return 0, Some(NoPayload);
      }
      Build();
      if dst.Length < head.Msglen() + head.remlen {
        return 0, Some(Insufficient);
      }
      total, err := EncodeBuilt(dst, next);
    }

    /** The rest of Encode, once the lengths are known. */
    method EncodeBuilt(dst: array<byte>, next: uint16) returns (total: nat, err: Option<Fault>)
      requires Valid() && BodyLen(View()) <= MAX_REMAINING && propertiesLen == PropsLen(View()) && head.remlen == BodyLen(View())
      requires LenOf(View()) <= dst.Length
      modifies head`packetId, dst
      ensures Valid() && err == LateRefusal(old(View()))
      ensures View() == old(View()) || View() == Ready(old(View()), next)
      ensures err.None? ==> View() == Ready(old(View()), next) && total == |WireOf(View())| <= dst.Length
      ensures err.None? ==> dst[..] == Splice(old(dst[..]), 0, WireOf(View()))
    {
      hide Splice, AllSlots, WireSlots, SlotsLen, Table, VarBytes, HeadBytes, FrontBytes, RestBytes, AllFit;
      AllSlotsTable(props);
      total, err := EncodeAll(dst, next, AllSlots(props));
      if err.None? {
        WireParts(View());
      }
    }

    method EncodeAll(dst: array<byte>, next: uint16, ss: Slots) returns (total: nat, err: Option<Fault>)
      requires Valid() && Table(ss) && propertiesLen == SlotsLen(ss) <= MAX_REMAINING && head.remlen <= MAX_REMAINING
      requires head.Msglen() + 2 + |topic| + IdLen(head.mtypeflags) + |VarBytes(propertiesLen)| + propertiesLen + |payload| <= dst.Length
      modifies head`packetId, dst
      ensures Valid()
      ensures err == if FrontRefusal(head.mtypeflags, topic).Some? then FrontRefusal(head.mtypeflags, topic)
        else if AllFit(ss) then None else Some(TooLong)
      ensures head.packetId == old(head.packetId) || head.packetId == ReadyId(head.mtypeflags, old(head.packetId), next)
      ensures err.None? ==>
        var bytes := FrontBytes(head.mtypeflags, head.remlen, topic, head.packetId) + RestBytes(propertiesLen, ss, payload);
        && head.packetId == ReadyId(head.mtypeflags, old(head.packetId), next)
        && total == |bytes| <= dst.Length && dst[..] == Splice(old(dst[..]), 0, bytes)
    {
      hide Splice, FrontBytes, RestBytes, HeadBytes, SlotsLen, WireSlots, AllFit, Table, VarBytes;
      ghost var was := dst[..];
      total, err := EncodeFront(dst, next);
      if err.Some? {
        return;
      }
      var n;
      n, err := EncodeRest(dst, total, propertiesLen, ss, payload);
      if err.None? {
        SpliceTwice(was, 0, FrontBytes(head.mtypeflags, head.remlen, topic, head.packetId), RestBytes(propertiesLen, ss, payload));
        total := total + n;
      }
    }

    method EncodeFront(dst: array<byte>, next: uint16) returns (total: nat, err: Option<Fault>)
      requires Valid() && head.remlen <= MAX_REMAINING
      requires head.Msglen() + 2 + |topic| + IdLen(head.mtypeflags) <= dst.Length
      modifies head`packetId, dst
      ensures Valid() && err == FrontRefusal(head.mtypeflags, topic)
      ensures head.packetId == old(head.packetId) || head.packetId == ReadyId(head.mtypeflags, old(head.packetId), next)
      ensures err.None? ==>
        var front := FrontBytes(head.mtypeflags, head.remlen, topic, head.packetId);
        && head.packetId == ReadyId(head.mtypeflags, old(head.packetId), next)
        && total == |front| <= head.Msglen() + 2 + |topic| + IdLen(head.mtypeflags)
        && dst[..] == Splice(old(dst[..]), 0, front)
    {
      hide Splice;
      ghost var was := dst[..];
      total, err := EncodeTop(dst);
      if err.None? {
        var n := EncodeId(dst, total, next);
        SpliceTwice(was, 0, HeadBytes(head.mtypeflags, head.remlen) + LP(topic), IdPart(head.mtypeflags, head.packetId));
        total := total + n;
      }
    }

    method EncodeTop(dst: array<byte>) returns (total: nat, err: Option<Fault>)
      requires head.remlen <= MAX_REMAINING && head.Msglen() + 2 + |topic| <= dst.Length
      modifies dst
      ensures err == FrontRefusal(head.mtypeflags, topic)
      ensures err.None? ==>
        var top := HeadBytes(head.mtypeflags, head.remlen) + LP(topic);
        total == |top| == head.Msglen() + 2 + |topic| && dst[..] == Splice(old(dst[..]), 0, top)
    {
      ghost var was := dst[..];
      total, err := head.Encode(dst);
      if err.Some? {
        return;
      }
      var n;
      n, err := WriteLPBytes(dst, total, topic);
      if err.None? {
        SpliceTwice(was, 0, HeadBytes(head.mtypeflags, head.remlen), LP(topic));
        total := total + n;
      }
    }

    /** The packet identifier field is only present for QoS 1 and 2. */
    method EncodeId(dst: array<byte>, at: nat, next: uint16) returns (n: nat)
      requires Valid() && at + IdLen(head.mtypeflags) <= dst.Length
      modifies head`packetId, dst
      ensures Valid() && head.packetId == ReadyId(head.mtypeflags, old(head.packetId), next)
      ensures n == |IdPart(head.mtypeflags, head.packetId)| <= IdLen(head.mtypeflags)
      ensures dst[..] == Splice(old(dst[..]), at, IdPart(head.mtypeflags, head.packetId))
    {
      n := 0;
      SpliceNone(dst[..], at);
      if Qos(head.mtypeflags) != 0 {
        head.EnsurePacketId(next);
        Copy(dst, at, head.packetId);
        n := |head.packetId|;
      }
    }

    /** The bytes before an error stay in the buffer. */
    method EncodeToBuf(dst: Buf, next: uint16) returns (err: Option<Fault>)
      requires Valid() && BodyLen(View()) <= MAX_REMAINING
      modifies this`propertiesLen, head`remlen, head`packetId, dst
      ensures Valid() && old(dst.data) <= dst.data
      ensures err == if Refusal(old(View())) == None && !Whole(props.userProperty) then Some(TooLong) else Refusal(old(View()))
      ensures View() == old(View()) || View() == Ready(old(View()), next)
      ensures err.None? ==> View() == Ready(old(View()), next) && dst.data == old(dst.data) + WireOf(View())
    {
      hide AllSlots, SlotsLen, VarBytes, WireOf, AllFit;
      if |topic| == 0 && props.alias == 0 {
        return Some(NoTopic);
      }
      if |payload| == 0 {
        return Some(NoPayload);
      }
      Build();
      err := EncodeBuiltToBuf(dst, next);
    }

    method EncodeBuiltToBuf(dst: Buf, next: uint16) returns (err: Option<Fault>)
      requires Valid() && BodyLen(View()) <= MAX_REMAINING && propertiesLen == PropsLen(View()) && head.remlen == BodyLen(View())
      modifies head`packetId, dst
      ensures Valid() && old(dst.data) <= dst.data
      ensures err == if LateRefusal(old(View())) == None && !Whole(props.userProperty) then Some(TooLong) else LateRefusal(old(View()))
      ensures View() == old(View()) || View() == Ready(old(View()), next)
      ensures err.None? ==> View() == Ready(old(View()), next) && dst.data == old(dst.data) + WireOf(View())
    {
      hide AllSlots, WireSlots, SlotsLen, Table, VarBytes, HeadBytes, FrontBytes, RestBytes, AllFit, AllWhole;
      AllSlotsTable(props);
      AllSlotsWhole(props);
      err := EncodeAllToBuf(dst, next, AllSlots(props));
      if err.None? {
        WireParts(View());
      }
    }

    method EncodeAllToBuf(dst: Buf, next: uint16, ss: Slots) returns (err: Option<Fault>)
      requires Valid() && Table(ss) && propertiesLen == SlotsLen(ss) <= MAX_REMAINING && head.remlen <= MAX_REMAINING
      modifies head`packetId, dst
      ensures Valid() && old(dst.data) <= dst.data
      ensures err == if FrontRefusal(head.mtypeflags, topic).Some? then FrontRefusal(head.mtypeflags, topic)
        else if AllFit(ss) && AllWhole(ss) then None else Some(TooLong)
      ensures head.packetId == old(head.packetId) || head.packetId == ReadyId(head.mtypeflags, old(head.packetId), next)
      ensures err.None? ==>
        && head.packetId == ReadyId(head.mtypeflags, old(head.packetId), next)
        && dst.data == old(dst.data)
          + (FrontBytes(head.mtypeflags, head.remlen, topic, head.packetId) + RestBytes(propertiesLen, ss, payload))
    {
      err := EncodeFrontToBuf(dst, next);
      if err.Some? {
        return;
      }
      err := EncodeRestToBuf(dst, propertiesLen, ss, payload);
      if err.None? {
        Associate(old(dst.data), FrontBytes(head.mtypeflags, head.remlen, topic, head.packetId), RestBytes(propertiesLen, ss, payload));
      }
    }

    method EncodeFrontToBuf(dst: Buf, next: uint16) returns (err: Option<Fault>)
      requires Valid() && head.remlen <= MAX_REMAINING
      modifies head`packetId, dst
      ensures Valid() && old(dst.data) <= dst.data && err == FrontRefusal(head.mtypeflags, topic)
      ensures head.packetId == old(head.packetId) || head.packetId == ReadyId(head.mtypeflags, old(head.packetId), next)
      ensures err.None? ==>
        && head.packetId == ReadyId(head.mtypeflags, old(head.packetId), next)
        && dst.data == old(dst.data) + FrontBytes(head.mtypeflags, head.remlen, topic, head.packetId)
    {
      err := head.EncodeToBuf(dst);
      if err.Some? {
        return;
      }
      err := dst.WriteLPBytes(topic);
      if err.Some? {
        return;
      }
      Associate(old(dst.data), HeadBytes(head.mtypeflags, head.remlen), LP(topic));
      if Qos(head.mtypeflags) != 0 {
        head.EnsurePacketId(next);
        dst.Write(head.packetId);
        Associate(old(dst.data), HeadBytes(head.mtypeflags, head.remlen) + LP(topic), head.packetId);
      } else {
        assert HeadBytes(head.mtypeflags, head.remlen) + LP(topic) + [] == HeadBytes(head.mtypeflags, head.remlen) + LP(topic);
      }
    }

    /** After an error the fields read so far are overwritten, with what is not said. The first
        byte is stored whatever comes of it. */
    method Decode(src: seq<byte>) returns (total: nat, err: Option<Fault>)
      requires Valid() && MType(head.mtypeflags) == PUBLISH
      modifies this, head
      ensures Valid() && head.mtypeflags == if |src| == 0 then old(head.mtypeflags) else src[0]
      ensures err.Some? ==> Parse(old(View()), src) == Failed(err.value)
      ensures err.None? ==> total <= |src| && Parse(old(View()), src) == Parsed(View(), propertiesLen, src[total..])
    {
      hide Parse, ParseFront, Finish, ParseProps;
      ParseIs(View(), src);
      var hn;
      hn, total, err := DecodeFront(src);
      if err.None? {
        total, err := DecodeTail(src, total, head.remlen - (total - hn), Parse(old(View()), src));
      }
    }

    /** Properties and payload; left is what the remaining length leaves for them. */
    method DecodeTail(src: seq<byte>, at: nat, left: int, ghost whole: Scan) returns (total: nat, err: Option<Fault>)
      requires at <= |src|
      requires whole == Finish(View(), propertiesLen, left - (|src| - at), ParseProps(props, topic, src[at..]))
      modifies this`props, this`payload
      ensures err.Some? ==> whole == Failed(err.value)
      ensures err.None? ==> total <= |src| && whole == Parsed(View(), propertiesLen, src[total..])
    {
      var q, n;
      q, n, err := DecodeProps(src, at, props, topic);
      total := at + n;
      if err.None? {
        total, err := DecodePayload(src, at + n, left - n, q, whole);
      }
    }

    /** The payload is what the remaining length leaves. */
    method DecodePayload(src: seq<byte>, at: nat, l: int, q: PubProps, ghost whole: Scan) returns (total: nat, err: Option<Fault>)
      requires at <= |src|
      requires whole == Finish(View(), propertiesLen, l - (|src| - at), GotProps(q, src[at..]))
      modifies this`props, this`payload
      ensures err.Some? ==> whole == Failed(err.value)
      ensures err.None? ==> total <= |src| && whole == Parsed(View(), propertiesLen, src[total..])
    {
      if l < 0 || l > |src| - at {
        return at, Some(Panic);
      }
      DropDrop(src, at, l);
      props, payload := q, src[at..][..l];
      return at + l, None;
    }

    /** Header, topic, packet identifier and property length; hn is where the header ends. */
    method DecodeFront(src: seq<byte>) returns (hn: nat, total: nat, err: Option<Fault>)
      requires Valid() && MType(head.mtypeflags) == PUBLISH
      modifies this`topic, this`propertiesLen, head
      ensures Valid() && head.mtypeflags == if |src| == 0 then old(head.mtypeflags) else src[0]
      ensures var f := ParseFront(old(head.mtypeflags), old(head.packetId), src);
        && (err.Some? ==> f == NoFront(err.value))
        && (err.None? ==>
          && hn <= total <= |src|
          && f == Front(head.mtypeflags, topic, head.packetId, propertiesLen, head.remlen - (total - hn), src[total..]))
    {
      hide ParseTop, LbParse, ParseFront;
      FrontIs(head.mtypeflags, head.packetId, src);
      hn, total, err := DecodeTop(src);
      if err.Some? {
        return;
      }
      var n;
      propertiesLen, n, err := LbDecode(src[total..]);
      if err.None? {
        DropDrop(src, total, n);
        total := total + n;
      }
    }

    method DecodeTop(src: seq<byte>) returns (hn: nat, total: nat, err: Option<Fault>)
      requires Valid() && MType(head.mtypeflags) == PUBLISH
      modifies this`topic, head
      ensures Valid() && head.mtypeflags == if |src| == 0 then old(head.mtypeflags) else src[0]
      ensures var f := ParseTop(old(head.mtypeflags), old(head.packetId), src);
        && (err.Some? ==> f == NoFront(err.value))
        && (err.None? ==>
          && hn <= total <= |src|
          && f == Front(head.mtypeflags, topic, head.packetId, 0, head.remlen - (total - hn), src[total..]))
    {
      hide ParseHead, ReadLP;
      total := 0;
      hn, err := head.Decode(src);
      if err.Some? {
        return;
      }
      var n;
      topic, n, err := ReadLPBytes(src[hn..]);
      total := hn + n;
      if err.Some? {
        return;
      }
      DropDrop(src, hn, n);
      if Qos(head.mtypeflags) != 0 {
        if |src| - total < 2 {
          return hn, total, Some(Panic);
        }
        TakeTwo(src, total);
        head.packetId := src[total..total + 2];
        total := total + 2;
      }
    }
  }

  lemma TakeTwo(s: seq<byte>, at: nat)
    requires at + 2 <= |s|
    ensures s[at..][..2] == s[at..at + 2] && s[at..][2..] == s[at + 2..]
  {
  }

  /** The properties in order; a topic is checked after the first three, when there is no alias. */
  method DecodeProps(src: seq<byte>, at: nat, p: PubProps, topic: seq<byte>) returns (q: PubProps, n: nat, err: Option<Fault>)
    requires at <= |src|
    ensures err.Some? ==> ParseProps(p, topic, src[at..]) == BadProps(err.value)
    ensures err.None? ==> at + n <= |src| && ParseProps(p, topic, src[at..]) == GotProps(q, src[at + n..])
  {
    hide ParseFirst, ParseLast, ValidTopic, ParseProps;
    q, n, err := DecodeFirst(src, at, p);
    if err.Some? {
      ThenLast(p, topic, src[at..], q, []);
      return;
    }
    ThenLast(p, topic, src[at..], q, src[at + n..]);
    if q.alias == 0 && !ValidTopic(topic) {
      return q, n, Some(InvalidTopic);
    }
    var m;
    q, m, err := DecodeLast(src, at + n, q);
    n := n + m;
  }

  lemma ThenLast(p: PubProps, topic: seq<byte>, s: seq<byte>, q: PubProps, s1: seq<byte>)
    ensures ParseFirst(p, s).BadProps? ==> ParseProps(p, topic, s) == ParseFirst(p, s)
    ensures ParseFirst(p, s) == GotProps(q, s1) ==> ParseProps(p, topic, s) == if q.alias == 0 && !ValidTopic(topic) then BadProps(InvalidTopic) else ParseLast(q, s1)
  {
  }

  method DecodeFirst(src: seq<byte>, at: nat, p: PubProps) returns (q: PubProps, n: nat, err: Option<Fault>)
    requires at <= |src|
    ensures err.Some? ==> ParseFirst(p, src[at..]) == BadProps(err.value)
    ensures err.None? ==> at + n <= |src| && ParseFirst(p, src[at..]) == GotProps(q, src[at + n..])
  {
    var a;
    a, n, err := TakeSlots(src, at, FirstSlots(p));
    q := WithFirst(p, a);
  }

  method DecodeLast(src: seq<byte>, at: nat, p: PubProps) returns (q: PubProps, n: nat, err: Option<Fault>)
    requires at <= |src|
    ensures err.Some? ==> ParseLast(p, src[at..]) == BadProps(err.value)
    ensures err.None? ==> at + n <= |src| && ParseLast(p, src[at..]) == GotProps(q, src[at + n..])
  {
    var b;
    b, n, err := TakeSlots(src, at, LastSlots(p));
    q := WithLast(p, b);
  }

  function ReadyId(flags: byte, id: seq<byte>, next: uint16): seq<byte> {
    if Qos(flags) != 0 then Assigned(id, next) else id
  }

  function FrontRefusal(flags: byte, topic: seq<byte>): Option<Fault> {
    if !ValidType(MType(flags)) then Some(InvalidMessage) else if |topic| > MAX_LP then Some(TooLong) else None
  }

  /** What stands before the properties. */
  function FrontBytes(flags: byte, remlen: nat, topic: seq<byte>, id: seq<byte>): seq<byte>
    requires |topic| <= MAX_LP
  {
    HeadBytes(flags, remlen) + LP(topic) + IdPart(flags, id)
  }

  function IdPart(flags: byte, id: seq<byte>): seq<byte> {
    if Qos(flags) != 0 then id else []
  }

  lemma WireParts(m: Msg)
    requires |m.topic| <= MAX_LP && AllFit(AllSlots(m.props))
    ensures WireOf(m) == FrontBytes(m.flags, BodyLen(m), m.topic, m.packetId) + RestBytes(PropsLen(m), AllSlots(m.props), m.payload)
  {
  }

  method FirstLen(p: PubProps) returns (total: nat)
    ensures total == SlotsLen(FirstSlots(p))
  {
    total := 0;
    if p.formatIndicator != 0 {
      total := total + 2;
    }
    if p.expiry > 0 {
      total := total + 5;
    }
    if p.alias > 0 {
      total := total + 3;
    }
    var s := FirstSlots(p);
    LenOfThree(s.head, s.tail.head, s.tail.tail.head);
  }

  method LastLen(p: PubProps) returns (total: nat)
    ensures total == SlotsLen(LastSlots(p))
  {
    total := 0;
    if |p.responseTopic| > 0 {
      total := total + 1 + 2 + |p.responseTopic|;
    }
    if |p.correlation| > 0 {
      total := total + 1 + 2 + |p.correlation|;
    }
    var n := BuildUserPropertyLen(p.userProperty);
    total := total + n;
    if 0 < p.subscriptionId < SI_LIMIT {
      var b1 := LbEncode(p.subscriptionId);
      total := total + 1 + |b1|;
    }
    if |p.contentType| > 0 {
      total := total + 1 + 2 + |p.contentType|;
    }
    var s := LastSlots(p);
    var t := s.tail.tail;
    LenOfCons(s.head, s.tail);
    LenOfCons(s.tail.head, t);
    LenOfThree(t.head, t.tail.head, t.tail.tail.head);
  }
}
