/** The SUBSCRIBE message object, against the definitions of Subscribe. Filters and options are
    kept in five parallel slices, as in the source. */
module SubscribeMessage {
  import opened Common
  import opened Bits
  import opened VarInt
  import opened Props
  import opened Wire
  import opened SlotCodec
  import opened Header
  import opened IdFront
  import opened Subscribe

  /** The i-th entries of the five slices together. */
  function Zip(topics: seq<seq<byte>>, q: seq<byte>, n: seq<byte>, p: seq<byte>, h: seq<byte>): (rs: seq<Request>)
    requires |topics| == |q| == |n| == |p| == |h|
    ensures |rs| == |topics|
  {
    seq(|topics|, i requires 0 <= i < |topics| => Request(topics[i], q[i], n[i], p[i], h[i]))
  }

  lemma ZipAppend(topics: seq<seq<byte>>, q: seq<byte>, n: seq<byte>, p: seq<byte>, h: seq<byte>, r: Request)
    requires |topics| == |q| == |n| == |p| == |h|
    ensures Zip(topics + [r.topic], q + [r.qos], n + [r.noLocal], p + [r.retainAsPub], h + [r.retainHandling])
      == Zip(topics, q, n, p, h) + [r]
  {
  }

  function LenOf(m: Msg): nat {
    |HeadBytes(m.flags, BodyLen(m))| + BodyLen(m)
  }

  function Ready(m: Msg, next: uint16): Msg {
    m.(packetId := Assigned(m.packetId, next))
  }

  /** What Encode refuses; EncodeToBuf also refuses a user property that is too long. */
  function EncodeRefusal(m: Msg, room: nat): Option<Fault> {
    if room < LenOf(m) then Some(Insufficient) else Refusal(m)
  }

  function Refusal(m: Msg): Option<Fault> {
    if !ValidType(MType(m.flags)) then Some(InvalidMessage)
    else if !TopicsFit(m.requests) then Some(TooLong)
    else None
  }

  class SubscribeMessage {
    const head: Fixed
    var propertiesLen: nat
    var subscriptionIdentifier: nat
    var userProperty: seq<seq<byte>>
    var topics: seq<seq<byte>>
    var qos: seq<byte>
    var noLocal: seq<byte>
    var retainAsPub: seq<byte>
    var retainHandling: seq<byte>

    predicate Parallel()
      reads this
    {
      |topics| == |qos| == |noLocal| == |retainAsPub| == |retainHandling|
    }

    function Requests(): seq<Request>
      requires Parallel()
      reads this
    {
      Zip(topics, qos, noLocal, retainAsPub, retainHandling)
    }

    function Properties(): SubProps
      reads this
    {
      SubProps(subscriptionIdentifier, userProperty)
    }

    predicate Valid()
      reads this, head
    {
      Parallel() && AllSound(Requests()) && (|head.packetId| == 0 || |head.packetId| == 2)
    }

    function View(): Msg
      requires Parallel()
      reads this, head
    {
      Msg(head.mtypeflags, head.packetId, Properties(), Requests())
    }

    constructor ()
      ensures fresh(head) && Valid() && View() == FRESH
    {
      head := new Fixed(SUBSCRIBE);
      propertiesLen, subscriptionIdentifier, userProperty := 0, 0, [];
      topics, qos, noLocal, retainAsPub, retainHandling := [], [], [], [], [];
    }

    /** AddTopicAll: a filter that is there already only gets the new QoS. */
    method AddTopicAll(topic: seq<byte>, q: byte, nl: bool, rap: bool, rh: byte) returns (ok: bool)
      requires Valid()
      modifies this
      ensures Valid() && ok == (q < 3 && rh <= 2)
      ensures Properties() == old(Properties()) && propertiesLen == old(propertiesLen)
      ensures ok && topic !in old(topics) ==>
        Requests() == old(Requests()) + [Request(topic, q, if nl then 1 else 0, if rap then 1 else 0, rh)]
      ensures ok && topic in old(topics) ==>
        exists i :: 0 <= i < |old(topics)| && old(topics)[i] == topic && topic !in old(topics)[..i]
          && Requests() == old(Requests())[i := old(Requests())[i].(qos := q)]
      ensures !ok ==> Requests() == old(Requests())
    {
      if q > 2 || rh > 2 {
        return false;
      }
      var i := 0;
      while i < |topics|
        invariant i <= |topics| && topic !in topics[..i]
      {
        if topics[i] == topic {
          SoundUpdate(Requests(), i, q);
          qos := qos[i := q];
          assert Requests() == old(Requests())[i := old(Requests())[i].(qos := q)];
          return true;
        }
        i := i + 1;
      }
      assert topics[..i] == topics;
      var r := Request(topic, q, if nl then 1 else 0, if rap then 1 else 0, rh);
      ZipAppend(topics, qos, noLocal, retainAsPub, retainHandling, r);
      SoundAppend(Requests(), r);
      topics, qos, noLocal, retainAsPub, retainHandling :=
        topics + [r.topic], qos + [r.qos], noLocal + [r.noLocal], retainAsPub + [r.retainAsPub], retainHandling + [r.retainHandling];
      return true;
    }

    /** build */
    method Build()
      requires Parallel() && BodyLen(View()) <= MAX_REMAINING
      modifies this`propertiesLen, head`remlen
      ensures propertiesLen == PropsLen(View()) && head.remlen == BodyLen(View())
    {
      hide SubSlots, TopicsLen, Zip, VarBytes, SlotsLen;
      var total := 2;
      var n := PropertiesLen();
      total := total + n;
      propertiesLen := total - 2;
      var b := LbEncode(propertiesLen);
      total := total + |b|;
      n := TopicsTotal();
      var ok := head.SetRemainingLength(total + n);
    }

    method PropertiesLen() returns (total: nat)
      ensures total == SlotsLen(SubSlots(Properties()))
    {
      total := 0;
      if subscriptionIdentifier > 0 && subscriptionIdentifier <= 268435455 {
        var b := LbEncode(subscriptionIdentifier);
        total := total + 1 + |b|;
      }
      var n := BuildUserPropertyLen(userProperty);
      total := total + n;
      var ss := SubSlots(Properties());
      LenOfCons(ss.head, ss.tail);
      LenOfCons(ss.tail.head, Nil);
    }

    /** The loop of build over the filters. */
    method TopicsTotal() returns (total: nat)
      requires Parallel()
      ensures total == TopicsLen(Requests())
    {
      total := 0;
      var i := 0;
      ghost var rs := Requests();
      assert rs[0..] == rs;
      while i < |topics|
        invariant i <= |topics| && total + TopicsLen(rs[i..]) == TopicsLen(rs)
      {
        assert rs[i..][1..] == rs[i + 1..];
        total := total + 2 + |topics[i]| + 1;
        i := i + 1;
      }
    }

    method Len() returns (n: nat)
      requires Parallel() && BodyLen(View()) <= MAX_REMAINING
      modifies this`propertiesLen, head`remlen
      ensures n == LenOf(View())
    {
      Build();
      n := head.Msglen() + head.remlen;
    }

    method Encode(dst: array<byte>, next: uint16) returns (total: nat, err: Option<Fault>)
      requires Valid() && BodyLen(View()) <= MAX_REMAINING
      modifies this`propertiesLen, head`remlen, head`packetId, dst
      ensures Valid() && err == EncodeRefusal(old(View()), dst.Length)
      ensures View() == old(View()) || View() == Ready(old(View()), next)
      ensures err.None? ==> View() == Ready(old(View()), next) && total == |WireOf(View())| <= dst.Length
      ensures err.None? ==> dst[..] == Splice(old(dst[..]), 0, WireOf(View()))
    {
      hide SubSlots, WireSlots, SlotsLen, VarBytes, Zip, AllSound, TopicsFit, TopicsLen, Splice, HeadBytes, TopicsBytes, RestBytes, Table, AllFit;
      Build();
      total := 0;
      if dst.Length < head.Msglen() + head.remlen {
        return 0, Some(Insufficient);
      }
      SubSlotsFacts(Properties());
      total, err := EncodeAll(dst, next, SubSlots(Properties()));
      if err.None? {
        WireParts(View());
      }
    }

    method EncodeAll(dst: array<byte>, next: uint16, ss: Slots) returns (total: nat, err: Option<Fault>)
      requires Valid() && Table(ss) && AllFit(ss) && propertiesLen == SlotsLen(ss) < VAR_LIMIT && head.remlen <= MAX_REMAINING
      requires head.Msglen() + 2 + |VarBytes(propertiesLen)| + propertiesLen + TopicsLen(Requests()) <= dst.Length
      modifies head`packetId, dst
      ensures Valid() && err == Refusal(old(View()))
      ensures head.packetId == old(head.packetId) || head.packetId == Assigned(old(head.packetId), next)
      ensures err.None? ==>
        var bytes := HeadBytes(head.mtypeflags, head.remlen) + head.packetId + RestBytes(propertiesLen, ss, []) + TopicsBytes(Requests());
        && head.packetId == Assigned(old(head.packetId), next)
        && total == |bytes| <= dst.Length && dst[..] == Splice(old(dst[..]), 0, bytes)
    {
      hide Splice, RestBytes, HeadBytes, TopicsBytes, TopicsLen, TopicsFit, AllSound, SlotsLen, WireSlots, AllFit, Table, VarBytes;
      RestLength(propertiesLen, ss, []);
      ghost var was := dst[..];
      total, err := EncodeFront(dst, next);
      if err.Some? {
        return;
      }
      ghost var out := HeadBytes(head.mtypeflags, head.remlen) + head.packetId;
      var n;
      n, err := EncodeRest(dst, total, propertiesLen, ss, []);
      SpliceTwice(was, 0, out, RestBytes(propertiesLen, ss, []));
      out := out + RestBytes(propertiesLen, ss, []);
      total := total + n;
      n, err := EncodeTopics(dst, total);
      if err.None? {
        SpliceTwice(was, 0, out, TopicsBytes(Requests()));
        total := total + n;
      }
    }

    method EncodeFront(dst: array<byte>, next: uint16) returns (total: nat, err: Option<Fault>)
      requires Valid() && head.remlen <= MAX_REMAINING && head.Msglen() + 2 <= dst.Length
      modifies head`packetId, dst
      ensures Valid() && err == if ValidType(MType(head.mtypeflags)) then None else Some(InvalidMessage)
      ensures head.packetId == if err.None? then Assigned(old(head.packetId), next) else old(head.packetId)
      ensures err.None? ==>
        var front := HeadBytes(head.mtypeflags, head.remlen) + head.packetId;
        total == |front| <= head.Msglen() + 2 && dst[..] == Splice(old(dst[..]), 0, front)
    {
      ghost var was := dst[..];
      total, err := head.Encode(dst);
      if err.Some? {
        return;
      }
      head.EnsurePacketId(next);
      Copy(dst, total, head.packetId);
      SpliceTwice(was, 0, HeadBytes(head.mtypeflags, head.remlen), head.packetId);
      total := total + |head.packetId|;
    }

    /** Each filter with its option byte. */
    method EncodeTopics(dst: array<byte>, at: nat) returns (total: nat, err: Option<Fault>)
      requires Valid() && at + TopicsLen(Requests()) <= dst.Length
      modifies dst
      ensures err == if TopicsFit(Requests()) then None else Some(TooLong)
      ensures err.None? ==> total == |TopicsBytes(Requests())| && at + total <= dst.Length
      ensures err.None? ==> dst[..] == Splice(old(dst[..]), at, TopicsBytes(Requests()))
    {
      hide Splice, TopicsBytes, TopicsLen, TopicsFit, AllSound, OptionByte;
      ghost var was, out, rs := dst[..], [], Requests();
      total, err := 0, None;
      var i := 0;
      SpliceNone(was, at);
      assert rs[0..] == rs && rs[|rs|..] == [];
      NoTopics();
      while i < |topics|
        invariant i <= |topics| && err == None && total == |out| && at + total + TopicsLen(rs[i..]) <= dst.Length
        invariant dst[..] == Splice(was, at, out)
        invariant TopicsFit(rs) <==> TopicsFit(rs[i..])
        invariant AllSound(rs[i..]) && (TopicsFit(rs) ==> out + TopicsBytes(rs[i..]) == TopicsBytes(rs))
      {
        TopicsStep(rs, i, out);
        var n;
        n, err := WriteLPBytes(dst, at + total, topics[i]);
        if err.Some? {
          return;
        }
        SpliceTwice(was, at, out, LP(topics[i]));
        total := total + n;
        var subOp := EncodeOptions(i);
        Copy(dst, at + total, [subOp]);
        SpliceTwice(was, at, out + LP(topics[i]), [subOp]);
        Associate(out, LP(topics[i]), [subOp]);
        out := out + OneTopic(rs[i]);
        total := total + 1;
        i := i + 1;
      }
      assert out + [] == out;
    }

    /** The option byte, field by field. */
    method EncodeOptions(i: nat) returns (subOp: byte)
      requires Parallel() && i < |topics| && Sound(Requests()[i])
      ensures subOp == OptionByte(Requests()[i])
      ensures And(subOp, 3) == qos[i] && Shr(And(subOp, 4), 2) == noLocal[i] && Shr(And(subOp, 8), 3) == retainAsPub[i]
      ensures Shr(And(subOp, 48), 4) == retainHandling[i] % 4 && Shr(subOp, 6) == retainHandling[i] / 4 % 4
    {
      hide Or, Shl, And, Shr;
      OptionBits(Requests()[i]);
      subOp := 0;
      OrSwap(0, qos[i]);
      OrZero(qos[i]);
      subOp := Or(subOp, qos[i]);
      JoinNoLocal(qos[i], noLocal[i]);
      subOp := Or(subOp, Shl(noLocal[i], 2) % 256);
      JoinRetainAsPub(qos[i] + 4 * noLocal[i], retainAsPub[i]);
      subOp := Or(subOp, Shl(retainAsPub[i], 3) % 256);
      JoinRetainHandling(qos[i] + 4 * noLocal[i] + 8 * retainAsPub[i], retainHandling[i]);
      subOp := Or(subOp, Shl(retainHandling[i], 4) % 256);
    }

    /** The bytes before an error stay in the buffer. */
    method EncodeToBuf(dst: Buf, next: uint16) returns (err: Option<Fault>)
      requires Valid() && BodyLen(View()) <= MAX_REMAINING
      modifies this`propertiesLen, head`remlen, head`packetId, dst
      ensures Valid() && old(dst.data) <= dst.data
      ensures err == if Refusal(old(View())) == None && !Whole(userProperty) then Some(TooLong) else Refusal(old(View()))
      ensures View() == old(View()) || View() == Ready(old(View()), next)
      ensures err.None? ==> View() == Ready(old(View()), next) && dst.data == old(dst.data) + WireOf(View())
    {
      hide SubSlots, SlotsLen, VarBytes, WireOf, Zip, AllSound, TopicsFit, TopicsLen;
      Build();
      err := EncodeBuiltToBuf(dst, next);
    }

    /** The rest of EncodeToBuf, once the lengths are known. */
    method EncodeBuiltToBuf(dst: Buf, next: uint16) returns (err: Option<Fault>)
      requires Valid() && BodyLen(View()) <= MAX_REMAINING && propertiesLen == PropsLen(View()) && head.remlen == BodyLen(View())
      modifies head`packetId, dst
      ensures Valid() && old(dst.data) <= dst.data
      ensures err == if Refusal(old(View())) == None && !Whole(userProperty) then Some(TooLong) else Refusal(old(View()))
      ensures View() == old(View()) || View() == Ready(old(View()), next)
      ensures err.None? ==> View() == Ready(old(View()), next) && dst.data == old(dst.data) + WireOf(View())
    {
      hide SubSlots, WireSlots, SlotsLen, Table, VarBytes, TopicsBytes, RestBytes, Zip, AllSound, TopicsFit, AllWhole, AllFit, TopicsLen;
      err := EncodeFrontToBuf(dst, next);
      if err.Some? {
        return;
      }
      ghost var out := HeadBytes(head.mtypeflags, head.remlen) + head.packetId;
      SubSlotsFacts(Properties());
      ghost var ss := SubSlots(Properties());
      err := EncodeRestToBuf(dst, propertiesLen, SubSlots(Properties()), []);
      if err.Some? {
        return;
      }
      Associate(old(dst.data), out, RestBytes(propertiesLen, ss, []));
      out := out + RestBytes(propertiesLen, ss, []);
      err := EncodeTopicsToBuf(dst);
      if err.None? {
        Associate(old(dst.data), out, TopicsBytes(Requests()));
        WireParts(View());
      }
    }

    method EncodeFrontToBuf(dst: Buf, next: uint16) returns (err: Option<Fault>)
      requires Valid() && head.remlen <= MAX_REMAINING
      modifies head`packetId, dst
      ensures Valid() && err == if ValidType(MType(head.mtypeflags)) then None else Some(InvalidMessage)
      ensures head.packetId == if err.None? then Assigned(old(head.packetId), next) else old(head.packetId)
      ensures dst.data == old(dst.data) + if err.None? then HeadBytes(head.mtypeflags, head.remlen) + head.packetId else []
    {
      err := head.EncodeToBuf(dst);
      if err.Some? {
        return;
      }
      head.EnsurePacketId(next);
      dst.Write(head.packetId);
      Associate(old(dst.data), HeadBytes(head.mtypeflags, head.remlen), head.packetId);
    }

    method EncodeTopicsToBuf(dst: Buf) returns (err: Option<Fault>)
      requires Valid()
      modifies dst
      ensures err == if TopicsFit(Requests()) then None else Some(TooLong)
      ensures old(dst.data) <= dst.data
      ensures err.None? ==> dst.data == old(dst.data) + TopicsBytes(Requests())
    {
      hide TopicsBytes, TopicsLen, TopicsFit, AllSound, OptionByte;
      ghost var out, rs := [], Requests();
      err := None;
      var i := 0;
      assert rs[0..] == rs && rs[|rs|..] == [];
      NoTopics();
      while i < |topics|
        invariant i <= |topics| && err == None && dst.data == old(dst.data) + out
        invariant TopicsFit(rs) <==> TopicsFit(rs[i..])
        invariant AllSound(rs[i..]) && (TopicsFit(rs) ==> out + TopicsBytes(rs[i..]) == TopicsBytes(rs))
      {
        TopicsStep(rs, i, out);
        err := dst.WriteLPBytes(topics[i]);
        if err.Some? {
          return;
        }
        Associate(old(dst.data), out, LP(topics[i]));
        var subOp := EncodeOptions(i);
        dst.WriteByte(subOp);
        Associate(old(dst.data), out + LP(topics[i]), [subOp]);
        Associate(out, LP(topics[i]), [subOp]);
        out := out + OneTopic(rs[i]);
        i := i + 1;
      }
      assert out + [] == out;
    }

    /** After an error the fields read so far are overwritten, with what is not said. */
    method Decode(src: seq<byte>) returns (total: nat, err: Option<Fault>)
      requires Valid() && MType(head.mtypeflags) == SUBSCRIBE
      modifies this, head
      ensures Parallel()
      ensures err.Some? ==> Parse(old(View()), src) == Failed(err.value)
      ensures err.None? ==> Valid() && total <= |src| && Parse(old(View()), src) == Parsed(View(), propertiesLen, src[total..])
    {
      hide Parse, Finish, ParseFront, ParseProps, AllSound, Zip;
      var hn;
      ParseIs(View(), src);
      hn, total, propertiesLen, err := DecodeFront(head, src);
      if err.None? {
        total, err := DecodeRest(src, total, head.remlen - (total - hn), Parse(old(View()), src));
      }
    }

    /** Properties and filters; left is what the remaining length leaves for them. */
    method DecodeRest(src: seq<byte>, at: nat, left: int, ghost whole: Scan) returns (total: nat, err: Option<Fault>)
      requires Valid() && |head.packetId| == 2 && at <= |src|
      requires whole == Finish(View(), propertiesLen, left - (|src| - at), ParseProps(Properties(), src[at..]))
      modifies this`subscriptionIdentifier, this`userProperty, this`topics, this`qos, this`noLocal, this`retainAsPub, this`retainHandling
      ensures Parallel() && (err.Some? ==> whole == Failed(err.value))
      ensures err.None? ==> Valid() && total <= |src| && whole == Parsed(View(), propertiesLen, src[total..])
    {
      hide Finish, ReadSlots, ReadTopics, SubSlots, WithSlots;
      var slots, n;
      slots, n, err := TakeSlots(src, at, SubSlots(Properties()));
      total := at + n;
      if err.Some? {
        FinishBad(View(), propertiesLen, left - (|src| - at), err.value);
        return;
      }
      var p := WithSlots(Properties(), slots);
      ghost var before := View();
      FinishIs(before, propertiesLen, left - (|src| - at), p, src[total..], left - n);
      subscriptionIdentifier, userProperty := p.subscriptionId, p.userProperty;
      ghost var rs;
      n, rs, err := DecodeTopics(src, total, left - n);
      total := total + n;
      if err.None? && |topics| == 0 {
        return total, Some(ProtocolError);
      }
    }

    /** The loop over the filters; rs are those it has appended. */
    method DecodeTopics(src: seq<byte>, at: nat, left: int) returns (n: nat, ghost rs: seq<Request>, err: Option<Fault>)
      requires Parallel() && AllSound(Requests()) && at <= |src|
      modifies this`topics, this`qos, this`noLocal, this`retainAsPub, this`retainHandling
      ensures Parallel() && AllSound(Requests()) && Requests() == old(Requests()) + rs
      ensures err.Some? ==> ReadTopics(src[at..], left) == BadTopics(err.value)
      ensures err.None? ==> at + n <= |src| && ReadTopics(src[at..], left) == GotTopics(rs, src[at + n..])
    {
      hide ReadTopics, ReadOne, TopicsSoFar, Zip, AllSound;
      ghost var whole := ReadTopics(src[at..], left);
      var remlen := left;
      n, rs, err := 0, [], None;
      StartTopics(src[at..], left);
      assert old(Requests()) + [] == old(Requests());
      while remlen > 0
        invariant err == None && at + n <= |src| && Parallel() && AllSound(Requests())
        invariant Requests() == old(Requests()) + rs && TopicsSoFar(whole, src[at + n..], remlen, rs)
        decreases |src| - n
      {
        var r, m;
        NextTopic(whole, src[at + n..], remlen, rs);
        r, m, err := DecodeOne(src, at + n);
        if err.Some? {
          return;
        }
        SoundAppend(Requests(), r);
        ZipAppend(topics, qos, noLocal, retainAsPub, retainHandling, r);
        topics, qos, noLocal, retainAsPub, retainHandling :=
          topics + [r.topic], qos + [r.qos], noLocal + [r.noLocal], retainAsPub + [r.retainAsPub], retainHandling + [r.retainHandling];
        assert old(Requests()) + rs + [r] == old(Requests()) + (rs + [r]);
        rs := rs + [r];
        n := n + m;
        remlen := remlen - m;
      }
      NoMoreTopics(whole, src[at + n..], remlen, rs);
    }

    /** One filter and its option byte. */
    static method DecodeOne(src: seq<byte>, at: nat) returns (r: Request, n: nat, err: Option<Fault>)
      requires at <= |src|
      ensures err.Some? ==> ReadOne(src[at..]) == BadOne(err.value)
      ensures err.None? ==> 0 < n && at + n <= |src| && ReadOne(src[at..]) == GotOne(r, src[at + n..])
    {
      var t;
      r := Request([], 0, 0, 0, 0);
      t, n, err := ReadLPBytes(src[at..]);
      if err.Some? {
        return;
      }
      DropDrop(src, at, n);
      if at + n >= |src| {
        return r, n, Some(Panic);
      }
      var o := src[at + n];
      BitFields(o);
      r := Request(t, And(o, 3), Shr(And(o, 4), 2), Shr(And(o, 8), 3), Shr(And(o, 48), 4));
      if And(o, 3) == 3 || Shr(And(o, 48), 4) == 3 || Shr(o, 6) != 0 {
        return r, n, Some(ProtocolError);
      }
      DropDrop(src, at + n, 1);
      n := n + 1;
    }
  }

  /** rs have been read and s is left. */
  ghost predicate TopicsSoFar(whole: TopicsScan, s: seq<byte>, left: int, rs: seq<Request>) {
    whole == After(rs, ReadTopics(s, left))
  }

  function After(rs: seq<Request>, t: TopicsScan): TopicsScan {
    match t
    case GotTopics(more, rest) => GotTopics(rs + more, rest)
    case BadTopics(e) => t
  }

  lemma StartTopics(s: seq<byte>, left: int)
    ensures TopicsSoFar(ReadTopics(s, left), s, left, [])
  {
  }

  lemma NextTopic(whole: TopicsScan, s: seq<byte>, left: int, rs: seq<Request>)
    requires left > 0 && TopicsSoFar(whole, s, left, rs)
    ensures var o := ReadOne(s);
      && (o.BadOne? ==> whole == BadTopics(o.fault))
      && (o.GotOne? ==> Sound(o.r) && TopicsSoFar(whole, o.rest, left - (|s| - |o.rest|), rs + [o.r]))
  {
  }

  lemma NoMoreTopics(whole: TopicsScan, s: seq<byte>, left: int, rs: seq<Request>)
    requires left <= 0 && TopicsSoFar(whole, s, left, rs)
    ensures whole == GotTopics(rs, s)
  {
  }

  lemma FinishBad(m: Msg, propsLen: nat, over: int, e: Fault)
    ensures Finish(m, propsLen, over, BadProps(e)) == Failed(e)
  {
  }

  lemma FinishIs(m: Msg, propsLen: nat, over: int, p: SubProps, s: seq<byte>, left: int)
    requires left == over + |s|
    ensures var t := ReadTopics(s, left);
      Finish(m, propsLen, over, GotProps(p, s))
        == if t.BadTopics? then Failed(t.fault)
           else if m.requests + t.requests == [] then Failed(ProtocolError)
           else Parsed(Msg(m.flags, m.packetId, p, m.requests + t.requests), propsLen, t.rest)
  {
  }

  lemma NoTopics()
    ensures TopicsBytes([]) == [] && TopicsFit([]) && TopicsLen([]) == 0
  {
  }

  lemma TopicsStep(rs: seq<Request>, i: nat, out: seq<byte>)
    requires i < |rs| && AllSound(rs[i..])
    ensures AllSound(rs[i + 1..]) && Sound(rs[i])
    ensures TopicsLen(rs[i..]) == 3 + |rs[i].topic| + TopicsLen(rs[i + 1..])
    ensures TopicsFit(rs[i..]) <==> |rs[i].topic| <= MAX_LP && TopicsFit(rs[i + 1..])
    ensures TopicsFit(rs[i..]) ==> out + TopicsBytes(rs[i..]) == (out + OneTopic(rs[i])) + TopicsBytes(rs[i + 1..])
  {
  }

  lemma WireParts(m: Msg)
    requires TopicsFit(m.requests) && AllFit(SubSlots(m.props))
    ensures WireOf(m) == HeadBytes(m.flags, BodyLen(m)) + m.packetId
      + RestBytes(PropsLen(m), SubSlots(m.props), []) + TopicsBytes(m.requests)
  {
  }

  lemma {:induction false} SoundAppend(rs: seq<Request>, r: Request)
    requires AllSound(rs) && Sound(r)
    ensures AllSound(rs + [r])
    decreases |rs|
  {
    if rs != [] {
      SoundAppend(rs[1..], r);
      assert (rs + [r])[1..] == rs[1..] + [r];
    }
  }

  lemma {:induction false} SoundUpdate(rs: seq<Request>, i: nat, q: byte)
    requires AllSound(rs) && i < |rs| && q < 3
    ensures AllSound(rs[i := rs[i].(qos := q)])
    decreases |rs|
  {
    var u := rs[i := rs[i].(qos := q)];
    if i == 0 {
      assert u[1..] == rs[1..];
    } else {
      SoundUpdate(rs[1..], i - 1, q);
      assert u[1..] == rs[1..][i - 1 := rs[1..][i - 1].(qos := q)];
    }
  }
}
