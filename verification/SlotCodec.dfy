/** Writing and reading one property, the step that PUBLISH, SUBSCRIBE and SUBACK repeat for
    each of theirs, against the definitions of Props. Arrays stand for the byte slices the
    encoders fill in place, Buf for bytes.Buffer. */
module SlotCodec {
  import opened Common
  import opened Bits
  import opened VarInt
  import opened Props
  import opened Wire

  predicate SlotWhole(slot: Slot) {
    slot.value.Pairs? ==> Whole(slot.value.ps)
  }

  /** Four groups of seven bits are enough for what is written. */
  predicate Sane(v: Value) {
    v.Var? ==> v.limit <= VAR_LIMIT
  }

  class Buf {
    var data: seq<byte>

    constructor ()
      ensures data == []
    {
      data := [];
    }

    method WriteByte(b: byte)
      modifies this
      ensures data == old(data) + [b]
    {
      data := data + [b];
    }

    method Write(p: seq<byte>)
      modifies this
      ensures data == old(data) + p
    {
      data := data + p;
    }

    /** BigEndianPutUvarint */
    method PutUvarint(x: nat) returns (n: nat)
      modifies this
      ensures data == old(data) + VarBytes(x) && n == |VarBytes(x)|
    {
      var i, left := 0, x;
      ghost var done: seq<byte> := [];
      assert [] + VarBytes(x) == VarBytes(x);
      while left >= 0x80
        invariant done + VarBytes(left) == VarBytes(x) && data == old(data) + done && i == |done|
        decreases left
      {
        LowByte(left);
        Group(done, left, x);
        WriteByte(Or(left % 256, 0x80));
        done := done + [left % 128 + 128];
        left := left / 128;
        i := i + 1;
      }
      Group(done, left, x);
      WriteByte(left % 256);
      n := i + 1;
    }

    /** writeToBufLPBytes */
    method WriteLPBytes(b: seq<byte>) returns (err: Option<Fault>)
      modifies this
      ensures err == if |b| > MAX_LP then Some(TooLong) else None
      ensures data == old(data) + if err.None? then LP(b) else []
    {
      if |b| > MAX_LP {
        return Some(TooLong);
      }
      WriteByte(|b| / 256 % 256);
      WriteByte(|b| % 256);
      Write(b);
      return None;
    }

    /** BigEndianPutUint16 */
    method PutUint16(v: uint16)
      modifies this
      ensures data == old(data) + Big16(v)
    {
      WriteByte(v / 256 % 256);
      WriteByte(v % 256);
    }

    /** BigEndianPutUint32 */
    method PutUint32(v: uint32)
      modifies this
      ensures data == old(data) + Big32(v)
    {
      FourBytes(v);
      WriteByte(v / 16777216 % 256);
      WriteByte(v / 65536 % 256);
      WriteByte(v / 256 % 256);
      WriteByte(v % 256);
    }

    method WriteString(b: seq<byte>) returns (err: Option<Fault>)
      modifies this
      ensures err == if |b| > MAX_LP then Some(TooLong) else None
      ensures data == old(data) + if err.None? then LP(b) else []
    {
      if |b| == 0 {
        WriteByte(0);
        WriteByte(0);
        return None;
      }
      err := WriteLPBytes(b);
    }

    /** writeUserPropertyByBuf */
    method WriteUserProperty(ps: seq<seq<byte>>) returns (err: Option<Fault>)
      modifies this
      ensures err == if Whole(ps) then None else Some(TooLong)
      ensures data == old(data) + PairsBytes(ps)
    {
      var i := 0;
      err := None;
      ghost var out: seq<byte> := [];
      assert ps[0..] == ps && [] + PairsBytes(ps) == PairsBytes(ps);
      while i < |ps|
        invariant i <= |ps| + 1 && err == None && data == old(data) + out
        invariant i <= |ps| ==> out + PairsBytes(ps[i..]) == PairsBytes(ps) && (Whole(ps) <==> Whole(ps[i..]))
        invariant i > |ps| ==> out == PairsBytes(ps) && Whole(ps)
      {
        PairsStep(ps, i, out);
        err := WritePair(ps, i);
        Associate(old(data), out, OnePair(ps[i..]));
        out := out + OnePair(ps[i..]);
        if err.Some? {
          return;
        }
        i := i + 2;
      }
    }

    method WritePair(ps: seq<seq<byte>>, i: nat) returns (err: Option<Fault>)
      requires i < |ps|
      modifies this
      ensures err == if PairFits(ps[i..]) then None else Some(TooLong)
      ensures data == old(data) + OnePair(ps[i..])
    {
      WriteByte(USER_PROPERTY);
      err := WriteString(ps[i]);
      if err.Some? {
        return;
      }
      Associate(old(data), [USER_PROPERTY], LP(ps[i]));
      var v := if i == |ps| - 1 then [] else ps[i + 1];
      err := WriteString(v);
      if err.None? {
        Associate(old(data), [USER_PROPERTY] + LP(ps[i]), LP(v));
      }
    }

    /** A property of a packet: nothing when it is not set. */
    method PutSlot(slot: Slot) returns (err: Option<Fault>)
      requires Sane(slot.value)
      modifies this
      ensures err == if Fits(slot.value) && SlotWhole(slot) then None else Some(TooLong)
      ensures old(data) <= data
      ensures Fits(slot.value) ==> data == old(data) + SlotBytes(slot)
    {
      if !Present(slot.value) {
        return None;
      }
      if slot.value.Pairs? {
        err := WriteUserProperty(slot.value.ps);
        return;
      }
      WriteByte(slot.id);
      err := PutValue(slot.value);
      if Fits(slot.value) {
        Associate(old(data), [slot.id], ValueBytes(slot.value));
      }
    }

    /** The properties of a packet, one after the other. */
    method PutSlots(ss: Slots) returns (err: Option<Fault>)
      requires Table(ss)
      modifies this
      ensures err == if AllFit(ss) && AllWhole(ss) then None else Some(TooLong)
      ensures old(data) <= data
      ensures err.None? ==> data == old(data) + WireSlots(ss)
      decreases ss
    {
      err := None;
      if ss.Cons? {
        err := PutSlot(ss.head);
        if err.Some? {
          return;
        }
        err := PutSlots(ss.tail);
        if err.None? {
          Associate(old(data), SlotBytes(ss.head), WireSlots(ss.tail));
        }
      }
    }

    method PutValue(v: Value) returns (err: Option<Fault>)
      requires !v.Pairs? && Present(v) && Sane(v)
      modifies this
      ensures err == if Fits(v) then None else Some(TooLong)
      ensures old(data) <= data
      ensures Fits(v) ==> data == old(data) + ValueBytes(v)
    {
      err := None;
      match v {
        case Byte1(b) => WriteByte(b);
        case Int16(w) => PutUint16(w);
        case Int32(d) => PutUint32(d);
        case Var(n, _) =>
          var b := LbEncode(n);
          Write(b);
        case Text(s) => err := WriteLPBytes(s);
        case Pairs(_) =>
      }
    }
  }

  lemma LowByte(x: nat)
    ensures Or(x % 256, 128) == x % 128 + 128
  {
    var r := x % 256;
    DivModUnique(x, 128, 2 * (x / 256) + r / 128, r % 128);
    MarkedByte(r % 128, r);
  }

  lemma MarkedByte(l: nat, r: nat)
    requires l < 128 && (r == l || r == l + 128)
    ensures Or(r, 128) == l + 128
  {
    assert Shl(1, 7) == 128 && Pow2(7) == 128;
    OrAbove(l, 1, 7);
    OrTwice(l, 128);
  }

  lemma {:induction false} OrTwice(a: nat, b: nat)
    ensures Or(Or(a, b), b) == Or(a, b)
    decreases a + b
  {
    if a + b > 0 { OrTwice(a / 2, b / 2); }
  }

  lemma FourBytes(v: uint32)
    ensures Big32(v) == [v / 16777216 % 256, v / 65536 % 256, v / 256 % 256, v % 256]
  {
    var h, l := v / 65536, v % 65536;
    var a, b, c, d := h / 256, h % 256, l / 256, l % 256;
    DivModUnique(v, 16777216, a, 65536 * b + 256 * c + d);
    DivModUnique(v, 256, 256 * h + c, d);
    DivModUnique(256 * h + c, 256, h, c);
  }

  // ----- slices -----

  /** A property written into dst from position at on: nothing when it is not set. A user
      property that is too long is cut off without an error. */
  method PutSlot(dst: array<byte>, at: nat, slot: Slot) returns (n: nat, err: Option<Fault>)
    requires Sane(slot.value) && at + SlotLen(slot) <= dst.Length
    modifies dst
    ensures err == if Fits(slot.value) then None else Some(TooLong)
    ensures err.None? ==> n == |SlotBytes(slot)| <= SlotLen(slot) && dst[..] == Splice(old(dst[..]), at, SlotBytes(slot))
  {
    ghost var was := dst[..];
    n, err := 0, None;
    if !Present(slot.value) {
      SpliceNone(was, at);
      return;
    }
    if slot.value.Pairs? {
      var e;
      n, e := WriteUserProperty(dst, at, slot.value.ps);
      return;
    }
    Copy(dst, at, [slot.id]);
    var m;
    m, err := PutValue(dst, at + 1, slot.value);
    if err.None? {
      SpliceTwice(was, at, [slot.id], ValueBytes(slot.value));
      n := 1 + m;
    }
  }

  /** The properties of a packet, one after the other. */
  method PutSlots(dst: array<byte>, at: nat, ss: Slots) returns (n: nat, err: Option<Fault>)
    requires Table(ss) && at + SlotsLen(ss) <= dst.Length
    modifies dst
    ensures err == if AllFit(ss) then None else Some(TooLong)
    ensures err.None? ==> n == |WireSlots(ss)| <= SlotsLen(ss) && dst[..] == Splice(old(dst[..]), at, WireSlots(ss))
    decreases ss
  {
    hide Splice;
    ghost var was := dst[..];
    n, err := 0, None;
    if ss.Nil? {
      SpliceNone(was, at);
      return;
    }
    n, err := PutSlot(dst, at, ss.head);
    if err.Some? {
      return;
    }
    var m;
    m, err := PutSlots(dst, at + n, ss.tail);
    if err.None? {
      SpliceTwice(was, at, SlotBytes(ss.head), WireSlots(ss.tail));
      n := n + m;
    }
  }

  method PutValue(dst: array<byte>, at: nat, v: Value) returns (n: nat, err: Option<Fault>)
    requires !v.Pairs? && Present(v) && Sane(v) && at + SlotLen(Slot(0, true, true, true, v)) - 1 <= dst.Length
    modifies dst
    ensures err == if Fits(v) then None else Some(TooLong)
    ensures Fits(v) ==> n == |ValueBytes(v)| && dst[..] == Splice(old(dst[..]), at, ValueBytes(v))
  {
    n, err := 0, None;
    match v {
      case Byte1(b) =>
        Copy(dst, at, [b]);
        n := 1;
      case Int16(w) =>
        Copy(dst, at, Big16(w));
        n := 2;
      case Int32(d) =>
        Copy(dst, at, Big32(d));
        n := 4;
      case Var(x, _) =>
        var b := LbEncode(x);
        Copy(dst, at, b);
        n := |b|;
      case Text(s) =>
        n, err := WriteLPBytes(dst, at, s);
      case Pairs(_) =>
    }
  }

  /** A property read from src[at..], or the value it had when it is not there. */
  method TakeSlot(src: seq<byte>, at: nat, slot: Slot) returns (v: Value, n: nat, err: Option<Fault>)
    requires at <= |src|
    ensures err.Some? ==> ReadSlot(slot, src[at..]) == Fail(err.value)
    ensures err.None? ==> at + n <= |src| && ReadSlot(slot, src[at..]) == Took(v, src[at + n..])
  {
    v, n, err := slot.value, 0, None;
    if slot.value.Pairs? {
      var ps;
      ps, n, err := DecodeUserProperty(src[at..]);
      if err.None? { DropDrop(src, at, n); }
      return Pairs(ps), n, err;
    }
    if at < |src| && src[at] == slot.id {
      DropDrop(src, at, 1);
      v, n, err := TakeValue(src[at + 1..], slot.value);
      if err.Some? {
        return v, n, Some(if slot.wrap && err.value != Panic then ProtocolError else err.value);
      }
      DropDrop(src, at + 1, n);
      n := n + 1;
      if !slot.zeroOk && Zero(v) {
        return v, n, Some(ProtocolError);
      }
      if at + n == |src| && !slot.guarded {
        return v, n, Some(Panic);
      }
      if at + n < |src| && src[at + n] == slot.id {
        return v, n, Some(ProtocolError);
      }
    }
  }

  /** The properties of a packet, one after the other. */
  method TakeSlots(src: seq<byte>, at: nat, ss: Slots) returns (tt: Slots, n: nat, err: Option<Fault>)
    requires at <= |src|
    ensures err.Some? ==> ReadSlots(ss, src[at..]) == FailAll(err.value)
    ensures err.None? ==> at + n <= |src| && ReadSlots(ss, src[at..]) == TookAll(tt, src[at + n..])
    decreases ss
  {
    tt, n, err := ss, 0, None;
    if ss.Cons? {
      var v;
      v, n, err := TakeSlot(src, at, ss.head);
      if err.Some? {
        return;
      }
      var more, m;
      more, m, err := TakeSlots(src, at + n, ss.tail);
      SlotsRead(ss, src[at..], v, src[at + n..]);
      tt, n := Cons(ss.head.(value := v), more), n + m;
    }
  }

  lemma SlotsRead(ss: Slots, s: seq<byte>, v: Value, s1: seq<byte>)
    requires ss.Cons? && ReadSlot(ss.head, s) == Took(v, s1)
    ensures var r := ReadSlots(ss.tail, s1);
      ReadSlots(ss, s) == if r.FailAll? then r else TookAll(Cons(ss.head.(value := v), r.slots), r.rest)
  {
  }

  method TakeValue(src: seq<byte>, was: Value) returns (v: Value, n: nat, err: Option<Fault>)
    requires !was.Pairs?
    ensures err.Some? ==> ReadValue(was, src) == Fail(err.value)
    ensures err.None? ==> n <= |src| && ReadValue(was, src) == Took(v, src[n..])
  {
    match was {
      case Var(_, limit) =>
        v, n, err := TakeVar(src, limit);
      case Text(_) =>
        var b;
        b, n, err := ReadLPBytes(src);
        v := Text(b);
      case _ =>
        v, n, err := TakeNumber(src, was);
    }
  }

  method TakeVar(src: seq<byte>, limit: nat) returns (v: Value, n: nat, err: Option<Fault>)
    ensures err.Some? ==> LbParse(src) == Bad(err.value)
    ensures err.None? ==> n <= |src| && v.Var? && v.limit == limit && LbParse(src) == Got(v.n, src[n..])
  {
    var x;
    x, n, err := LbDecode(src);
    v := Var(x, limit);
  }

  /** A big-endian number of the width of the field it goes to. */
  method TakeNumber(src: seq<byte>, was: Value) returns (v: Value, n: nat, err: Option<Fault>)
    requires was.Byte1? || was.Int16? || was.Int32?
    ensures err.Some? ==> ReadValue(was, src) == Fail(err.value)
    ensures err.None? ==> n <= |src| && ReadValue(was, src) == Took(v, src[n..])
  {
    v, n, err := was, 0, None;
    if |src| < (if was.Byte1? then 1 else if was.Int16? then 2 else 4) {
      return v, n, Some(Panic);
    }
    match was {
      case Byte1(_) => v, n := Byte1(src[0]), 1;
      case Int16(_) => v, n := Int16(Num16(src[0], src[1])), 2;
      case _ => v, n := Int32(Num32(src[0], src[1], src[2], src[3])), 4;
    }
  }

  // ----- property length, properties, payload -----

  function RestBytes(propsLen: nat, ss: Slots, payload: seq<byte>): seq<byte>
    requires AllFit(ss)
  {
    VarBytes(propsLen) + WireSlots(ss) + payload
  }

  lemma RestLength(propsLen: nat, ss: Slots, payload: seq<byte>)
    requires AllFit(ss)
    ensures |RestBytes(propsLen, ss, payload)| <= |VarBytes(propsLen)| + SlotsLen(ss) + |payload|
  {
    SlotsLength(ss);
  }

  method EncodeRest(dst: array<byte>, at: nat, propsLen: nat, ss: Slots, payload: seq<byte>) returns (total: nat, err: Option<Fault>)
    requires Table(ss) && propsLen == SlotsLen(ss) < VAR_LIMIT
    requires at + |VarBytes(propsLen)| + propsLen + |payload| <= dst.Length
    modifies dst
    ensures err == if AllFit(ss) then None else Some(TooLong)
    ensures err.None? ==> total == |RestBytes(propsLen, ss, payload)| && at + total <= dst.Length
    ensures err.None? ==> dst[..] == Splice(old(dst[..]), at, RestBytes(propsLen, ss, payload))
  {
    hide Splice, SlotsLen, WireSlots, AllFit, Table;
    ghost var was := dst[..];
    var b := LbEncode(propsLen);
    Copy(dst, at, b);
    total := |b|;
    var n;
    n, err := PutSlots(dst, at + total, ss);
    if err.Some? {
      return;
    }
    SpliceTwice(was, at, b, WireSlots(ss));
    total := total + n;
    Copy(dst, at + total, payload);
    SpliceTwice(was, at, b + WireSlots(ss), payload);
    total := total + |payload|;
  }

  method EncodeRestToBuf(dst: Buf, propsLen: nat, ss: Slots, payload: seq<byte>) returns (err: Option<Fault>)
    requires Table(ss) && propsLen == SlotsLen(ss) < VAR_LIMIT
    modifies dst
    ensures err == if AllFit(ss) && AllWhole(ss) then None else Some(TooLong)
    ensures old(dst.data) <= dst.data
    ensures err.None? ==> dst.data == old(dst.data) + RestBytes(propsLen, ss, payload)
  {
    var b := LbEncode(propsLen);
    dst.Write(b);
    err := dst.PutSlots(ss);
    if err.Some? {
      return;
    }
    Associate(old(dst.data), b, WireSlots(ss));
    dst.Write(payload);
    Associate(old(dst.data), b + WireSlots(ss), payload);
  }
}
