/** The property sections of MQTT packets, as the codec treats them: a fixed list of slots,
    each written when its field is set and read when its identifier is the next byte. The
    decoder does not use the property length to find the end of the section, so what comes
    right behind it matters; SlotsRoundTrip says exactly how. */
module Props {
  import opened Common
  import opened VarInt

  const USER_PROPERTY: byte := 0x26
  const MAX_LP := 65535

  datatype Value =
    | Byte1(b: byte)
    | Int16(w: uint16)
    | Int32(d: uint32)
    | Var(n: nat, limit: nat)  // written when 0 < n < limit
    | Text(s: seq<byte>)
    | Pairs(ps: seq<seq<byte>>)

  /** zeroOk: an explicit zero or empty value is accepted. guarded: the check for a second
      occurrence looks whether there is a next byte. wrap: read errors become ProtocolError. */
  datatype Slot = Slot(id: byte, zeroOk: bool, guarded: bool, wrap: bool, value: Value)

  datatype Slots = Nil | Cons(head: Slot, tail: Slots)

  // ----- writing -----

  function Big16(w: uint16): seq<byte> {
    [w / 256, w % 256]
  }

  function Big32(d: uint32): seq<byte> {
    Big16(d / 65536) + Big16(d % 65536)
  }

  /** Length-prefixed bytes. */
  function LP(b: seq<byte>): seq<byte>
    requires |b| <= MAX_LP
  {
    Big16(|b|) + b
  }

  predicate Present(v: Value) {
    match v
    case Byte1(b) => b != 0
    case Int16(w) => w != 0
    case Int32(d) => d != 0
    case Var(n, limit) => 0 < n < limit
    case Text(s) => s != []
    case Pairs(ps) => ps != []
  }

  /** A text is not too long for its prefix; otherwise the encoders give up. (For a user property
      that is too long only EncodeToBuf does: see PairsBytes.) */
  predicate Fits(v: Value) {
    v.Text? ==> |v.s| <= MAX_LP
  }

  /** A last name without a value gets an empty one; writing stops at a string that is too long. */
  function PairsBytes(ps: seq<seq<byte>>): seq<byte> {
    if ps == [] then []
    else if |ps[0]| > MAX_LP then [USER_PROPERTY]
    else if |ps| == 1 then Pair(ps[0], [])
    else if |ps[1]| > MAX_LP then [USER_PROPERTY] + LP(ps[0])
    else Pair(ps[0], ps[1]) + PairsBytes(ps[2..])
  }

  function Pair(k: seq<byte>, v: seq<byte>): seq<byte>
    requires |k| <= MAX_LP && |v| <= MAX_LP
  {
    [USER_PROPERTY] + LP(k) + LP(v)
  }

  function ValueBytes(v: Value): seq<byte>
    requires Fits(v)
  {
    match v
    case Byte1(b) => [b]
    case Int16(w) => Big16(w)
    case Int32(d) => Big32(d)
    case Var(n, _) => VarBytes(n)
    case Text(s) => LP(s)
    case Pairs(ps) => []
  }

  function SlotBytes(slot: Slot): seq<byte>
    requires Fits(slot.value)
  {
    if !Present(slot.value) then []
    else if slot.value.Pairs? then PairsBytes(slot.value.ps)
    else [slot.id] + ValueBytes(slot.value)
  }

  predicate AllFit(ss: Slots) {
    ss.Nil? || (Fits(ss.head.value) && AllFit(ss.tail))
  }

  function WireSlots(ss: Slots): seq<byte>
    requires AllFit(ss)
  {
    if ss.Nil? then [] else SlotBytes(ss.head) + WireSlots(ss.tail)
  }

  // ----- reading -----

  datatype Took = Took(value: Value, rest: seq<byte>) | Fail(fault: Fault)

  datatype TookAll = TookAll(slots: Slots, rest: seq<byte>) | FailAll(fault: Fault)

  predicate Starts(s: seq<byte>, id: byte) {
    s != [] && s[0] == id
  }

  function Num16(hi: byte, lo: byte): uint16 {
    256 * hi + lo
  }

  function Num32(a: byte, b: byte, c: byte, d: byte): uint32 {
    65536 * Num16(a, b) + Num16(c, d)
  }

  /** One string, or a list of them, and the bytes behind. */
  datatype Piece = Piece(b: seq<byte>, rest: seq<byte>) | NoPiece(fault: Fault)
  datatype Strings = Strings(ps: seq<seq<byte>>, rest: seq<byte>) | NoStrings(fault: Fault)

  /** readLPBytes. A prefix larger than what follows by one or two bytes gets past its test and
      slices beyond the buffer. */
  function ReadLP(s: seq<byte>): Piece {
    if |s| < 2 then NoPiece(InvalidMessage)
    else
      var n := Num16(s[0], s[1]);
      if |s| < n then NoPiece(InvalidMessage)
      else if |s| < 2 + n then NoPiece(Panic)
      else Piece(s[2..2 + n], s[2 + n..])
  }

  /** decodeUserProperty */
  function ReadPairs(s: seq<byte>): (r: Strings)
    ensures r.Strings? ==> |r.rest| <= |s|
    decreases |s|
  {
    if !Starts(s, USER_PROPERTY) then Strings([], s)
    else match ReadTwo(s[1..])
      case NoStrings(e) => NoStrings(e)
      case Strings(kv, rest) => Before(kv, ReadPairs(rest))
  }

  function ReadTwo(s: seq<byte>): (r: Strings)
    ensures r.Strings? ==> |r.rest| < |s| && |r.ps| == 2 && Whole(r.ps)
  {
    match ReadLP(s)
    case NoPiece(e) => NoStrings(e)
    case Piece(k, s1) =>
      match ReadLP(s1)
      case NoPiece(e) => NoStrings(e)
      case Piece(v, s2) => Strings([k, v], s2)
  }

  /** A list read before more of the section. */
  function Before(ps: seq<seq<byte>>, r: Strings): Strings {
    match r
    case Strings(more, rest) => Strings(ps + more, rest)
    case NoStrings(e) => r
  }

  /** The value behind an identifier; `was` gives its kind. */
  function ReadValue(was: Value, s: seq<byte>): (r: Took)
    ensures r.Took? ==> |r.rest| <= |s|
  {
    match was
    case Byte1(_) => if |s| < 1 then Fail(Panic) else Took(Byte1(s[0]), s[1..])
    case Int16(_) => if |s| < 2 then Fail(Panic) else Took(Int16(Num16(s[0], s[1])), s[2..])
    case Int32(_) =>
      if |s| < 4 then Fail(Panic)
      else Took(Int32(Num32(s[0], s[1], s[2], s[3])), s[4..])
    case Var(_, limit) =>
      (match LbParse(s)
       case Got(n, rest) => Took(Var(n, limit), rest)
       case Bad(e) => Fail(e))
    case Text(_) =>
      (match ReadLP(s)
       case Piece(b, rest) => Took(Text(b), rest)
       case NoPiece(e) => Fail(e))
    case Pairs(_) => Took(Pairs([]), s)
  }

  predicate Zero(v: Value) {
    match v
    case Byte1(b) => b == 0
    case Int16(w) => w == 0
    case Int32(d) => d == 0
    case Var(n, _) => n == 0
    case Text(s) => s == []
    case Pairs(ps) => ps == []
  }

  /** One slot: user properties are always reassigned, the others only when they are there. */
  function ReadSlot(slot: Slot, s: seq<byte>): (r: Took)
    ensures r.Took? ==> |r.rest| <= |s| && (Starts(s, slot.id) && !slot.value.Pairs? ==> |r.rest| < |s|)
  {
    if slot.value.Pairs? then
      match ReadPairs(s)
      case Strings(ps, rest) => Took(Pairs(ps), rest)
      case NoStrings(e) => Fail(e)
    else if !Starts(s, slot.id) then Took(slot.value, s)
    else match ReadValue(slot.value, s[1..])
      case Fail(e) => Fail(if slot.wrap && e != Panic then ProtocolError else e)
      case Took(v, rest) =>
        if !slot.zeroOk && Zero(v) then Fail(ProtocolError)
        else if rest == [] && !slot.guarded then Fail(Panic)
        else if Starts(rest, slot.id) then Fail(ProtocolError)
        else Took(v, rest)
  }

  function ReadSlots(ss: Slots, s: seq<byte>): (r: TookAll)
    ensures r.TookAll? ==> |r.rest| <= |s|
    decreases ss
  {
    match ss
    case Nil => TookAll(Nil, s)
    case Cons(slot, more) =>
      match ReadSlot(slot, s)
      case Fail(e) => FailAll(e)
      case Took(v, s1) =>
        match ReadSlots(more, s1)
        case FailAll(e) => FailAll(e)
        case TookAll(vs, s2) => TookAll(Cons(slot.(value := v), vs), s2)
  }

  predicate SameKind(v: Value, w: Value) {
    match v
    case Byte1(_) => w.Byte1?
    case Int16(_) => w.Int16?
    case Int32(_) => w.Int32?
    case Var(_, limit) => w.Var? && w.limit == limit
    case Text(_) => w.Text?
    case Pairs(_) => w.Pairs?
  }

  /** The same slots, perhaps with other values. */
  predicate SameShape(ss: Slots, tt: Slots) {
    match ss
    case Nil => tt.Nil?
    case Cons(h, t) => tt.Cons? && h == tt.head.(value := h.value) && SameKind(h.value, tt.head.value) && SameShape(t, tt.tail)
  }

  lemma {:induction false} ShapeKept(ss: Slots, s: seq<byte>)
    ensures ReadSlots(ss, s).TookAll? ==> SameShape(ReadSlots(ss, s).slots, ss)
    decreases ss
  {
    if ss.Cons? {
      var r := ReadSlot(ss.head, s);
      if r.Took? {
        KindKept(ss.head, s);
        ShapeKept(ss.tail, r.rest);
      }
    }
  }

  lemma KindKept(slot: Slot, s: seq<byte>)
    ensures ReadSlot(slot, s).Took? ==> SameKind(ReadSlot(slot, s).value, slot.value)
  {
  }

  // ----- round trip -----

  function BlankValue(v: Value): Value {
    match v
    case Byte1(_) => Byte1(0)
    case Int16(_) => Int16(0)
    case Int32(_) => Int32(0)
    case Var(_, limit) => Var(0, limit)
    case Text(_) => Text([])
    case Pairs(_) => Pairs([])
  }

  function Blank(ss: Slots): Slots {
    if ss.Nil? then Nil else Cons(ss.head.(value := BlankValue(ss.head.value)), Blank(ss.tail))
  }

  /** The value can be read back at all: not a variable integer the encoder leaves out, no user
      property without a value or too long. */
  predicate Faithful(v: Value) {
    match v
    case Var(n, limit) => n == 0 || n < limit
    case Pairs(ps) => |ps| % 2 == 0 && Whole(ps)
    case _ => true
  }

  predicate Whole(ps: seq<seq<byte>>) {
    forall i :: 0 <= i < |ps| ==> |ps[i]| <= MAX_LP
  }

  predicate AllFaithful(ss: Slots) {
    ss.Nil? || (Faithful(ss.head.value) && AllFaithful(ss.tail))
  }

  /** Nothing behind a slot is taken for another occurrence of it. */
  predicate Clear(ss: Slots, rest: seq<byte>)
    requires AllFit(ss)
  {
    ss.Nil? || (SlotClear(ss.head, WireSlots(ss.tail) + rest) && Clear(ss.tail, rest))
  }

  predicate SlotClear(slot: Slot, next: seq<byte>) {
    && !Starts(next, slot.id)
    && (next == [] && Present(slot.value) && !slot.value.Pairs? ==> slot.guarded)
  }

  function Ids(ss: Slots): set<byte> {
    if ss.Nil? then {} else {ss.head.id} + Ids(ss.tail)
  }

  /** What holds of the slot lists of the three packets: no identifier twice. */
  predicate Table(ss: Slots) {
    ss.Nil? ||
    (&& ss.head.id !in Ids(ss.tail) && Table(ss.tail)
     && (ss.head.value.Pairs? ==> ss.head.id == USER_PROPERTY)
     && (ss.head.value.Var? ==> ss.head.value.limit <= VAR_LIMIT))
  }

  lemma LPReads(b: seq<byte>, rest: seq<byte>)
    requires |b| <= MAX_LP
    ensures ReadLP(LP(b) + rest) == Piece(b, rest)
  {
  }

  /** `was` only says what kind of value is read. */
  lemma ValueReads(was: Value, v: Value, rest: seq<byte>)
    requires Fits(v) && Present(v) && !v.Pairs? && (v.Var? ==> v.limit <= VAR_LIMIT) && SameKind(was, v)
    ensures ReadValue(was, ValueBytes(v) + rest) == Took(v, rest)
  {
    var s := ValueBytes(v) + rest;
    match v
    case Byte1(_) => assert s[1..] == rest;
    case Int16(_) => assert s[2..] == rest;
    case Int32(_) => assert s[4..] == rest;
    case Var(n, _) => LbRoundTrip(n, rest);
    case Text(b) => LPReads(b, rest);
  }

  lemma {:induction false} PairsRead(ps: seq<seq<byte>>, next: seq<byte>)
    requires |ps| % 2 == 0 && Whole(ps)
    ensures ReadPairs(PairsBytes(ps) + next) == Before(ps, ReadPairs(next))
    decreases |ps|
  {
    if ps == [] {
      assert [] + next == next;
      BeforeTwice([], [], ReadPairs(next));
    } else {
      PairsRead(ps[2..], next);
      assert Pair(ps[0], ps[1]) + (PairsBytes(ps[2..]) + next) == PairsBytes(ps) + next;
      OnePairRead(ps[0], ps[1], PairsBytes(ps[2..]) + next);
      FirstPair(ps, ReadPairs(next));
    }
  }

  lemma FirstPair(ps: seq<seq<byte>>, r: Strings)
    requires |ps| >= 2
    ensures Before([ps[0], ps[1]], Before(ps[2..], r)) == Before(ps, r)
  {
  }

  lemma BeforeTwice(a: seq<seq<byte>>, b: seq<seq<byte>>, r: Strings)
    ensures Before(a, Before(b, r)) == Before(a + b, r)
    ensures Before([], r) == r
  {
  }

  lemma OnePairRead(k: seq<byte>, v: seq<byte>, next: seq<byte>)
    requires |k| <= MAX_LP && |v| <= MAX_LP
    ensures ReadPairs(Pair(k, v) + next) == Before([k, v], ReadPairs(next))
  {
    var s := Pair(k, v) + next;
    assert s[1..] == LP(k) + (LP(v) + next);
    LPReads(k, LP(v) + next);
    LPReads(v, next);
  }

  /** Whatever was read has an even number of strings, none too long, and is not empty if there
      was an identifier. */
  lemma {:induction false} PairsShape(s: seq<byte>)
    ensures Shaped(ReadPairs(s))
    ensures ReadPairs(s).Strings? ==> (Starts(s, USER_PROPERTY) <==> ReadPairs(s).ps != [])
    decreases |s|
  {
    if Starts(s, USER_PROPERTY) {
      var kv := ReadTwo(s[1..]);
      if kv.Strings? {
        PairsShape(kv.rest);
        ShapedAfter(kv.ps, ReadPairs(kv.rest));
      }
    }
  }

  predicate Shaped(r: Strings) {
    r.Strings? ==> |r.ps| % 2 == 0 && Whole(r.ps)
  }

  lemma ShapedAfter(kv: seq<seq<byte>>, r: Strings)
    requires |kv| == 2 && Whole(kv) && Shaped(r)
    ensures Shaped(Before(kv, r)) && (r.Strings? ==> Before(kv, r).ps != [])
  {
  }

  /** User properties come back exactly if none lacks its value or is too long and no other one follows. */
  lemma PairsBack(ps: seq<seq<byte>>, next: seq<byte>)
    ensures ReadPairs(PairsBytes(ps) + next) == Strings(ps, next)
      <==> |ps| % 2 == 0 && Whole(ps) && !Starts(next, USER_PROPERTY)
    ensures var r := ReadPairs(PairsBytes(ps) + next);
      r.Strings? && r.ps == ps ==> r.rest == next
  {
    PairsShape(PairsBytes(ps) + next);
    if |ps| % 2 == 0 && Whole(ps) {
      PairsRead(ps, next);
      PairsShape(next);
      assert ps + [] == ps;
    }
  }

  /** What a decoder that holds `was` makes of a slot that was written before next. */
  function Reread(was: Value, slot: Slot, next: seq<byte>): Took
    requires Fits(slot.value)
  {
    ReadSlot(slot.(value := was), SlotBytes(slot) + next)
  }

  /** What a decoder that holds `was` makes of v: what is not written stays as it was. User
      properties are always assigned. */
  function MergeValue(was: Value, v: Value): Value {
    if v.Pairs? || Present(v) then v else was
  }

  function MergeSlots(was: Slots, ss: Slots): Slots
    requires SameShape(was, ss)
  {
    if ss.Nil? then Nil
    else Cons(ss.head.(value := MergeValue(was.head.value, ss.head.value)), MergeSlots(was.tail, ss.tail))
  }

  /** No user property lacks its value or is too long. */
  predicate Paired(v: Value) {
    v.Pairs? ==> |v.ps| % 2 == 0 && Whole(v.ps)
  }

  predicate AllPaired(ss: Slots) {
    ss.Nil? || (Paired(ss.head.value) && AllPaired(ss.tail))
  }

  /** A slot that is written comes back exactly if nothing behind it looks like another one. */
  lemma PresentBack(was: Value, slot: Slot, next: seq<byte>)
    requires Table(Cons(slot, Nil)) && Fits(slot.value) && Present(slot.value) && !slot.value.Pairs?
    requires SameKind(was, slot.value)
    ensures SlotClear(slot, next) ==> Reread(was, slot, next) == Took(slot.value, next)
    ensures Reread(was, slot, next).Took? ==> SlotClear(slot, next)
  {
    hide ValueBytes, ReadValue, VarBytes;
    var s := SlotBytes(slot) + next;
    assert s[1..] == ValueBytes(slot.value) + next;
    ValueReads(was, slot.value, next);
  }

  lemma SlotBack(was: Value, slot: Slot, next: seq<byte>)
    requires Table(Cons(slot, Nil)) && Fits(slot.value) && SameKind(was, slot.value)
    ensures Paired(slot.value) && SlotClear(slot, next) ==>
      Reread(was, slot, next) == Took(MergeValue(was, slot.value), next)
    ensures Reread(was, slot, next).Took? && Reread(was, slot, next).value == slot.value ==>
      || (Paired(slot.value) && SlotClear(slot, next))
      || (Lenient(slot) && Starts(next, slot.id) && |Reread(was, slot, next).rest| < |next|)
  {
    if slot.value.Pairs? {
      PairsBack(slot.value.ps, next);
    } else if Present(slot.value) {
      PresentBack(was, slot, next);
    } else {
      assert SlotBytes(slot) + next == next;
      if Starts(next, slot.id) { LbBounded(next[1..]); }
    }
  }

  /** A value that is not written can be found behind the section all the same: zero, where zero
      is accepted, or a variable integer that the encoder leaves out and the decoder would take. */
  predicate Lenient(slot: Slot) {
    match slot.value
    case Pairs(_) => false
    case Var(n, limit) => slot.zeroOk || limit <= n < VAR_LIMIT
    case _ => slot.zeroOk
  }

  lemma {:induction false} SlotsBack(was: Slots, ss: Slots, rest: seq<byte>)
    requires Table(ss) && AllFit(ss) && SameShape(was, ss) && AllPaired(ss) && Clear(ss, rest)
    ensures ReadSlots(was, WireSlots(ss) + rest) == TookAll(MergeSlots(was, ss), rest)
    decreases ss
  {
    if ss.Nil? {
      assert [] + rest == rest;
    } else {
      var next := WireSlots(ss.tail) + rest;
      assert WireSlots(ss) + rest == SlotBytes(ss.head) + next;
      SlotsBack(was.tail, ss.tail, rest);
      SlotBack(was.head.value, ss.head, next);
    }
  }

  lemma {:induction false} SlotsOnly(was: Slots, ss: Slots, rest: seq<byte>)
    requires Table(ss) && AllFit(ss) && SameShape(was, ss)
    requires var r := ReadSlots(was, WireSlots(ss) + rest); r.TookAll? && r.slots == ss && |r.rest| >= |rest|
    ensures AllPaired(ss) && Clear(ss, rest)
    decreases ss
  {
    hide ReadSlot, SlotBytes, Paired, Lenient, Fits, SameKind, MergeValue;
    if ss.Cons? {
      var next := WireSlots(ss.tail) + rest;
      assert WireSlots(ss) + rest == SlotBytes(ss.head) + next;
      SlotBack(was.head.value, ss.head, next);
      FirstId(ss.tail, rest);
      SlotsOnly(was.tail, ss.tail, rest);
    }
  }

  /** The round trip of a whole section into a decoder that already holds values. What the
      encoder wrote is read back, and reading stops right behind it, if and only if no user
      property lacks its value, no slot is followed by its own identifier, and what is not
      written is held already. */
  lemma SlotsReuse(was: Slots, ss: Slots, rest: seq<byte>)
    requires Table(ss) && AllFit(ss) && SameShape(was, ss)
    ensures AllPaired(ss) && Clear(ss, rest) ==> ReadSlots(was, WireSlots(ss) + rest) == TookAll(MergeSlots(was, ss), rest)
    ensures ReadSlots(was, WireSlots(ss) + rest) == TookAll(ss, rest)
      <==> AllPaired(ss) && Clear(ss, rest) && MergeSlots(was, ss) == ss
    ensures var r := ReadSlots(was, WireSlots(ss) + rest);
      r.TookAll? && r.slots == ss && |r.rest| == |rest| ==> r.rest == rest
  {
    var r := ReadSlots(was, WireSlots(ss) + rest);
    if AllPaired(ss) && Clear(ss, rest) {
      SlotsBack(was, ss, rest);
    } else if r.TookAll? && r.slots == ss && |r.rest| == |rest| {
      SlotsOnly(was, ss, rest);
    }
  }

  lemma {:induction false} BlankShape(ss: Slots)
    ensures SameShape(Blank(ss), ss)
    ensures AllPaired(ss) && MergeSlots(Blank(ss), ss) == ss <==> AllFaithful(ss)
    decreases ss
  {
    if ss.Cons? { BlankShape(ss.tail); }
  }

  /** The same for a decoder that holds nothing yet: every value must be one that can be read
      back, and no slot be followed by its own identifier. */
  lemma SlotsRoundTrip(ss: Slots, rest: seq<byte>)
    requires Table(ss) && AllFit(ss)
    ensures ReadSlots(Blank(ss), WireSlots(ss) + rest) == TookAll(ss, rest) <==> AllFaithful(ss) && Clear(ss, rest)
    ensures var r := ReadSlots(Blank(ss), WireSlots(ss) + rest);
      r.TookAll? && r.slots == ss && |r.rest| == |rest| ==> r.rest == rest
  {
    BlankShape(ss);
    SlotsReuse(Blank(ss), ss, rest);
  }

  /** User properties that are read are never too long. */
  lemma {:induction false} ReadWhole(ss: Slots, s: seq<byte>)
    ensures ReadSlots(ss, s).TookAll? ==> AllWhole(ReadSlots(ss, s).slots)
    decreases ss
  {
    if ss.Cons? {
      var r := ReadSlot(ss.head, s);
      PairsShape(s);
      KindKept(ss.head, s);
      if r.Took? { ReadWhole(ss.tail, r.rest); }
    }
  }

  predicate Strict(ss: Slots) {
    ss.Nil? || (!Lenient(ss.head) && Strict(ss.tail))
  }

  /** Where there is no such value, the values alone tell: a section that comes back with all of
      them was not followed by anything that looks like it. */
  lemma {:induction false} SlotsOnlyBack(ss: Slots, rest: seq<byte>)
    requires Table(ss) && AllFit(ss) && Strict(ss)
    ensures var r := ReadSlots(Blank(ss), WireSlots(ss) + rest);
      r.TookAll? && r.slots == ss ==> AllFaithful(ss) && Clear(ss, rest) && r.rest == rest
    decreases ss
  {
    if ss.Nil? {
      assert [] + rest == rest;
    } else {
      var h, next := ss.head, WireSlots(ss.tail) + rest;
      assert WireSlots(ss) + rest == SlotBytes(h) + next;
      SlotsOnlyBack(ss.tail, rest);
      SlotBack(BlankValue(h.value), h, next);
      BlankShape(Cons(h, Nil));
    }
  }

  /** The next byte is an identifier of the list, unless nothing of it is written. */
  lemma {:induction false} FirstId(ss: Slots, rest: seq<byte>)
    requires Table(ss) && AllFit(ss)
    ensures WireSlots(ss) == [] || WireSlots(ss)[0] in Ids(ss)
    ensures WireSlots(ss) == [] ==> WireSlots(ss) + rest == rest
    ensures WireSlots(ss) != [] ==> (WireSlots(ss) + rest)[0] == WireSlots(ss)[0]
    decreases ss
  {
    if ss.Cons? {
      FirstId(ss.tail, rest);
    }
  }

  /** The identifiers that must not come right behind the section: those from the last slot
      written onwards. */
  function TailIds(ss: Slots): set<byte>
    requires AllFit(ss)
  {
    if ss.Nil? then {}
    else if WireSlots(ss.tail) == [] then {ss.head.id} + TailIds(ss.tail)
    else TailIds(ss.tail)
  }

  lemma {:induction false} TailAmongIds(ss: Slots)
    requires AllFit(ss)
    ensures TailIds(ss) <= Ids(ss)
    decreases ss
  {
    if ss.Cons? { TailAmongIds(ss.tail); }
  }

  lemma {:induction false} ClearMeans(ss: Slots, rest: seq<byte>)
    requires Table(ss) && AllFit(ss) && rest != []
    ensures Clear(ss, rest) <==> rest[0] !in TailIds(ss)
    decreases ss
  {
    if ss.Cons? {
      ClearMeans(ss.tail, rest);
      FirstId(ss.tail, rest);
    }
  }

  // ----- two sections in a row -----

  function Append(a: Slots, b: Slots): Slots {
    if a.Nil? then b else Cons(a.head, Append(a.tail, b))
  }

  lemma {:induction false} AppendWire(a: Slots, b: Slots)
    requires AllFit(a) && AllFit(b)
    ensures AllFit(Append(a, b)) && WireSlots(Append(a, b)) == WireSlots(a) + WireSlots(b)
    decreases a
  {
    if a.Nil? {
      assert [] + WireSlots(b) == WireSlots(b);
    } else {
      AppendWire(a.tail, b);
      Associate(SlotBytes(a.head), WireSlots(a.tail), WireSlots(b));
    }
  }

  lemma Associate(x: seq<byte>, y: seq<byte>, z: seq<byte>)
    ensures (x + y) + z == x + (y + z)
  {
  }

  lemma {:induction false} AppendClear(a: Slots, b: Slots, rest: seq<byte>)
    requires AllFit(a) && AllFit(b) && AllFit(Append(a, b))
    ensures Clear(Append(a, b), rest) <==> Clear(a, WireSlots(b) + rest) && Clear(b, rest)
    decreases a
  {
    if a.Cons? {
      AppendClear(a.tail, b, rest);
      AppendWire(a.tail, b);
      Associate(WireSlots(a.tail), WireSlots(b), rest);
    }
  }

  lemma {:induction false} AppendParts(a: Slots, b: Slots)
    ensures SlotsLen(Append(a, b)) == SlotsLen(a) + SlotsLen(b)
    ensures AllFit(Append(a, b)) <==> AllFit(a) && AllFit(b)
    ensures AllWhole(Append(a, b)) <==> AllWhole(a) && AllWhole(b)
    ensures AllFaithful(Append(a, b)) <==> AllFaithful(a) && AllFaithful(b)
    ensures Blank(Append(a, b)) == Append(Blank(a), Blank(b))
    decreases a
  {
    if a.Cons? { AppendParts(a.tail, b); }
  }

  lemma {:induction false} AppendMerge(a0: Slots, b0: Slots, a: Slots, b: Slots)
    requires SameShape(a0, a) && SameShape(b0, b)
    ensures SameShape(Append(a0, b0), Append(a, b))
    ensures MergeSlots(Append(a0, b0), Append(a, b)) == Append(MergeSlots(a0, a), MergeSlots(b0, b))
    ensures AllPaired(Append(a, b)) <==> AllPaired(a) && AllPaired(b)
    decreases a
  {
    if a.Cons? { AppendMerge(a0.tail, b0, a.tail, b); }
  }

  lemma {:induction false} AppendReads(a: Slots, b: Slots, s: seq<byte>)
    ensures ReadSlots(Append(a, b), s)
      == match ReadSlots(a, s)
         case FailAll(e) => FailAll(e)
         case TookAll(va, s1) =>
           match ReadSlots(b, s1)
           case FailAll(e) => FailAll(e)
           case TookAll(vb, s2) => TookAll(Append(va, vb), s2)
    decreases a
  {
    if a.Cons? {
      var one := ReadSlot(a.head, s);
      if one.Took? { AppendReads(a.tail, b, one.rest); }
    }
  }

  // ----- lengths -----

  function PairsLen(ps: seq<seq<byte>>): nat {
    if ps == [] then 0
    else if |ps| == 1 then 5 + |ps[0]|
    else 5 + |ps[0]| + |ps[1]| + PairsLen(ps[2..])
  }

  /** What the build methods count for a slot. */
  function SlotLen(slot: Slot): nat {
    if !Present(slot.value) then 0
    else match slot.value
      case Byte1(_) => 2
      case Int16(_) => 3
      case Int32(_) => 5
      case Var(n, _) => 1 + |VarBytes(n)|
      case Text(s) => 3 + |s|
      case Pairs(ps) => PairsLen(ps)
  }

  function SlotsLen(ss: Slots): nat {
    if ss.Nil? then 0 else SlotLen(ss.head) + SlotsLen(ss.tail)
  }

  lemma LenOfCons(a: Slot, t: Slots)
    ensures SlotsLen(Cons(a, t)) == SlotLen(a) + SlotsLen(t)
  {
  }

  lemma LenOfThree(a: Slot, b: Slot, c: Slot)
    ensures SlotsLen(Cons(a, Cons(b, Cons(c, Nil)))) == SlotLen(a) + SlotLen(b) + SlotLen(c)
  {
    LenOfCons(b, Cons(c, Nil));
    LenOfCons(a, Cons(b, Cons(c, Nil)));
    LenOfCons(c, Nil);
  }

  predicate AllWhole(ss: Slots) {
    ss.Nil? || ((ss.head.value.Pairs? ==> Whole(ss.head.value.ps)) && AllWhole(ss.tail))
  }

  lemma {:induction false} PairsLength(ps: seq<seq<byte>>)
    ensures |PairsBytes(ps)| <= PairsLen(ps)
    ensures |PairsBytes(ps)| == PairsLen(ps) <==> Whole(ps)
    decreases |ps|
  {
    if |ps| >= 2 {
      PairsLength(ps[2..]);
      assert Whole(ps) <==> |ps[0]| <= MAX_LP && |ps[1]| <= MAX_LP && Whole(ps[2..]) by {
        assert forall i :: 2 <= i < |ps| ==> ps[i] == ps[2..][i - 2];
      }
    }
  }

  /** The length counted beforehand is the length written, exactly when no user property is too long. */
  lemma {:induction false} SlotsLength(ss: Slots)
    requires AllFit(ss)
    ensures |WireSlots(ss)| <= SlotsLen(ss)
    ensures |WireSlots(ss)| == SlotsLen(ss) <==> AllWhole(ss)
    decreases ss
  {
    if ss.Cons? {
      SlotsLength(ss.tail);
      if ss.head.value.Pairs? { PairsLength(ss.head.value.ps); }
    }
  }
}
