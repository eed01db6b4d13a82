/** Variable byte integers: section 1.5.5 of MQTT Version 5.0. The source writes them in
    two ways and reads them in two ways; all four are held to one definition. */
module VarInt {
  import opened Common
  import opened Bits

  const VAR_LIMIT := 0x1000_0000  // 2^28: four groups of seven bits

  /** The encoding: seven bits at a time, lowest first, all but the last marked. */
  function VarBytes(x: nat): (b: seq<byte>)
    ensures b != []
  {
    if x < 128 then [x] else [x % 128 + 128] + VarBytes(x / 128)
  }

  /** How many bytes header.msglen counts for a remaining length. */
  function VarLen(x: nat): nat {
    if x <= 127 then 1 else if x <= 16383 then 2 else if x <= 2097151 then 3 else 4
  }

  /** The errors of the message package, and Panic where it indexes past the end of a buffer. */
  datatype Fault =
    | Panic | Malformed | InvalidMessage | ProtocolError
    | InvalidTopic | NoTopic | NoPayload | BadReasonCode | TooLong | OutOfBound | Insufficient

  /** A value read and the bytes behind it. */
  datatype VarScan = Got(value: nat, rest: seq<byte>) | Bad(fault: Fault)

  /** What lbDecode makes of a buffer: a value and the bytes behind it. An empty buffer reads
      as zero; a buffer that ends inside the integer is indexed past its end. */
  function LbParse(s: seq<byte>): VarScan {
    if s == [] then Got(0, s) else LbFrom(s, 0)
  }

  function LbFrom(s: seq<byte>, i: nat): (r: VarScan)
    ensures r.Got? ==> |r.rest| < |s|
  {
    if s == [] then Bad(Panic)
    else if i >= 4 then Bad(Malformed)
    else if s[0] < 128 then Got(s[0], s[1..])
    else match LbFrom(s[1..], i + 1)
      case Got(v, rest) => Got(s[0] - 128 + 128 * v, rest)
      case Bad(e) => Bad(e)
  }

  /** encoding/binary.Uvarint: None where it reports a short buffer or an overflow of 64 bits. */
  function Uvarint(s: seq<byte>, i: nat := 0): (r: Option<(nat, nat)>)
    ensures r.Some? ==> 1 <= r.value.1 <= |s|
  {
    if s == [] then None
    else if s[0] < 128 then if i > 9 || (i == 9 && s[0] > 1) then None else Some((s[0], 1))
    else match Uvarint(s[1..], i + 1)
      case Some((v, n)) => Some((s[0] - 128 + 128 * v, n + 1))
      case None => None
  }

  // ----- the encoders -----

  /** lbEncode: fills a scratch buffer of four bytes. */
  method LbEncode(x: uint32) returns (r: seq<byte>)
    requires x < VAR_LIMIT
    ensures r == VarBytes(x)
  {
    var encoded: nat, left: nat := x % 128, x / 128;
    var b := new byte[4];
    var i := 0;
    SevenBits(x);
    Group([], x, x);
    VarBytesFit(x);
    if left > 0 {
      encoded := Or(encoded, 128);
      b[i] := encoded;
      i := i + 1;
      assert b[..i] == [] + [encoded];
    }
    while left > 0
      invariant i <= 3
      invariant left > 0 ==> b[..i] + VarBytes(left) == VarBytes(x) && i + |VarBytes(left)| <= 4
      invariant left == 0 ==> encoded < 128 && b[..i] + [encoded] == VarBytes(x)
      decreases left
    {
      SevenBits(left);
      Group(b[..i], left, x);
      encoded := left % 128;
      left := left / 128;
      if left > 0 {
        encoded := Or(encoded, 128);
        label Before:
        b[i] := encoded;
        assert b[..i + 1] == old@Before(b[..i]) + [encoded];
        i := i + 1;
      }
    }
    b[i] := encoded;
    assert b[..i + 1] == b[..i] + [encoded];
    return b[..i + 1];
  }

  /** One more group of the encoding of x. */
  lemma Group(done: seq<byte>, n: nat, x: nat)
    requires done + VarBytes(n) == VarBytes(x)
    ensures n < 128 ==> done + [n] == VarBytes(x)
    ensures n >= 128 ==> (done + [n % 128 + 128]) + VarBytes(n / 128) == VarBytes(x)
    ensures n >= 128 ==> |VarBytes(n)| == 1 + |VarBytes(n / 128)|
  {
  }

  lemma SevenBits(x: nat)
    ensures Or(x % 128, 128) == x % 128 + 128
  {
    assert Pow2(7) == 128 && Shl(1, 7) == 128;
    OrAbove(x % 128, 1, 7);
  }

  /** The encoding is as long as header.msglen says. */
  lemma VarBytesFit(x: nat)
    requires x < VAR_LIMIT
    ensures |VarBytes(x)| == VarLen(x) <= 4
  {
  }

  /** Table 1-1 of section 1.5.5. */
  lemma VarBytesTable(x: nat)
    requires x < VAR_LIMIT
    ensures VarBytes(x) ==
      if x <= 127 then [x]
      else if x <= 16383 then [x % 128 + 128, x / 128]
      else if x <= 2097151 then [x % 128 + 128, x / 128 % 128 + 128, x / 128 / 128]
      else [x % 128 + 128, x / 128 % 128 + 128, x / 128 / 128 % 128 + 128, x / 128 / 128 / 128]
  {
    hide VarBytes;
    var y := x / 128;
    var z := y / 128;
    OneGroup(x);
    OneGroup(y);
    OneGroup(z);
    OneGroup(z / 128);
  }

  lemma OneGroup(x: nat)
    ensures VarBytes(x) == if x < 128 then [x] else [x % 128 + 128] + VarBytes(x / 128)
  {
  }

  // ----- the decoder -----

  /** lbDecode, in uint32 arithmetic. */
  method LbDecode(b: seq<byte>) returns (value: uint32, i: nat, err: Option<Fault>)
    ensures err.Some? ==> LbParse(b) == Bad(err.value)
    ensures err.None? ==> i <= |b| && LbParse(b) == Got(value, b[i..])
    ensures b == [] ==> err.None? && value == i == 0
  {
    hide And;
    value, i, err := 0, 0, None;
    if |b| == 0 {
      return;
    }
    var mu: uint32 := 1;
    var ec := b[0];
    i := 1;
    Marks(ec);
    value := And(ec, 127);
    mu := 128;
    assert Up(1, 1) == 128 * Up(1, 0);
    StartReading(b);
    ghost var whole := LbFrom(b, 0);
    while And(ec, 128) != 0
      invariant err == None && 1 <= i <= 4 && i <= |b| && mu == Up(1, i) && value < mu
      invariant And(ec, 128) == if ec < 128 then 0 else 128
      invariant Reading(whole, b, i, value, ec)
      decreases 5 - i
    {
      if i == |b| {
        return 0, 0, Some(Panic);
      }
      ReadOn(whole, b, i, value, ec);
      ec := b[i];
      Marks(ec);
      Weigh(value, ec % 128, mu, i);
      value := Accumulate(value, And(ec, 127), mu);
      if mu > 128 * 128 * 128 {
        return 0, 0, Some(Malformed);
      }
      mu := mu * 128;
      i := i + 1;
    }
  }

  /** v moved up by i groups of seven bits. */
  function Up(v: nat, i: nat): nat {
    if i == 0 then v else 128 * Up(v, i - 1)
  }

  /** What is still to be read, moved up behind what has been. */
  function Scaled(value: nat, i: nat, r: VarScan): VarScan {
    match r
    case Got(v, rest) => Got(value + Up(v, i), rest)
    case Bad(e) => Bad(e)
  }

  /** The first i bytes have been read, ec is the last of them, and `whole` is what the buffer says. */
  ghost predicate Reading(whole: VarScan, b: seq<byte>, i: nat, value: nat, ec: byte) {
    && 1 <= i <= |b|
    && whole == if ec < 128 then Got(value, b[i..]) else Scaled(value, i, LbFrom(b[i..], i))
  }

  lemma StartReading(b: seq<byte>)
    requires b != []
    ensures Reading(LbFrom(b, 0), b, 1, b[0] % 128, b[0])
  {
    assert forall v: nat :: Up(v, 1) == 128 * Up(v, 0) == 128 * v;
  }

  lemma ReadOn(whole: VarScan, b: seq<byte>, i: nat, value: nat, ec: byte)
    requires ec >= 128 && i <= 4 && Reading(whole, b, i, value, ec)
    ensures i == |b| ==> whole == Bad(Panic)
    ensures i < |b| && i == 4 ==> whole == Bad(Malformed)
    ensures i < |b| && i < 4 ==> Reading(whole, b, i + 1, value + Up(b[i] % 128, i), b[i])
  {
    if i < |b| && i < 4 {
      ReadNext(whole, b, i, value, ec);
    }
  }

  lemma ReadNext(whole: VarScan, b: seq<byte>, i: nat, value: nat, ec: byte)
    requires ec >= 128 && i < 4 && i < |b| && Reading(whole, b, i, value, ec)
    ensures Reading(whole, b, i + 1, value + Up(b[i] % 128, i), b[i])
  {
    OneByte(b, i);
    Join(value, i, b[i], LbFrom(b[i + 1..], i + 1), b[i + 1..]);
  }

  /** What one byte adds to what the bytes behind it say. */
  function Marked(ec: byte, r: VarScan, rest: seq<byte>): VarScan {
    if ec < 128 then Got(ec, rest)
    else match r
      case Got(v, t) => Got(ec - 128 + 128 * v, t)
      case Bad(e) => Bad(e)
  }

  lemma OneByte(b: seq<byte>, i: nat)
    requires i < |b| && i < 4
    ensures LbFrom(b[i..], i) == Marked(b[i], LbFrom(b[i + 1..], i + 1), b[i + 1..])
  {
  }

  lemma Join(value: nat, i: nat, ec: byte, r: VarScan, rest: seq<byte>)
    ensures Scaled(value, i, Marked(ec, r, rest))
      == if ec < 128 then Got(value + Up(ec % 128, i), rest) else Scaled(value + Up(ec % 128, i), i + 1, r)
  {
    hide Up;
    if ec >= 128 && r.Got? { UpAdd(ec % 128, r.value, i); }
  }

  lemma {:induction false} UpAdd(d: nat, v: nat, i: nat)
    ensures Up(d + 128 * v, i) == Up(d, i) + Up(v, i + 1)
  {
    if i > 0 { UpAdd(d, v, i - 1); }
  }

  lemma Marks(ec: byte)
    ensures And(ec, 128) == (if ec < 128 then 0 else 128) && And(ec, 127) == ec % 128
  {
    hide And;
    BitSeven();
    MaskIsMod(ec, 7);
    AndAbove(ec, 1, 7);
    TopBit(ec);
    MaskIsMod(Shr(ec, 7), 1);
  }

  lemma BitSeven()
    ensures Pow2(7) == 128 && Pow2(1) == 2 && Shl(1, 7) == 128 && Shl(0, 7) == 0
  {
  }

  lemma TopBit(ec: byte)
    ensures Shr(ec, 7) == if ec < 128 then 0 else 1
  {
    hide And;
    BitSeven();
    ShrSplit(ec % 128, ec / 128, 7);
  }

  /** `value += digit * mu` in uint32. */
  function Accumulate(value: uint32, digit: byte, mu: uint32): uint32 {
    (value + digit * mu) % 0x1_0000_0000
  }

  lemma Weigh(value: uint32, d: byte, mu: uint32, i: nat)
    requires d < 128 && 1 <= i <= 4 && mu == Up(1, i) && value < mu
    ensures mu > 128 * 128 * 128 <==> i == 4
    ensures i < 4 ==> 128 * mu == Up(1, i + 1) <= VAR_LIMIT
    ensures i < 4 ==> Accumulate(value, d, mu) == value + Up(d, i) < Up(1, i + 1)
  {
    assert Up(1, 1) == 128 && Up(1, 2) == 16384 && Up(1, 3) == 2097152 && Up(1, 4) == VAR_LIMIT;
    UpTimes(d, i);
    UpLess(d, i);
  }

  lemma {:induction false} UpTimes(d: nat, i: nat)
    ensures Up(d, i) == d * Up(1, i)
  {
    if i > 0 {
      UpTimes(d, i - 1);
      var m := Up(1, i - 1);
      assert 128 * (d * m) == d * (128 * m);
    }
  }

  lemma {:induction false} UpLess(d: nat, i: nat)
    requires d < 128
    ensures Up(d, i) + Up(1, i) <= Up(1, i + 1)
  {
    if i > 0 { UpLess(d, i - 1); }
  }

  /** What follows a number does not matter, nor how much of it there is. */
  lemma {:induction false} UvarintExtends(s: seq<byte>, i: nat, t: seq<byte>)
    requires Uvarint(s, i).Some? && s <= t
    ensures Uvarint(t, i) == Uvarint(s, i)
    decreases |s|
  {
    if s[0] >= 128 { UvarintExtends(s[1..], i + 1, t[1..]); }
  }

  lemma {:induction false} UvarintPrefix(s: seq<byte>, i: nat, t: seq<byte>)
    requires Uvarint(s, i).Some? && t <= s && |t| >= Uvarint(s, i).value.1
    ensures Uvarint(t, i) == Uvarint(s, i)
    decreases |s|
  {
    if s[0] >= 128 { UvarintPrefix(s[1..], i + 1, t[1..]); }
  }

  /** Four groups make less than 2^28. */
  lemma UvarintSmall(s: seq<byte>, i: nat)
    ensures Uvarint(s, i).Some? && Uvarint(s, i).value.1 <= 4 ==> Uvarint(s, i).value.0 < VAR_LIMIT
  {
    UvarintBelow(s, i);
    assert Up(1, 1) == 128 && Up(1, 2) == 16384 && Up(1, 3) == 2097152 && Up(1, 4) == VAR_LIMIT;
  }

  lemma {:induction false} UvarintBelow(s: seq<byte>, i: nat)
    ensures Uvarint(s, i).Some? ==> Uvarint(s, i).value.0 < Up(1, Uvarint(s, i).value.1)
    decreases |s|
  {
    if s != [] && s[0] >= 128 { UvarintBelow(s[1..], i + 1); }
  }

  // ----- the laws -----

  /** Reading back what was written, whatever follows it. */
  lemma LbRoundTrip(x: nat, rest: seq<byte>)
    requires x < VAR_LIMIT
    ensures LbParse(VarBytes(x) + rest) == Got(x, rest)
  {
    VarBytesFit(x);
    LbReads(x, rest, 0);
  }

  lemma {:induction false} LbReads(x: nat, rest: seq<byte>, i: nat)
    requires i + |VarBytes(x)| <= 4
    ensures LbFrom(VarBytes(x) + rest, i) == Got(x, rest)
    decreases x
  {
    var s := VarBytes(x) + rest;
    if x < 128 {
      assert s[1..] == rest;
    } else {
      LbReads(x / 128, rest, i + 1);
      assert s[1..] == VarBytes(x / 128) + rest;
    }
  }

  lemma UvarintRoundTrip(x: nat, rest: seq<byte>)
    requires x < VAR_LIMIT
    ensures Uvarint(VarBytes(x) + rest) == Some((x, |VarBytes(x)|))
  {
    VarBytesFit(x);
    LbReads(x, rest, 0);
    Agreement(VarBytes(x) + rest, 0);
  }

  /** No encoding is the beginning of another. */
  lemma {:induction false} PrefixFree(x: nat, y: nat)
    requires VarBytes(x) <= VarBytes(y)
    ensures x == y
    decreases x
  {
    assert VarBytes(x)[0] == VarBytes(y)[0];
    if x >= 128 {
      assert VarBytes(x)[1..] <= VarBytes(y)[1..];
      PrefixFree(x / 128, y / 128);
    }
  }

  /** The two readers: lbDecode succeeds exactly when binary.Uvarint does within four bytes,
      and then with the same value and length. */
  lemma ReadersAgree(s: seq<byte>)
    requires s != []
    ensures LbParse(s).Got? <==> Uvarint(s).Some? && Uvarint(s).value.1 <= 4
    ensures LbParse(s).Got? ==> Uvarint(s) == Some((LbParse(s).value, |s| - |LbParse(s).rest|))
  {
    Agreement(s, 0);
  }

  lemma {:induction false} Agreement(s: seq<byte>, i: nat)
    ensures var l, u := LbFrom(s, i), Uvarint(s, i);
      && (l.Got? <==> u.Some? && i + u.value.1 <= 4)
      && (l.Got? ==> u == Some((l.value, |s| - |l.rest|)))
    decreases |s|
  {
    if s != [] && s[0] >= 128 {
      Agreement(s[1..], i + 1);
    }
  }

  /** Four groups hold no more than 28 bits. */
  lemma LbBounded(s: seq<byte>)
    ensures LbParse(s).Got? ==> LbParse(s).value < VAR_LIMIT
  {
    assert Up(1, 1) == 128 && Up(1, 2) == 16384 && Up(1, 3) == 2097152 && Up(1, 4) == VAR_LIMIT;
    GroupsBounded(s, 0);
  }

  lemma {:induction false} GroupsBounded(s: seq<byte>, i: nat)
    requires i <= 4
    ensures LbFrom(s, i).Got? ==> LbFrom(s, i).value < Up(1, 4 - i)
    decreases |s|
  {
    if s != [] && i < 4 {
      assert Up(1, 4 - i) == 128 * Up(1, 3 - i);
      if s[0] >= 128 { GroupsBounded(s[1..], i + 1); }
    }
  }
}
