/** Byte buffers, and the writers and readers shared by the packets of the codec. */
module Wire {
  import opened Common
  import opened VarInt
  import opened Props

  /** d with b written at position at. */
  function Splice(d: seq<byte>, at: nat, b: seq<byte>): (r: seq<byte>)
    requires at + |b| <= |d|
    ensures |r| == |d|
  {
    d[..at] + b + d[at + |b|..]
  }

  lemma SpliceTwice(d: seq<byte>, at: nat, b: seq<byte>, c: seq<byte>)
    requires at + |b| + |c| <= |d|
    ensures Splice(Splice(d, at, b), at + |b|, c) == Splice(d, at, b + c)
  {
  }

  /** copy(dst[at:], b), where there is room. */
  method Copy(dst: array<byte>, at: nat, b: seq<byte>)
    requires at + |b| <= dst.Length
    modifies dst
    ensures dst[..] == Splice(old(dst[..]), at, b)
  {
    forall j | 0 <= j < |b| { dst[at + j] := b[j]; }
  }

  /** writeLPBytes(dst[at:], b) */
  method WriteLPBytes(dst: array<byte>, at: nat, b: seq<byte>) returns (n: nat, err: Option<Fault>)
    requires at <= dst.Length
    modifies dst
    ensures err == if |b| > MAX_LP then Some(TooLong) else if dst.Length - at < 2 + |b| then Some(Insufficient) else None
    ensures n == if err.None? then 2 + |b| else 0
    ensures dst[..] == if err.None? then Splice(old(dst[..]), at, LP(b)) else old(dst[..])
  {
    if |b| > MAX_LP {
      return 0, Some(TooLong);
    }
    if dst.Length - at < 2 + |b| {
      return 0, Some(Insufficient);
    }
    ghost var was := dst[..];
    Copy(dst, at, Big16(|b|));
    Copy(dst, at + 2, b);
    SpliceTwice(was, at, Big16(|b|), b);
    return 2 + |b|, None;
  }

  /** readLPBytes */
  method ReadLPBytes(buf: seq<byte>) returns (b: seq<byte>, n: nat, err: Option<Fault>)
    ensures err.Some? ==> ReadLP(buf) == NoPiece(err.value)
    ensures err.None? ==> n <= |buf| && ReadLP(buf) == Piece(b, buf[n..])
    ensures err.None? <==> |buf| >= 2 && |buf| - 2 >= 256 * (buf[0] as int) + (buf[1] as int)
    ensures err.None? ==> n == 2 + 256 * (buf[0] as int) + (buf[1] as int) && b == buf[2..n]
  {
    if |buf| < 2 {
      return [], 0, Some(InvalidMessage);
    }
    var len, total: nat := Num16(buf[0], buf[1]), 2;
    if |buf| < len {
      return [], total, Some(InvalidMessage);
    }
    total := total + len;
    if |buf| < total {
      return [], total, Some(Panic);
    }
    return buf[2..total], total, None;
  }

  /** decodeUserProperty */
  method DecodeUserProperty(src: seq<byte>) returns (ps: seq<seq<byte>>, total: nat, err: Option<Fault>)
    ensures err.Some? ==> ReadPairs(src) == NoStrings(err.value)
    ensures err.None? ==> total <= |src| && ReadPairs(src) == Strings(ps, src[total..])
  {
    ps, total, err := [], 0, None;
    ghost var whole := ReadPairs(src);
    StartWalking(src);
    while total < |src| && src[total] == USER_PROPERTY
      invariant err == None && total <= |src| && Walking(whole, src[total..], ps)
      decreases |src| - total
    {
      var kv, n, e := DecodePair(src, total, whole, ps);
      if e.Some? {
        return ps, total + n, e;
      }
      total := total + n;
      ps := ps + kv;
    }
    Walked(whole, src[total..], ps);
  }

  /** One round of that loop: the identifier, a name and a value. */
  method DecodePair(src: seq<byte>, at: nat, ghost whole: Strings, ghost ps: seq<seq<byte>>)
    returns (kv: seq<seq<byte>>, total: nat, err: Option<Fault>)
    requires at <= |src| && Starts(src[at..], USER_PROPERTY) && Walking(whole, src[at..], ps)
    ensures err.Some? ==> whole == NoStrings(err.value)
    ensures err.None? ==> 0 < total && at + total <= |src| && Walking(whole, src[at + total..], ps + kv)
  {
    kv, total, err := ReadTwoStrings(src[at + 1..]);
    WalkOn(whole, src[at..], ps);
    DropDrop(src, at, 1);
    if err.None? {
      DropDrop(src, at + 1, total);
    }
    total := total + 1;
  }

  /** The name and the value. */
  method ReadTwoStrings(src: seq<byte>) returns (kv: seq<seq<byte>>, total: nat, err: Option<Fault>)
    ensures err.Some? ==> ReadTwo(src) == NoStrings(err.value)
    ensures err.None? ==> total <= |src| && ReadTwo(src) == Strings(kv, src[total..])
  {
    var tu, n, e := ReadLPBytes(src);
    if e.Some? {
      return [], n, e;
    }
    total := n;
    var tuAfter;
    tuAfter, n, e := ReadLPBytes(src[total..]);
    if e.Some? {
      return [tu], total + n, e;
    }
    DropDrop(src, total, n);
    return [tu, tuAfter], total + n, None;
  }

  lemma DropDrop(s: seq<byte>, a: nat, b: nat)
    requires a + b <= |s|
    ensures s[a..][b..] == s[a + b..]
  {
  }

  /** ps has been read and rest is left. */
  ghost predicate Walking(whole: Strings, rest: seq<byte>, ps: seq<seq<byte>>) {
    whole == Before(ps, ReadPairs(rest))
  }

  lemma StartWalking(s: seq<byte>)
    ensures Walking(ReadPairs(s), s[0..], [])
  {
  }

  lemma Walked(whole: Strings, s: seq<byte>, ps: seq<seq<byte>>)
    requires !Starts(s, USER_PROPERTY) && Walking(whole, s, ps)
    ensures whole == Strings(ps, s)
  {
  }

  lemma WalkOn(whole: Strings, s: seq<byte>, ps: seq<seq<byte>>)
    requires Starts(s, USER_PROPERTY) && Walking(whole, s, ps)
    ensures match ReadTwo(s[1..])
      case NoStrings(e) => whole == NoStrings(e)
      case Strings(kv, rest) => Walking(whole, rest, ps + kv)
  {
  }

  /** buildUserPropertyLen */
  method BuildUserPropertyLen(ps: seq<seq<byte>>) returns (total: nat)
    ensures total == PairsLen(ps)
  {
    total := 0;
    var i := 0;
    assert ps[0..] == ps;
    while i < |ps|
      invariant i <= |ps| + 1
      invariant total + (if i <= |ps| then PairsLen(ps[i..]) else 0) == PairsLen(ps)
    {
      total := total + 1;
      total := total + 2;
      if |ps[i]| != 0 {
        total := total + |ps[i]|;
      }
      total := total + 2;
      if i < |ps| - 1 && |ps[i + 1]| != 0 {
        total := total + |ps[i + 1]|;
      }
      if i + 2 <= |ps| { assert ps[i..][2..] == ps[i + 2..]; }
      i := i + 2;
    }
  }

  // ----- writing user properties into an array -----

  /** writeUserProperty(dst[at:], ps): stops at the first string that is too long. */
  method WriteUserProperty(dst: array<byte>, at: nat, ps: seq<seq<byte>>) returns (total: nat, err: Option<Fault>)
    requires at + PairsLen(ps) <= dst.Length
    modifies dst
    ensures err == if Whole(ps) then None else Some(TooLong)
    ensures total == |PairsBytes(ps)| <= PairsLen(ps) && dst[..] == Splice(old(dst[..]), at, PairsBytes(ps))
  {
    hide Splice, PairsBytes, PairsLen, Whole, OnePair, PairFits;
    ghost var was, out := dst[..], [];
    total, err := 0, None;
    var i := 0;
    assert ps[0..] == ps;
    PairsLength(ps);
    SpliceNone(was, at);
    while i < |ps|
      invariant i <= |ps| + 1 && total == |out| && err == None
      invariant at + total <= dst.Length && dst[..] == Splice(was, at, out)
      invariant i <= |ps| ==> out + PairsBytes(ps[i..]) == PairsBytes(ps) && at + total + PairsLen(ps[i..]) <= dst.Length
      invariant i <= |ps| ==> (Whole(ps) <==> Whole(ps[i..]))
      invariant i > |ps| ==> out == PairsBytes(ps) && Whole(ps)
    {
      var n;
      n, err := WriteOnePair(dst, at + total, ps, i);
      ghost var one := OnePair(ps[i..]);
      SpliceTwice(was, at, out, one);
      PairsStep(ps, i, out);
      out := out + one;
      total := total + n;
      if err.Some? {
        return;
      }
      i := i + 2;
    }
    if i == |ps| {
      assert ps[i..] == [] && out + [] == out;
      NoPairs();
    }
  }

  lemma NoPairs()
    ensures PairsBytes([]) == [] && PairsLen([]) == 0 && Whole([])
  {
  }

  /** What one round of that loop writes. */
  ghost function OnePair(ps: seq<seq<byte>>): seq<byte>
    requires ps != []
  {
    if |ps[0]| > MAX_LP then [USER_PROPERTY]
    else if |ps| == 1 then Pair(ps[0], [])
    else if |ps[1]| > MAX_LP then [USER_PROPERTY] + LP(ps[0])
    else Pair(ps[0], ps[1])
  }

  ghost predicate PairFits(ps: seq<seq<byte>>)
    requires ps != []
  {
    |ps[0]| <= MAX_LP && (|ps| > 1 ==> |ps[1]| <= MAX_LP)
  }

  lemma PairsStep(ps: seq<seq<byte>>, i: nat, out: seq<byte>)
    requires i < |ps| && out + PairsBytes(ps[i..]) == PairsBytes(ps)
    ensures !PairFits(ps[i..]) ==> out + OnePair(ps[i..]) == PairsBytes(ps) && !Whole(ps[i..])
    ensures PairFits(ps[i..]) && i + 1 == |ps| ==> out + OnePair(ps[i..]) == PairsBytes(ps) && Whole(ps[i..])
    ensures PairFits(ps[i..]) && i + 2 <= |ps| ==>
      && (out + OnePair(ps[i..])) + PairsBytes(ps[i + 2..]) == PairsBytes(ps)
      && (Whole(ps[i..]) <==> Whole(ps[i + 2..]))
      && PairsLen(ps[i..]) == |OnePair(ps[i..])| + PairsLen(ps[i + 2..])
  {
    var s := ps[i..];
    if PairFits(s) && i + 2 <= |ps| {
      assert s[2..] == ps[i + 2..];
      assert (out + OnePair(s)) + PairsBytes(s[2..]) == out + (OnePair(s) + PairsBytes(s[2..]));
      assert Whole(s) <==> Whole(s[2..]) by {
        assert forall j :: 2 <= j < |s| ==> s[j] == s[2..][j - 2];
      }
    }
  }

  method WriteOnePair(dst: array<byte>, at: nat, ps: seq<seq<byte>>, i: nat) returns (total: nat, err: Option<Fault>)
    requires i < |ps| && at + PairsLen(ps[i..]) <= dst.Length
    modifies dst
    ensures err == if PairFits(ps[i..]) then None else Some(TooLong)
    ensures total == |OnePair(ps[i..])| <= PairsLen(ps[i..]) && dst[..] == Splice(old(dst[..]), at, OnePair(ps[i..]))
  {
    hide Splice;
    ghost var was, out := dst[..], [USER_PROPERTY];
    Copy(dst, at, [USER_PROPERTY]);
    total := 1;
    var n;
    n, err := WriteString(dst, at + total, ps[i]);
    if err.Some? {
      return;
    }
    SpliceTwice(was, at, out, LP(ps[i]));
    out := out + LP(ps[i]);
    total := total + n;
    var v := if i == |ps| - 1 then [] else ps[i + 1];
    n, err := WriteString(dst, at + total, v);
    if err.Some? {
      return;
    }
    SpliceTwice(was, at, out, LP(v));
    out := out + LP(v);
    total := total + n;
  }

  /** An empty string is two zero bytes. */
  method WriteString(dst: array<byte>, at: nat, b: seq<byte>) returns (n: nat, err: Option<Fault>)
    requires at + 2 + |b| <= dst.Length
    modifies dst
    ensures err == if |b| > MAX_LP then Some(TooLong) else None
    ensures n == if err.None? then 2 + |b| else 0
    ensures dst[..] == if err.None? then Splice(old(dst[..]), at, LP(b)) else old(dst[..])
  {
    if |b| == 0 {
      Copy(dst, at, [0, 0]);
      return 2, None;
    }
    n, err := WriteLPBytes(dst, at, b);
  }

  lemma SpliceNone(d: seq<byte>, at: nat)
    requires at <= |d|
    ensures Splice(d, at, []) == d
  {
  }
}
