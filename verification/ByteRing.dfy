/** The byte ring between a connection and its processor, as one party at a time sees it:
    a bounded byte queue. A call that would block reports so and leaves the queue alone.
    RingSteps.dfy treats the two parties running at once. */
module ByteRing {
  import opened Common
  import opened Bits
  import opened RingWindow

  datatype Fault = Blocked | Eof | BufferFull | NegativeCount | Insufficient | Unencodable | SourceFailed

  const READ_BLOCK := 1024

  /** The first i bytes of src have been stored from start on, round the ring, and nothing else. */
  ghost predicate Copied(was: seq<byte>, now: seq<byte>, src: seq<byte>, start: nat, i: nat)
    requires start < |was| && i <= |src| <= |was|
  {
    && |now| == |was|
    && (forall j :: 0 <= j < i ==> now[Cell(start, |was|, j)] == src[j])
    && (forall j :: i <= j < |was| ==> now[Cell(start, |was|, j)] == was[Cell(start, |was|, j)])
  }

  lemma CopyMore(was: seq<byte>, now: seq<byte>, next: seq<byte>, src: seq<byte>, start: nat, i: nat, l: nat)
    requires start < |was| && i < |src| <= |was| && i + l <= |src| && Copied(was, now, src, start, i)
    requires var at := Cell(start, |was|, i); at + l <= |was| && next == now[..at] + src[i..i + l] + now[at + l..]
    ensures Copied(was, next, src, start, i + l)
  {
    var at := Cell(start, |was|, i);
    forall j | 0 <= j < |was|
      ensures next[Cell(start, |was|, j)] == if i <= j < i + l then src[j] else now[Cell(start, |was|, j)]
    {
      var c := Cell(start, |was|, j);
      if i <= j < i + l { assert c == at + (j - i); } else { assert c < at || c >= at + l; }
    }
  }

  /** ringCopy: fill up to the end of the ring, then go on from its start. */
  method RingCopy(dst: array<byte>, src: seq<byte>, start: nat) returns (n: nat)
    requires start < dst.Length && |src| <= dst.Length
    modifies dst
    ensures n == |src|
    ensures forall i :: 0 <= i < |src| ==> dst[Cell(start, dst.Length, i)] == src[i]
    ensures forall i :: |src| <= i < dst.Length ==> dst[Cell(start, dst.Length, i)] == old(dst[Cell(start, dst.Length, i)])
  {
    ghost var was := dst[..];
    n := CopyRound(dst, src, start);
    assert Copied(was, dst[..], src, start, |src|);
  }

  method CopyRound(dst: array<byte>, src: seq<byte>, start: nat) returns (n: nat)
    requires start < dst.Length && |src| <= dst.Length
    modifies dst
    ensures n == |src| && Copied(old(dst[..]), dst[..], src, start, |src|)
  {
    ghost var was := dst[..];
    var i, at := 0, start;
    while i < |src|
      invariant i <= |src| && (i < |src| ==> at == Cell(start, dst.Length, i))
      invariant i == 0 || i == |src| || at == 0
      invariant Copied(was, dst[..], src, start, i)
      decreases |src| - i
    {
      hide Copied;
      ghost var now := dst[..];
      var l := Min(dst.Length - at, |src| - i);
      Store(dst, at, src[i..i + l]);
      CopyMore(was, now, dst[..], src, start, i, l);
      i := i + l;
      if i < |src| {
        at := 0;
      }
    }
    n := i;
  }

  /** copy(dst[at:], b), where there is room */
  method Store(dst: array<byte>, at: nat, b: seq<byte>)
    requires at + |b| <= dst.Length
    modifies dst
    ensures dst[..] == old(dst[..])[..at] + b + old(dst[..])[at + |b|..]
  {
    forall j | 0 <= j < |b| { dst[at + j] := b[j]; }
  }

  /** A call is given a stretch of at most a read block that does not go round the end of the ring,
      and fills it as far as it can. */
  function Chunk(k: nat, pos: nat, size: nat, left: nat): (n: nat)
    requires size > 0
    ensures n <= left && n <= READ_BLOCK
  {
    Min(k, Min(Min(pos % size + READ_BLOCK, size) - pos % size, left))
  }

  /** What the receiving loop gets, `left` bytes being still to come, with the producer at `pos` and
      `room` free cells, and why it ends. */
  function Receives(left: nat, pos: nat, room: nat, size: nat, calls: seq<(nat, bool)>): (r: (nat, Option<Fault>))
    requires size > 0
    ensures r.0 <= left
    decreases |calls|
  {
    if calls == [] then (0, None)
    else if room < READ_BLOCK then (0, Some(Blocked))
    else
      var n := Chunk(calls[0].0, pos, size, left);
      if calls[0].1 then (n, Some(SourceFailed))
      else
        More(n, Receives(left - n, pos + n, room - n, size, calls[1..]))
  }

  function More(n: nat, r: (nat, Option<Fault>)): (nat, Option<Fault>) {
    (n + r.0, r.1)
  }

  /** When no call comes back empty-handed and the loop does not end, everything arrives, or at
      least a byte a call. */
  lemma {:induction false} AllReceived(left: nat, pos: nat, room: nat, size: nat, calls: seq<(nat, bool)>)
    requires size > 0 && forall i :: 0 <= i < |calls| ==> calls[i].0 > 0
    requires Receives(left, pos, room, size, calls).1 == None
    ensures Receives(left, pos, room, size, calls).0 == left || Receives(left, pos, room, size, calls).0 >= |calls|
    decreases |calls|
  {
    if calls != [] {
      var n := Chunk(calls[0].0, pos, size, left);
      AllReceived(left - n, pos + n, room - n, size, calls[1..]);
    }
  }

  /** The loop ends for want of room only if less than a read block is left, and for the source
      exactly at the first call that fails. */
  lemma {:induction false} WhyReceivingEnds(left: nat, pos: nat, room: nat, size: nat, calls: seq<(nat, bool)>)
    requires size > 0
    ensures var r := Receives(left, pos, room, size, calls);
      && r.1 in {None, Some(Blocked), Some(SourceFailed)} && r.0 <= room
      && (r.1 == Some(Blocked) ==> room - r.0 < READ_BLOCK)
      && (r.1 == None ==> forall i :: 0 <= i < |calls| ==> !calls[i].1)
      && (r.1 == Some(SourceFailed) ==> exists i :: 0 <= i < |calls| && calls[i].1)
    decreases |calls|
  {
    hide Chunk;
    if calls != [] && room >= READ_BLOCK && !calls[0].1 {
      var n := Chunk(calls[0].0, pos, size, left);
      WhyReceivingEnds(left - n, pos + n, room - n, size, calls[1..]);
    }
  }

  class Ring {
    var buf: array<byte>
    var tmp: seq<byte>
    var size: nat
    var mask: nat
    var done: bool
    var pseq: nat  // the producer's cursor
    var gate: nat  // the producer's last view of the consumer
    var cseq: nat  // the consumer's cursor

    ghost predicate Valid()
      reads this
    {
      && buf.Length == size && PowerOf2(size) && mask == size - 1
      && gate <= cseq <= pseq <= cseq + size
    }

    /** The unread bytes, oldest first. */
    ghost function Contents(): (q: seq<byte>)
      requires Valid()
      reads this, buf
      ensures |q| == pseq - cseq
    {
      Window(buf[..], cseq % size, pseq - cseq)
    }

    /** Everything but the cursors stays. */
    twostate predicate SameRing()
      reads this
    {
      buf == old(buf) && size == old(size) && mask == old(mask) && done == old(done)
    }

    constructor (n: nat)
      requires PowerOf2(n) && n / 2 >= READ_BLOCK
      ensures Valid() && fresh(buf) && Contents() == [] && !done && size == n
    {
      buf := new byte[n](_ => 0);
      tmp, size, mask, done := [], n, n - 1, false;
      pseq, gate, cseq := 0, 0, 0;
    }

    /** `pos & mask` */
    method Index(pos: nat) returns (i: nat)
      requires Valid()
      ensures i == pos % size
    {
      var k: nat :| size == Pow2(k);
      MaskIsMod(pos, k);
      i := And(pos, mask);
    }

    /** Room for n bytes, judged by the stale gate if that is enough. */
    method WaitForWriteSpace(n: nat) returns (r: Result<nat, Fault>)
      requires Valid()
      modifies this`gate
      ensures Valid() && Contents() == old(Contents())
      ensures r == if done then Err(Eof) else if |Contents()| + n <= size then Ok(pseq) else Err(Blocked)
    {
      if done {
        return Err(Eof);
      }
      var next := pseq + n;
      var wrap := next - size;
      if wrap > gate || gate > pseq {
        if wrap > cseq {
          return Err(Blocked);
        }
        gate := cseq;
      }
      return Ok(pseq);
    }

    method Write(p: seq<byte>) returns (r: Result<nat, Fault>)
      requires Valid()
      modifies this`gate, this`pseq, buf
      ensures Valid() && SameRing()
      ensures r == if done then Err(Eof) else if |old(Contents())| + |p| <= size then Ok(|p|) else Err(Blocked)
      ensures Contents() == old(Contents()) + if r.Ok? then p else []
    {
      if done {
        return Err(Eof);
      }
      var w := WaitForWriteSpace(|p|);
      if w.Err? {
        return w;
      }
      var start := w.value;
      var at := Index(start);
      ghost var cells, head, count := buf[..], cseq % size, pseq - cseq;
      PositionCell(cseq, size, count);
      var total := RingCopy(buf, p, at);
      Appended(cells, head, count, p, buf[..]);
      pseq := start + |p|;
      return Ok(total);
    }

    /** The slice handed out for writing in place: where it starts, how long it is, and
        whether the room wraps (the slice then ends with the ring). */
    method WriteWait(n: nat) returns (r: Result<(nat, nat, bool), Fault>)
      requires Valid()
      modifies this`gate
      ensures Valid() && Contents() == old(Contents())
      ensures r.Err? ==> r.error == (if done then Eof else Blocked) && (done || |Contents()| + n > size)
      ensures r.Ok? ==> !done && |Contents()| + n <= size
      ensures r.Ok? ==> var (at, len, wrap) := r.value;
        && at == pseq % size && (wrap <==> at + n > size) && len == (if wrap then size - at else n) && at + len <= size
    {
      var w := WaitForWriteSpace(n);
      if w.Err? {
        return Err(w.error);
      }
      var at := Index(w.value);
      if at + n > size {
        return Ok((at, size - at, true));
      }
      return Ok((at, n, false));
    }

    /** Publishes n bytes that have been stored behind the window. */
    method WriteCommit(n: nat) returns (r: Result<nat, Fault>)
      requires Valid()
      modifies this`gate, this`pseq
      ensures Valid() && SameRing()
      ensures r == if done then Err(Eof) else if |old(Contents())| + n <= size then Ok(n) else Err(Blocked)
      ensures pseq == old(pseq) + (if r.Ok? then n else 0) && cseq == old(cseq)
    {
      var w := WaitForWriteSpace(n);
      if w.Err? {
        return w;
      }
      pseq := w.value + n;
      return Ok(n);
    }

    /** writeMessage: ask for room for len bytes, the length the message says it has, and encode in
        place if that room does not wrap, else into a scratch buffer. The encoder stores enc, which
        may be shorter, and may then fail. Either way it amounts to one Write of enc, or to nothing. */
    method WriteMessage(len: nat, enc: seq<byte>, fails: bool) returns (r: Result<nat, Fault>)
      requires Valid() && |enc| <= len
      modifies this`gate, this`pseq, buf
      ensures Valid() && SameRing()
      ensures r == if done then Err(Eof) else if |old(Contents())| + len > size then Err(Blocked)
                   else if fails then Err(Unencodable) else Ok(|enc|)
      ensures Contents() == old(Contents()) + if r.Ok? then enc else []
    {
      var w := WriteWait(len);
      if w.Err? {
        return Err(w.error);
      }
      var (at, _, wrap) := w.value;
      if wrap {
        if fails {
          return Err(Unencodable);
        }
        r := Write(enc);
      } else {
        StoreBehind(at, enc);
        if fails {
          return Err(Unencodable);
        }
        r := WriteCommit(|enc|);
      }
    }

    /** Bytes stored behind the window, not published yet. */
    method StoreBehind(at: nat, enc: seq<byte>)
      requires Valid() && at == pseq % size && at + |enc| <= size && |Contents()| + |enc| <= size
      modifies buf
      ensures Contents() == old(Contents())
      ensures Window(buf[..], cseq % size, pseq - cseq + |enc|) == old(Contents()) + enc
    {
      hide PowerOf2;
      ghost var cells, head, count := buf[..], cseq % size, pseq - cseq;
      PositionCell(cseq, size, count);
      Store(buf, at, enc);
      Appended(cells, head, count, enc, buf[..]);
    }

    /** Copies what fits up to the end of the ring, so it may return less than is there;
        what it returns is a prefix of the queue, and it is gone from the queue. */
    method Read(p: array<byte>) returns (r: Result<nat, Fault>)
      requires Valid() && p != buf
      modifies this`cseq, p
      ensures Valid() && SameRing() && buf[..] == old(buf[..])
      ensures r.Err? ==> r.error == (if done then Eof else Blocked) && old(Contents()) == [] && unchanged(this) && unchanged(p)
      ensures r.Ok? ==>
        && old(Contents()) != []
        && r.value == Min(p.Length, Min(|old(Contents())|, size - old(cseq) % size))
        && p[..r.value] == old(Contents())[..r.value] && p[r.value..] == old(p[r.value..])
        && Contents() == old(Contents())[r.value..]
    {
      hide Window, Cell, PowerOf2;
      if done && pseq - cseq == 0 {
        return Err(Eof);
      }
      var cpos, ppos := cseq, pseq;
      var cindex := Index(cpos);
      var n := ReadLength(p.Length, cpos, ppos, cindex);
      if n.None? {
        return Err(Blocked);
      }
      TakeOut(p, cindex, n.value);
      return Ok(n.value);
    }

    /** Copies n bytes that lie in one piece, and releases their cells. */
    method TakeOut(p: array<byte>, cindex: nat, n: nat)
      requires Valid() && p != buf && n <= p.Length && n <= pseq - cseq && cindex == cseq % size && cindex + n <= size
      modifies this`cseq, p
      ensures Valid() && SameRing() && buf[..] == old(buf[..])
      ensures p[..n] == old(Contents())[..n] && p[n..] == old(p[n..]) && Contents() == old(Contents())[n..]
    {
      hide Window, Cell, PowerOf2;
      Straight(n);
      Consumed(n);
      CopyOut(p, cindex, n);
      cseq := cseq + n;
    }

    /** How much Read copies: what is there, at most the target's length, not past the end of the ring. */
    method ReadLength(len: nat, cpos: nat, ppos: nat, cindex: nat) returns (n: Option<nat>)
      requires cpos <= ppos && cindex < size
      ensures n == if cpos == ppos then None else Some(Min(len, Min(ppos - cpos, size - cindex)))
    {
      if cpos + len < ppos {
        return Some(Min(len, size - cindex));
      }
      if cpos < ppos {
        var b := ppos - cpos;
        if cindex + b < size {
          return Some(Min(len, b));
        }
        return Some(Min(len, size - cindex));
      }
      return None;
    }

    /** Up to the end of the ring the unread bytes lie in one piece. */
    lemma Straight(n: nat)
      requires Valid() && n <= pseq - cseq && cseq % size + n <= size
      ensures buf[cseq % size..cseq % size + n] == Contents()[..n]
    {
      var cells := buf[..];
      WindowTake(cells, cseq % size, pseq - cseq, n);
      WindowParts(cells, cseq % size, n);
      assert cells[cseq % size..cseq % size + n] == buf[cseq % size..cseq % size + n];
    }

    method CopyOut(p: array<byte>, from: nat, n: nat)
      requires p != buf && n <= p.Length && from + n <= buf.Length
      modifies p
      ensures p[..n] == buf[from..from + n] && p[n..] == old(p[n..]) && buf[..] == old(buf[..])
    {
      forall i | 0 <= i < n { p[i] := buf[from + i]; }
    }

    /** Advancing the consumer drops a prefix of the queue. */
    lemma Consumed(n: nat)
      requires Valid() && n <= pseq - cseq
      ensures Window(buf[..], (cseq + n) % size, pseq - (cseq + n)) == Contents()[n..]
    {
      PositionCell(cseq, size, n);
      WindowDrop(buf[..], cseq % size, pseq - cseq, n);
    }

    /** The next n unread bytes in one piece, put together in `tmp` if they wrap. */
    method Peeked(n: nat) returns (b: seq<byte>)
      requires Valid() && n <= pseq - cseq
      modifies this`tmp
      ensures b == Contents()[..n]
    {
      var cindex := Index(cseq);
      WindowPrefix(buf[..], cindex, pseq - cseq, n);
      if cindex + n > size {
        var l := size - cindex;
        tmp := buf[cindex..] + buf[..n - l];
        assert buf[cindex..] == buf[..][cindex..] && buf[..n - l] == buf[..][..n - l];
        return tmp;
      }
      assert buf[cindex..cindex + n] == buf[..][cindex..cindex + n];
      return buf[cindex..cindex + n];
    }

    /** All that is there up to n bytes, flagged if it is less. */
    method ReadPeek(n: int) returns (r: Result<(seq<byte>, bool), Fault>)
      requires Valid()
      modifies this`tmp
      ensures Valid() && Contents() == old(Contents())
      ensures r == if n > size then Err(BufferFull) else if n < 0 then Err(NegativeCount)
                   else if Contents() == [] then Err(if done then Eof else Blocked)
                   else Ok((Contents()[..Min(n, |Contents()|)], |Contents()| < n))
    {
      if n > size {
        return Err(BufferFull);
      }
      if n < 0 {
        return Err(NegativeCount);
      }
      if cseq >= pseq {
        return Err(if done then Eof else Blocked);
      }
      var m := pseq - cseq;
      var short := false;
      if m >= n {
        m := n;
      } else {
        short := true;
      }
      var b := Peeked(m);
      return Ok((b, short));
    }

    /** Exactly n bytes, or nothing yet. */
    method ReadWait(n: int) returns (r: Result<seq<byte>, Fault>)
      requires Valid()
      modifies this`tmp
      ensures Valid() && Contents() == old(Contents())
      ensures r == if n > size then Err(BufferFull) else if n < 0 then Err(NegativeCount)
                   else if |Contents()| < n then Err(if done then Eof else Blocked)
                   else Ok(Contents()[..n])
    {
      if n > size {
        return Err(BufferFull);
      }
      if n < 0 {
        return Err(NegativeCount);
      }
      if cseq + n > pseq {
        return Err(if done then Eof else Blocked);
      }
      var b := Peeked(n);
      return Ok(b);
    }

    method ReadCommit(n: int) returns (r: Result<nat, Fault>)
      requires Valid()
      modifies this`cseq
      ensures Valid() && SameRing() && buf[..] == old(buf[..])
      ensures r == if n > size then Err(BufferFull) else if n < 0 then Err(NegativeCount)
                   else if |old(Contents())| < n then Err(Insufficient) else Ok(n)
      ensures Contents() == if r.Ok? then old(Contents())[n..] else old(Contents())
    {
      if n > size {
        return Err(BufferFull);
      }
      if n < 0 {
        return Err(NegativeCount);
      }
      if cseq + n <= pseq {
        Consumed(n);
        cseq := cseq + n;
        return Ok(n);
      }
      return Err(Insufficient);
    }

    /** The receiving loop. The i-th call of the source delivers calls[i].0 bytes, as far as they
        fit, and fails or not; whatever it delivers is queued in order. The number returned is the
        number of bytes queued, except that it is 0 when the loop ends for want of room. When the
        loop ends, for whatever reason, the ring is closed. */
    method ReadFrom(src: seq<byte>, calls: seq<(nat, bool)>) returns (total: nat, why: Option<Fault>, ghost queued: nat)
      requires Valid()
      modifies this`gate, this`pseq, this`done, buf
      ensures Valid() && buf == old(buf) && size == old(size) && mask == old(mask)
      ensures done == (old(done) || why.Some?)
      ensures queued <= |src| && Contents() == old(Contents()) + src[..queued]
      ensures (queued, why) == if old(done) then (0, Some(Eof)) else Receives(|src|, old(pseq), size - |old(Contents())|, size, calls)
      ensures total == if why == Some(Blocked) then 0 else queued
      ensures match why
        case Some(Eof) => old(done) && queued == 0
        case Some(Blocked) => !old(done) && |Contents()| + READ_BLOCK > size
        case Some(SourceFailed) => exists i :: 0 <= i < |calls| && calls[i].1
        case Some(_) => false
        case None => !old(done) && forall i :: 0 <= i < |calls| ==> !calls[i].1
    {
      hide Receives;
      WhyReceivingEnds(|src|, pseq, size - |Contents()|, size, calls);
      total, why, queued := Receiving(src, calls);
      if why.Some? {
        done := true;
      }
    }

    method Receiving(src: seq<byte>, calls: seq<(nat, bool)>) returns (total: nat, why: Option<Fault>, ghost queued: nat)
      requires Valid()
      modifies this`gate, this`pseq, buf
      ensures Valid() && SameRing()
      ensures queued <= |src| && Contents() == old(Contents()) + src[..queued]
      ensures (queued, why) == if old(done) then (0, Some(Eof)) else Receives(|src|, old(pseq), size - |old(Contents())|, size, calls)
      ensures total == if why == Some(Blocked) then 0 else queued
    {
      hide Window, PowerOf2, Cell, Contents, Receives, Chunk, Min;
      total, why, queued := 0, None, 0;
      if done {
        return 0, Some(Eof), 0;
      }
      ghost var whole := Receives(|src|, pseq, size - |Contents()|, size, calls);
      for i := 0 to |calls|
        invariant Valid() && SameRing() && !done && why == None && total == queued <= |src|
        invariant Contents() == old(Contents()) + src[..queued]
        invariant whole == More(queued, Receives(|src| - queued, pseq, size - |Contents()|, size, calls[i..]))
      {
        OneCall(|src| - queued, pseq, size - |Contents()|, size, calls, i);
        var n;
        n, why := ReceiveNext(src, total, calls[i]);
        MoreQueued(old(Contents()), src, queued, n);
        total, queued := total + n, queued + n;
        if why.Some? {
          return if why == Some(Blocked) then 0 else total, why, queued;
        }
      }
      NoCall(|src| - queued, pseq, size - |Contents()|, size, calls);
    }

    method ReceiveNext(src: seq<byte>, from: nat, call: (nat, bool)) returns (n: nat, why: Option<Fault>)
      requires Valid() && !done && from <= |src|
      modifies this`gate, this`pseq, buf
      ensures Valid() && SameRing() && pseq == old(pseq) + n
      ensures (n, why) == if size - |old(Contents())| < READ_BLOCK then (0, Some(Blocked))
                          else (Chunk(call.0, old(pseq), size, |src| - from), if call.1 then Some(SourceFailed) else None)
      ensures Contents() == old(Contents()) + src[from..from + n]
    {
      hide Window, PowerOf2, Cell, Chunk;
      var r := ReceiveSome(src, from, call.0);
      if r.Err? {
        assert old(Contents()) + [] == old(Contents());
        return 0, Some(r.error);
      }
      return r.value, if call.1 then Some(SourceFailed) else None;
    }

    /** One call of the source, into the room granted for it. */
    method ReceiveSome(src: seq<byte>, from: nat, k: nat) returns (r: Result<nat, Fault>)
      requires Valid() && !done && from <= |src|
      modifies this`gate, this`pseq, buf
      ensures Valid() && SameRing()
      ensures r.Err? <==> |old(Contents())| + READ_BLOCK > size
      ensures r.Err? ==> r.error == Blocked && Contents() == old(Contents())
      ensures r.Ok? ==>
        && r.value == Chunk(k, old(pseq), size, |src| - from)
        && r.value == Min(k, Min(READ_BLOCK, Min(size - old(pseq) % size, |src| - from)))
        && pseq == old(pseq) + r.value && Contents() == old(Contents()) + src[from..from + r.value]
    {
      hide Window, PowerOf2, Cell;
      var w := WaitForWriteSpace(READ_BLOCK);
      if w.Err? {
        return w;
      }
      var at := Index(w.value);
      var end := Min(at + READ_BLOCK, size);
      var n := Min(k, Min(end - at, |src| - from));
      if n > 0 {
        Receive(at, src[from..from + n]);
      }
      return Ok(n);
    }

    /** One delivery: the source fills the slice it was given, then the bytes are published. */
    method Receive(at: nat, chunk: seq<byte>)
      requires Valid() && !done && at == pseq % size && at + |chunk| <= size && |Contents()| + |chunk| <= size
      modifies this`gate, this`pseq, buf
      ensures Valid() && SameRing() && Contents() == old(Contents()) + chunk && pseq == old(pseq) + |chunk|
    {
      StoreBehind(at, chunk);
      var _ := WriteCommit(|chunk|);
    }
  }

  lemma OneCall(left: nat, pos: nat, room: nat, size: nat, calls: seq<(nat, bool)>, i: nat)
    requires size > 0 && i < |calls|
    ensures var r := Receives(left, pos, room, size, calls[i..]);
      if room < READ_BLOCK then r == (0, Some(Blocked))
      else
        var n := Chunk(calls[i].0, pos, size, left);
        if calls[i].1 then r == (n, Some(SourceFailed))
        else r == More(n, Receives(left - n, pos + n, room - n, size, calls[i + 1..]))
  {
    assert calls[i..][1..] == calls[i + 1..];
  }

  lemma NoCall(left: nat, pos: nat, room: nat, size: nat, calls: seq<(nat, bool)>)
    requires size > 0
    ensures Receives(left, pos, room, size, calls[|calls|..]) == (0, None)
  {
  }

  lemma MoreQueued(q: seq<byte>, src: seq<byte>, at: nat, n: nat)
    requires at + n <= |src|
    ensures (q + src[..at]) + src[at..at + n] == q + src[..at + n]
  {
    assert src[..at] + src[at..at + n] == src[..at + n];
  }

  const DEFAULT_SIZE := 4096

  /** newBuffer refuses sizes that are negative, no power of two or below two read blocks. */
  method NewBuffer(n: int) returns (r: Option<Ring>)
    ensures r.Some? <==> n == 0 || (n >= 2 * READ_BLOCK && PowerOf2(n))
    ensures r.Some? ==> fresh(r.value) && r.value.Valid() && r.value.Contents() == [] && r.value.size == (if n == 0 then DEFAULT_SIZE else n)
  {
    if n < 0 {
      return None;
    }
    var size := if n == 0 then DEFAULT_SIZE else n;
    PowerOfTwoTest(size);
    if n == 0 { DefaultIsPower(); }
    if !IsPowerOfTwo(size) {
      return None;
    }
    if size / 2 < READ_BLOCK {
      return None;
    }
    var b := new Ring(size);
    return Some(b);
  }

  lemma DefaultIsPower()
    ensures PowerOf2(DEFAULT_SIZE)
  {
    assert Pow2(4) == 16;
    Pow2Add(4, 4);
    Pow2Add(8, 4);
    assert Pow2(12) == 4096;
  }

  /** Storing p behind the window, straight or round the end, and nowhere else. */
  lemma Appended(cells: seq<byte>, head: nat, count: nat, p: seq<byte>, after: seq<byte>)
    requires head < |cells| && count + |p| <= |cells| == |after|
    requires var at := Cell(head, |cells|, count);
      || (forall i :: 0 <= i < |cells| ==> after[Cell(at, |cells|, i)] == if i < |p| then p[i] else cells[Cell(at, |cells|, i)])
      || (at + |p| <= |cells| && after == cells[..at] + p + cells[at + |p|..])
    ensures Window(after, head, count + |p|) == Window(cells, head, count) + p
    ensures Window(after, head, count) == Window(cells, head, count)
  {
    var at := Cell(head, |cells|, count);
    forall i | 0 <= i < |p| ensures after[Cell(head, |cells|, count + i)] == p[i] {
      CellAdd(head, |cells|, count, i);
      assert after[Cell(at, |cells|, i)] == p[i];
    }
    forall i | 0 <= i < count ensures after[Cell(head, |cells|, i)] == cells[Cell(head, |cells|, i)] {
      // i is the (size - count + i)-th cell from `at` on
      assert Cell(at, |cells|, |cells| - count + i) == Cell(head, |cells|, i);
    }
    WindowAppend(cells, head, count, p, after);
    assert Window(after, head, count) == Window(cells, head, count);
  }
}
