/** The queue of messages waiting for their acknowledgement: a growing ring with an index
    by packet identifier, refining a first-in first-out list updated in place. */
module AckQueue {
  import opened Common
  import opened Bits
  import opened RingWindow

  datatype MsgType = RESERVED | CONNECT | CONNACK | PUBLISH | PUBACK | PUBREC | PUBREL | PUBCOMP
                   | SUBSCRIBE | SUBACK | UNSUBSCRIBE | UNSUBACK | PINGREQ | PINGRESP | DISCONNECT | AUTH

  /** A packet, with the bytes its encoder leaves in the buffer, and whether it fails. */
  datatype Message = Publish(id: uint16, qos: byte, dup: bool, body: seq<byte>, fails: bool)
                   | Packet(mtype: MsgType, pid: uint16, bytes: seq<byte>, refuses: bool)
  {
    function Type(): MsgType {
      if Publish? then PUBLISH else mtype
    }
    function Id(): uint16 {
      if Publish? then id else pid
    }
    function Body(): seq<byte> {
      if Publish? then body else bytes
    }
    predicate Fails() {
      if Publish? then fails else refuses
    }
  }

  datatype Ackmsg = Ackmsg(mtype: MsgType, state: MsgType, pktid: uint16, msgbuf: seq<byte>, ackbuf: seq<byte>)

  const NoMsg := Ackmsg(RESERVED, RESERVED, 0, [], [])

  // ----- the list it stands for -----

  type Live = seq<Ackmsg>

  function Fresh(m: Message): Ackmsg {
    Ackmsg(m.Type(), RESERVED, m.Id(), m.Body(), [])
  }

  ghost predicate Waiting(q: Live, id: uint16) {
    exists i :: 0 <= i < |q| && q[i].pktid == id
  }

  ghost predicate DistinctIds(q: Live) {
    forall i, j :: 0 <= i < j < |q| ==> q[i].pktid != q[j].pktid
  }

  /** A message enters the queue unless its identifier is already waiting - then it is a
      retransmission - or it cannot be encoded. */
  ghost predicate Enters(q: Live, m: Message) {
    !Waiting(q, m.Id()) && !m.Fails()
  }

  ghost function Enqueue(q: Live, m: Message): Live {
    if Enters(q, m) then q + [Fresh(m)] else q
  }

  /** The packets Wait puts in the queue. */
  predicate Queues(m: Message) {
    if m.Publish? then m.qos != 0 else m.mtype in {SUBSCRIBE, UNSUBSCRIBE}
  }

  function Mark(a: Ackmsg, ack: Message): Ackmsg {
    if a.pktid == ack.Id() then a.(state := ack.Type(), ackbuf := ack.Body()) else a
  }

  /** An acknowledgement updates its entry in place, even if it cannot be encoded. */
  function MarkAll(q: Live, ack: Message): (r: Live)
    ensures |r| == |q| && forall i :: 0 <= i < |q| ==> r[i] == Mark(q[i], ack)
  {
    seq(|q|, i requires 0 <= i < |q| => Mark(q[i], ack))
  }

  predicate Completed(s: MsgType) {
    s in {PUBACK, PUBREL, PUBCOMP, SUBACK, UNSUBACK}
  }

  /** The length of the longest completed prefix. */
  function DoneLen(q: Live): (n: nat)
    ensures n <= |q| && (forall i :: 0 <= i < n ==> Completed(q[i].state))
    ensures n < |q| ==> !Completed(q[n].state)
  {
    if q == [] || !Completed(q[0].state) then 0 else 1 + DoneLen(q[1..])
  }

  predicate IsAck(t: MsgType) {
    t in {PUBACK, PUBREC, PUBREL, PUBCOMP, SUBACK, UNSUBACK}
  }

  // ----- the ring -----

  lemma WindowPop(cells: seq<Ackmsg>, head: nat, count: nat)
    requires head < |cells| && 0 < count <= |cells|
    ensures Window(cells[head := NoMsg], Cell(head, |cells|, 1), count - 1) == Window(cells, head, count)[1..]
  {
  }

  lemma WindowPush(cells: seq<Ackmsg>, head: nat, count: nat, am: Ackmsg)
    requires head < |cells| && count < |cells|
    ensures Window(cells[Cell(head, |cells|, count) := am], head, count + 1) == Window(cells, head, count) + [am]
  {
  }

  lemma CellNext(head: nat, size: nat, count: nat)
    requires head < size && 0 < count <= size
    ensures Cell(head, size, count) == Cell(Cell(head, size, 1), size, count - 1) && Cell(head, size, 0) == head
  {
  }

  lemma WindowUnrolled(cells: seq<Ackmsg>, head: nat, count: nat, wide: seq<Ackmsg>)
    requires head < |cells| && count <= |cells| <= |wide| && 0 < |wide|
    requires forall i :: 0 <= i < count ==> wide[i] == cells[Cell(head, |cells|, i)]
    ensures Window(wide, 0, count) == Window(cells, head, count)
  {
  }

  /** The map leads from each waiting identifier to its cell, and from nothing else. */
  ghost predicate Indexes(emap: map<uint16, nat>, q: Live, head: nat, size: nat)
    requires head < size && |q| <= size
  {
    && (forall i :: 0 <= i < |q| ==> q[i].pktid in emap && emap[q[i].pktid] == Cell(head, size, i))
    && (forall id :: id in emap ==> Waiting(q, id))
  }

  lemma IndexPopped(emap: map<uint16, nat>, q: Live, head: nat, size: nat)
    requires head < size && 0 < |q| <= size && Indexes(emap, q, head, size) && DistinctIds(q)
    ensures Indexes(emap - {q[0].pktid}, q[1..], Cell(head, size, 1), size) && DistinctIds(q[1..])
  {
  }

  /** The cells, window and index left by removeHead. */
  lemma Popped(emap: map<uint16, nat>, cells: seq<Ackmsg>, head: nat, count: nat)
    requires head < |cells| && 0 < count <= |cells|
    requires Indexes(emap, Window(cells, head, count), head, |cells|) && DistinctIds(Window(cells, head, count))
    ensures var head', left := Cell(head, |cells|, 1), Window(cells[head := NoMsg], Cell(head, |cells|, 1), count - 1);
      && left == Window(cells, head, count)[1..]
      && Indexes(emap - {cells[head].pktid}, left, head', |cells|) && DistinctIds(left)
  {
    WindowPop(cells, head, count);
    IndexPopped(emap, Window(cells, head, count), head, |cells|);
  }

  lemma IndexPushed(emap: map<uint16, nat>, q: Live, am: Ackmsg, head: nat, size: nat)
    requires head < size && |q| < size && Indexes(emap, q, head, size) && !Waiting(q, am.pktid) && DistinctIds(q)
    ensures Indexes(emap[am.pktid := Cell(head, size, |q|)], q + [am], head, size) && DistinctIds(q + [am])
  {
  }

  lemma NotBefore(q: Live, i: nat)
    requires DistinctIds(q) && i < |q|
    ensures forall j :: 0 <= j < i ==> q[j].pktid != q[i].pktid
  {
  }

  /** Marking keeps identifiers, so the index stays right. */
  lemma IndexMarked(emap: map<uint16, nat>, q: Live, ack: Message, head: nat, size: nat)
    requires head < size && |q| <= size && Indexes(emap, q, head, size) && DistinctIds(q)
    ensures Indexes(emap, MarkAll(q, ack), head, size) && DistinctIds(MarkAll(q, ack))
  {
  }

  lemma WindowMarked(emap: map<uint16, nat>, cells: seq<Ackmsg>, head: nat, count: nat, ack: Message)
    requires head < |cells| && count <= |cells|
    requires Indexes(emap, Window(cells, head, count), head, |cells|) && DistinctIds(Window(cells, head, count))
    requires ack.Id() in emap
    ensures var i := emap[ack.Id()];
      && i < |cells| && cells[i].pktid == ack.Id()
      && Window(cells[i := Mark(cells[i], ack)], head, count) == MarkAll(Window(cells, head, count), ack)
  {
  }

  lemma NobodyMarked(emap: map<uint16, nat>, q: Live, head: nat, size: nat, ack: Message)
    requires head < size && |q| <= size && Indexes(emap, q, head, size) && ack.Id() !in emap
    ensures MarkAll(q, ack) == q
  {
  }

  lemma Absent(emap: map<uint16, nat>, q: Live, head: nat, size: nat, id: uint16)
    requires head < size && |q| <= size && Indexes(emap, q, head, size)
    ensures id in emap <==> Waiting(q, id)
  {
  }

  const MAX_INT64 := 0x7FFF_FFFF_FFFF_FFFF

  class Queue {
    var size: nat
    var mask: int
    var count: nat
    var head: nat
    var tail: nat
    var ping: Ackmsg
    var ring: array<Ackmsg>
    var emap: map<uint16, nat>
    var ackdone: seq<Ackmsg>

    ghost function Slot(i: nat): nat
      requires head < size && i <= size
      reads `head, `size
    {
      Cell(head, size, i)
    }

    ghost predicate Shape()
      reads `ring, `size, `mask, `count, `head, `tail
    {
      && ring.Length == size && PowerOf2(size) && mask == size - 1
      && count <= size && head < size && tail == Cell(head, size, count)
    }

    ghost function Contents(): (q: Live)
      requires Shape()
      reads `ring, `size, `mask, `count, `head, `tail, ring
      ensures |q| == count && forall i :: 0 <= i < count ==> q[i] == ring[Slot(i)]
    {
      Window(ring[..], head, count)
    }

    ghost predicate Valid()
      reads `ring, `size, `mask, `count, `head, `tail, `emap, ring
    {
      Shape() && Indexes(emap, Contents(), head, size) && DistinctIds(Contents())
    }

    /** A queue for 0 messages gets a ring that is no ring: it cannot take, or grow to take, any. */
    constructor (n: nat)
      requires n <= Pow2(62)
      ensures fresh(ring) && ping == NoMsg
      ensures n > 0 ==> Valid() && Contents() == [] && n <= size && forall p: nat :: PowerOf2(p) && n <= p ==> size <= p
      ensures n == 0 ==> size == ring.Length == count == 0 && emap == map[]
    {
      hide IsPowerOfTwo, Cascade, Pow2;
      if n > 0 { RoundUpIsLeast(n); }
      PowerOfTwoTest(n);
      var m := n;
      if !IsPowerOfTwo(m) {
        m := RoundUp(m);
      }
      size, mask, count, head, tail := m, m as int - 1, 0, 0, 0;
      ping := NoMsg;
      ring := new Ackmsg[m](_ => NoMsg);
      emap := map[];
      ackdone := [];
    }

    /** `(n + 1) & mask` steps round the ring. */
    method Increment(n: nat) returns (r: nat)
      requires Shape() && n < size
      ensures r == Cell(n, size, 1)
    {
      var k: nat :| size == Pow2(k);
      MaskIsMod(n + 1, k);
      WrapOnce(n + 1, size);
      r := And(n + 1, mask);
    }

    method RemoveHead()
      requires Valid() && count > 0
      modifies this`head, this`count, this`emap, ring
      ensures Valid() && Contents() == old(Contents())[1..]
    {
      hide Window, Indexes, DistinctIds, PowerOf2, Cell;
      ghost var cells := ring[..];
      CellNext(head, size, count);
      Popped(emap, cells, head, count);
      var it := ring[head];
      var next := Increment(head);
      ghost var left := Window(cells[head := NoMsg], next, count - 1);
      ring[head] := NoMsg;
      assert ring[..] == cells[head := NoMsg];
      head, count, emap := next, count - 1, emap - {it.pktid};
      Settled(left);
    }

    lemma Oldest()
      requires Valid() && count > 0
      ensures ring[head] == Contents()[0]
    {
    }

    /** Valid, put together from its parts. */
    lemma Settled(q: Live)
      requires Shape() && Contents() == q && Indexes(emap, q, head, size) && DistinctIds(q)
      ensures Valid()
    {
    }

    /** Doubling the ring unrolls it. The original panics when the size would leave int64. */
    method Grow()
      requires Valid() && size <= MAX_INT64 / 2
      modifies this`size, this`mask, this`head, this`tail, this`ring, this`emap
      ensures Valid() && fresh(ring) && Contents() == old(Contents()) && size == 2 * old(size)
    {
      hide Window, Indexes, PowerOf2, Pow2;
      var newring := Unrolled(size * 2);
      WindowUnrolled(ring[..], head, count, newring[..]);
      DoublePower(size);
      size := size * 2;
      mask := size - 1;
      ring, head, tail := newring, 0, count;
      Reindex();
    }

    /** The two copies of grow: the window moves to the front of a wider ring. */
    method Unrolled(newsize: nat) returns (newring: array<Ackmsg>)
      requires Shape() && newsize >= size
      ensures fresh(newring) && newring.Length == newsize
      ensures forall i :: 0 <= i < count ==> newring[i] == ring[Slot(i)]
    {
      newring := new Ackmsg[newsize](_ => NoMsg);
      if tail > head {
        forall i | 0 <= i < tail - head { newring[i] := ring[head + i]; }
      } else {
        forall i | 0 <= i < size - head { newring[i] := ring[head + i]; }
        forall i | 0 <= i < tail { newring[size - head + i] := ring[i]; }
      }
    }

    method Reindex()
      requires Shape() && head == 0 && tail == count && DistinctIds(Contents())
      modifies this`emap
      ensures Valid()
    {
      hide Window, PowerOf2, DistinctIds;
      ghost var q := Contents();
      emap := map[];
      var i := 0;
      while i < tail
        invariant i <= tail && Shape() && Contents() == q
        invariant forall j :: 0 <= j < i ==> q[j].pktid in emap && emap[q[j].pktid] == j
        invariant forall id :: id in emap ==> Waiting(q, id)
      {
        assert q[i] == ring[i] && Waiting(q, q[i].pktid);
        NotBefore(q, i);
        emap := emap[ring[i].pktid := i];
        i := i + 1;
      }
    }

    /** The error is reported for a message that cannot be encoded, and for a duplicate that is no
        PUBLISH or has its DUP flag set, as the code tests it; all of these leave the queue as it was. */
    method Insert(msg: Message) returns (err: bool)
      requires Valid()
      modifies this, ring
      ensures Valid() && ping == old(ping) && ackdone == old(ackdone) && (ring == old(ring) || fresh(ring))
      ensures Contents() == Enqueue(old(Contents()), msg)
      ensures err <==> if Waiting(old(Contents()), msg.Id()) then !msg.Publish? || msg.dup else msg.Fails()
    {
      hide Window, Cell, PowerOf2, DistinctIds, Indexes;
      ghost var q := Contents();
      Absent(emap, q, head, size, msg.Id());
      if count == size {
        IdsBounded(q);
        Grow();
        Absent(emap, q, head, size, msg.Id());
      }
      if msg.Id() !in emap {
        if msg.Fails() {
          return true;
        }
        Place(Fresh(msg));
        return false;
      } else if !msg.Publish? {
        return true;
      }
      return msg.dup;
    }

    method Place(am: Ackmsg)
      requires Valid() && count < size && am.pktid !in emap
      modifies this`emap, this`tail, this`count, ring
      ensures Valid() && Contents() == old(Contents()) + [am]
    {
      hide Window, Indexes, DistinctIds, PowerOf2;
      ghost var q, cells := Contents(), ring[..];
      WindowPush(cells, head, count, am);
      var slot := tail;
      var next := Increment(slot);
      Absent(emap, q, head, size, am.pktid);
      IndexPushed(emap, q, am, head, size);
      ring[slot] := am;
      assert ring[..] == cells[slot := am];
      emap, tail, count := emap[am.pktid := slot], next, count + 1;
      Settled(q + [am]);
    }

    /** Wait ignores what insert reports. */
    method Wait(msg: Message) returns (err: bool)
      requires Valid()
      modifies this, ring
      ensures Valid() && ackdone == old(ackdone) && (ring == old(ring) || fresh(ring))
      ensures Contents() == LiveStep(old(Contents()), CallWait(msg))
      ensures var queued := if msg.Publish? then msg.qos != 0 else msg.mtype in {SUBSCRIBE, UNSUBSCRIBE};
        && Contents() == (if queued then Enqueue(old(Contents()), msg) else old(Contents()))
        && ping == (if !msg.Publish? && msg.mtype == PINGREQ then NoMsg.(mtype := PINGREQ) else old(ping))
        && (err <==> !queued && msg.Type() != PINGREQ)
    {
      if msg.Publish? {
        if msg.qos == 0 {
          return true;
        }
        var _ := Insert(msg);
      } else if msg.mtype == SUBSCRIBE || msg.mtype == UNSUBSCRIBE {
        var _ := Insert(msg);
      } else if msg.mtype == PINGREQ {
        ping := Ackmsg(PINGREQ, RESERVED, 0, [], []);
      } else {
        return true;
      }
      return false;
    }

    method MarkOne(msg: Message) returns (found: bool)
      requires Valid()
      modifies ring
      ensures Valid() && Contents() == MarkAll(old(Contents()), msg) && found == Waiting(old(Contents()), msg.Id())
    {
      ghost var q, cells := Contents(), ring[..];
      IndexMarked(emap, q, msg, head, size);
      found := msg.Id() in emap;
      if found {
        var i := emap[msg.Id()];
        WindowMarked(emap, cells, head, count, msg);
        ring[i] := ring[i].(state := msg.Type(), ackbuf := msg.Body());
        assert ring[..] == cells[i := Mark(cells[i], msg)];
      } else {
        NobodyMarked(emap, q, head, size, msg);
      }
    }

    method Ack(msg: Message) returns (err: bool)
      requires Valid()
      modifies this`ping, ring
      ensures Valid()
      ensures Contents() == LiveStep(old(Contents()), CallAck(msg))
      ensures ping == if msg.Type() == PINGRESP && old(ping).mtype == PINGREQ then old(ping).(state := PINGRESP) else old(ping)
      ensures err <==> if IsAck(msg.Type()) then Waiting(old(Contents()), msg.Id()) && msg.Fails() else msg.Type() != PINGRESP
    {
      var t := msg.Type();
      if t in {PUBACK, PUBREC, PUBREL, PUBCOMP, SUBACK, UNSUBACK} {
        var found := MarkOne(msg);
        return found && msg.Fails();
      } else if t == PINGRESP {
        if ping.mtype == PINGREQ {
          ping := ping.(state := PINGRESP);
        }
      } else {
        return true;
      }
      return false;
    }

    /** Releases the longest completed prefix, and the ping if it has been answered. */
    method Acked() returns (done: seq<Ackmsg>)
      requires Valid()
      modifies this`ackdone, this`ping, this`head, this`count, this`emap, ring
      ensures Valid() && done == ackdone
      ensures Contents() == LiveStep(old(Contents()), CallAcked)
      ensures done == (if old(ping).state == PINGRESP then [old(ping)] else []) + Done(old(Contents()))
      ensures ping == if old(ping).state == PINGRESP then NoMsg else old(ping)
    {
      ackdone := [];
      if ping.state == PINGRESP {
        ackdone, ping := [ping], NoMsg;
      }
      Drain();
      done := ackdone;
    }

    /** The loop of Acked. */
    method Drain()
      requires Valid()
      modifies this`ackdone, this`head, this`count, this`emap, ring
      ensures Valid() && Contents() == NotDone(old(Contents())) && ackdone == old(ackdone) + Done(old(Contents()))
    {
      hide Window, Cell, Indexes, DistinctIds, Done, NotDone, DoneLen, PowerOf2;
      ghost var q, first := Contents(), ackdone;
      while count != 0
        invariant Valid()
        invariant ackdone + Done(Contents()) == first + Done(q) && NotDone(Contents()) == NotDone(q)
        decreases count
      {
        ghost var c, before := Contents(), ackdone;
        DoneStep(c);
        Oldest();
        if ring[head].state !in {PUBACK, PUBREL, PUBCOMP, SUBACK, UNSUBACK} {
          break;
        }
        ackdone := ackdone + [ring[head]];
        RemoveHead();
        AppendOne(before, c[0], Done(c[1..]));
      }
      DoneStep(Contents());
    }
  }

  function Done(q: Live): Live {
    q[..DoneLen(q)]
  }

  function NotDone(q: Live): Live {
    q[DoneLen(q)..]
  }

  lemma AppendOne(a: Live, x: Ackmsg, b: Live)
    ensures (a + [x]) + b == a + ([x] + b)
  {
  }

  lemma DoneStep(q: Live)
    ensures q == [] || !Completed(q[0].state) ==> Done(q) == [] && NotDone(q) == q
    ensures q != [] && Completed(q[0].state) ==> Done(q) == [q[0]] + Done(q[1..]) && NotDone(q) == NotDone(q[1..])
  {
  }

  lemma DoublePower(n: nat)
    requires PowerOf2(n)
    ensures PowerOf2(2 * n)
  {
    var k: nat :| n == Pow2(k);
    assert 2 * n == Pow2(k + 1);
  }

  // ----- identifiers are few -----

  function IdSet(q: Live): set<int> {
    set a | a in q :: a.pktid as int
  }

  function Below(n: nat): set<int> {
    if n == 0 then {} else Below(n - 1) + {n - 1}
  }

  lemma {:induction false} BelowSize(n: nat)
    ensures |Below(n)| == n && forall i :: i in Below(n) <==> 0 <= i < n
  {
    if n > 0 { BelowSize(n - 1); }
  }

  lemma {:induction false} IdSetSize(q: Live)
    requires DistinctIds(q)
    ensures |IdSet(q)| == |q|
  {
    if q != [] {
      var init, last := q[..|q| - 1], q[|q| - 1];
      IdSetSize(init);
      assert q == init + [last];
      assert IdSet(q) == IdSet(init) + {last.pktid};
      assert last.pktid !in IdSet(init);
    }
  }

  lemma SubsetSize(a: set<int>, b: set<int>)
    requires a <= b
    ensures |a| <= |b|
  {
    assert b == a + (b - a);
  }

  /** Sixteen-bit identifiers keep the queue at or below 65536 messages. */
  lemma IdsBounded(q: Live)
    requires DistinctIds(q)
    ensures |q| <= 0x1_0000
  {
    IdSetSize(q);
    BelowSize(0x1_0000);
    SubsetSize(IdSet(q), Below(0x1_0000));
  }

  // ----- whole runs -----

  datatype Call = CallWait(m: Message) | CallAck(ack: Message) | CallAcked

  datatype Calls = Begin | Then(past: Calls, now: Call)

  ghost function LiveStep(q: Live, c: Call): Live {
    match c
    case CallWait(m) => if Queues(m) then Enqueue(q, m) else q
    case CallAck(ack) => if IsAck(ack.Type()) then MarkAll(q, ack) else q
    case CallAcked => NotDone(q)
  }

  ghost function ReleaseStep(q: Live, c: Call): Live {
    if c.CallAcked? then Done(q) else []
  }

  ghost function LiveAfter(cs: Calls): Live {
    if cs == Begin then [] else LiveStep(LiveAfter(cs.past), cs.now)
  }

  ghost function ReleasedAfter(cs: Calls): Live {
    if cs == Begin then [] else ReleasedAfter(cs.past) + ReleaseStep(LiveAfter(cs.past), cs.now)
  }

  /** What does not change while a message waits. */
  type Key = (MsgType, uint16, seq<byte>)

  function Keys(q: Live): (r: seq<Key>)
    ensures |r| == |q| && forall i :: 0 <= i < |q| ==> r[i] == (q[i].mtype, q[i].pktid, q[i].msgbuf)
  {
    seq(|q|, i requires 0 <= i < |q| => (q[i].mtype, q[i].pktid, q[i].msgbuf))
  }

  /** What one call adds to the messages that entered. */
  ghost function Entering(q: Live, c: Call): seq<Key> {
    if c.CallWait? && Queues(c.m) && Enters(q, c.m) then [(c.m.Type(), c.m.Id(), c.m.Body())] else []
  }

  /** The messages that entered the queue, in order. */
  ghost function Inserted(cs: Calls): seq<Key> {
    if cs == Begin then [] else Inserted(cs.past) + Entering(LiveAfter(cs.past), cs.now)
  }

  lemma ReleaseKeepsKeys(r: Live, q: Live)
    ensures Keys(r + Done(q)) + Keys(NotDone(q)) == Keys(r) + Keys(q)
  {
  }

  lemma RestDistinct(q: Live)
    requires DistinctIds(q)
    ensures DistinctIds(NotDone(q))
  {
  }

  lemma MarkKeepsKeys(q: Live, ack: Message)
    requires DistinctIds(q)
    ensures Keys(MarkAll(q, ack)) == Keys(q) && DistinctIds(MarkAll(q, ack))
  {
  }

  lemma EnqueueKeepsOrder(q: Live, m: Message)
    requires DistinctIds(q)
    ensures Keys(Enqueue(q, m)) == Keys(q) + if Enters(q, m) then [(m.Type(), m.Id(), m.Body())] else []
    ensures DistinctIds(Enqueue(q, m))
  {
  }

  lemma StepInOrder(r: Live, q: Live, c: Call)
    requires DistinctIds(q)
    ensures (Keys(r) + Keys(q)) + Entering(q, c) == Keys(r + ReleaseStep(q, c)) + Keys(LiveStep(q, c))
    ensures DistinctIds(LiveStep(q, c))
  {
    hide Keys, DistinctIds, Enqueue, Enters, MarkAll, Done, NotDone;
    assert r + [] == r;
    match c
    case CallWait(m) =>
      EnqueueKeepsOrder(q, m);
      ConcatAssoc(Keys(r), Keys(q), Entering(q, c));
      assert Keys(q) + [] == Keys(q);
    case CallAck(ack) =>
      MarkKeepsKeys(q, ack);
      assert (Keys(r) + Keys(q)) + [] == Keys(r) + Keys(q);
    case CallAcked =>
      ReleaseKeepsKeys(r, q);
      RestDistinct(q);
      assert (Keys(r) + Keys(q)) + [] == Keys(r) + Keys(q);
  }

  /** First in, first out: at any time what entered is what has been released, followed by
      what waits, with distinct identifiers. */
  lemma {:induction false} FirstInFirstOut(cs: Calls)
    ensures Inserted(cs) == Keys(ReleasedAfter(cs)) + Keys(LiveAfter(cs))
    ensures DistinctIds(LiveAfter(cs))
  {
    hide DistinctIds, LiveStep, ReleaseStep, Entering;
    if cs.Then? {
      FirstInFirstOut(cs.past);
      StepInOrder(ReleasedAfter(cs.past), LiveAfter(cs.past), cs.now);
    } else {
      NothingYet();
    }
  }

  lemma NothingYet()
    ensures [] == Keys([]) + Keys([]) && DistinctIds([])
  {
  }

  /** Nothing is released before its final acknowledgement. */
  lemma {:induction false} ReleasedWereComplete(cs: Calls)
    ensures forall i :: 0 <= i < |ReleasedAfter(cs)| ==> Completed(ReleasedAfter(cs)[i].state)
  {
    if cs.Then? {
      ReleasedWereComplete(cs.past);
    }
  }

  // ----- which acknowledgement ends an exchange -----

  /** The type of the last acknowledgement that has come for this identifier since a message with
      it entered the queue. */
  ghost function Recorded(cs: Calls, id: uint16): MsgType {
    match cs
    case Begin => RESERVED
    case Then(past, CallAck(ack)) =>
      if ack.Id() == id && ack.Type() in {PUBACK, PUBREC, PUBREL, PUBCOMP, SUBACK, UNSUBACK} then ack.Type() else Recorded(past, id)
    case Then(past, CallWait(m)) =>
      if m.Id() == id && !Waiting(LiveAfter(past), id) then RESERVED else Recorded(past, id)
    case Then(past, CallAcked) => Recorded(past, id)
  }

  ghost predicate AllRecorded(cs: Calls, q: Live) {
    forall a :: a in q ==> a.state == Recorded(cs, a.pktid)
  }

  lemma {:induction false} StatesRecorded(cs: Calls)
    ensures AllRecorded(cs, LiveAfter(cs))
  {
    if cs.Then? {
      var q := LiveAfter(cs.past);
      StatesRecorded(cs.past);
      match cs.now
      case CallWait(m) =>
        forall a | a in LiveAfter(cs) ensures a.state == Recorded(cs, a.pktid) {
          if a in q { var i :| 0 <= i < |q| && q[i] == a; }
        }
      case CallAck(ack) =>
        forall a | a in LiveAfter(cs) ensures a.state == Recorded(cs, a.pktid) {
          var i :| 0 <= i < |q| && a == LiveAfter(cs)[i];
          assert q[i] in q;
        }
      case CallAcked =>
    }
  }

  /** What Acked releases after any run: the entries up to the first one whose last acknowledgement
      is missing or is PUBREC - whatever kind of message they are. */
  lemma ReleasedExactly(cs: Calls) returns (k: nat)
    ensures var q := LiveAfter(cs);
      && k <= |q| && LiveAfter(Then(cs, CallAcked)) == q[k..]
      && ReleasedAfter(Then(cs, CallAcked)) == ReleasedAfter(cs) + q[..k]
      && (forall i :: 0 <= i < k ==> Recorded(cs, q[i].pktid) in {PUBACK, PUBREL, PUBCOMP, SUBACK, UNSUBACK})
      && (k < |q| ==> Recorded(cs, q[k].pktid) in {RESERVED, PUBREC})
  {
    hide LiveAfter, ReleasedAfter, Recorded, DoneLen;
    var q := LiveAfter(cs);
    StatesRecorded(cs);
    k := DoneLen(q);
    AckedTakes(cs);
    forall i | 0 <= i < |q| ensures q[i].state == Recorded(cs, q[i].pktid) {
      assert q[i] in q;
    }
    if k < |q| { OnlyAcksRecorded(cs, q[k].pktid); }
  }

  lemma AckedTakes(cs: Calls)
    ensures LiveAfter(Then(cs, CallAcked)) == NotDone(LiveAfter(cs))
    ensures ReleasedAfter(Then(cs, CallAcked)) == ReleasedAfter(cs) + Done(LiveAfter(cs))
  {
  }

  lemma {:induction false} OnlyAcksRecorded(cs: Calls, id: uint16)
    ensures Recorded(cs, id) in {RESERVED, PUBACK, PUBREC, PUBREL, PUBCOMP, SUBACK, UNSUBACK}
  {
    if cs.Then? { OnlyAcksRecorded(cs.past, id); }
  }

  /** The oldest entry goes with the next Acked exactly when the acknowledgement that has just come
      for it ends its exchange: PUBACK, PUBREL, PUBCOMP, SUBACK and UNSUBACK do, PUBREC does not. */
  lemma ExchangeEnds(cs: Calls, ack: Message)
    requires LiveAfter(cs) != [] && LiveAfter(cs)[0].pktid == ack.Id()
    requires ack.Type() in {PUBACK, PUBREC, PUBREL, PUBCOMP, SUBACK, UNSUBACK}
    ensures var r, after := ReleasedAfter(cs), Then(Then(cs, CallAck(ack)), CallAcked);
      && (ack.Type() == PUBREC ==> ReleasedAfter(after) == r && |LiveAfter(after)| == |LiveAfter(cs)|)
      && (ack.Type() != PUBREC ==> r + [LiveAfter(cs)[0].(state := ack.Type(), ackbuf := ack.Body())] <= ReleasedAfter(after))
  {
    hide LiveAfter, ReleasedAfter, Done, NotDone;
    AckMarks(cs, ack);
    AckedTakes(Then(cs, CallAck(ack)));
    DoneStep(MarkAll(LiveAfter(cs), ack));
    assert MarkAll(LiveAfter(cs), ack)[0] == LiveAfter(cs)[0].(state := ack.Type(), ackbuf := ack.Body());
  }

  /** The exchanges of sections 4.3.2, 4.3.3, 3.8.4 and 3.10.4 of MQTT Version 5.0. */
  predicate Answers(m: Message, t: MsgType) {
    || (m.Type() == PUBLISH && m.Publish? && m.qos == 1 && t == PUBACK)
    || (m.Type() == PUBLISH && m.Publish? && m.qos == 2 && (t == PUBCOMP || t == PUBREL))
    || (m.Type() == SUBSCRIBE && t == SUBACK)
    || (m.Type() == UNSUBSCRIBE && t == UNSUBACK)
  }

  /** A message that can be encoded waits until it is answered, a PUBREC in between does not end
      the wait, and it comes out as it went in, with its answer. */
  lemma WholeExchange(cs: Calls, m: Message, rec: Message, ack: Message)
    requires LiveAfter(cs) == [] && !m.Fails() && Answers(m, ack.Type()) && ack.Id() == m.Id() == rec.Id() && rec.Type() == PUBREC
    ensures var sent := Then(Then(Then(cs, CallWait(m)), CallAck(rec)), CallAcked);
      && ReleasedAfter(sent) == ReleasedAfter(cs) && |LiveAfter(sent)| == 1
      && ReleasedAfter(Then(Then(sent, CallAck(ack)), CallAcked))
        == ReleasedAfter(cs) + [Ackmsg(m.Type(), ack.Type(), m.Id(), m.Body(), ack.Body())]
      && LiveAfter(Then(Then(sent, CallAck(ack)), CallAcked)) == []
  {
    hide LiveAfter, ReleasedAfter;
    FirstWaits(cs, m);
    AloneAnswered(Then(cs, CallWait(m)), Fresh(m), rec);
    AloneAnswered(Then(Then(Then(cs, CallWait(m)), CallAck(rec)), CallAcked), Fresh(m).(state := PUBREC, ackbuf := rec.Body()), ack);
  }

  lemma FirstWaits(cs: Calls, m: Message)
    requires LiveAfter(cs) == [] && !m.Fails() && ((m.Publish? && m.qos != 0) || m.Type() == SUBSCRIBE || m.Type() == UNSUBSCRIBE)
    ensures LiveAfter(Then(cs, CallWait(m))) == [Fresh(m)] && ReleasedAfter(Then(cs, CallWait(m))) == ReleasedAfter(cs)
  {
    assert ReleasedAfter(cs) + [] == ReleasedAfter(cs);
  }

  lemma AloneAnswered(cs: Calls, a: Ackmsg, ack: Message)
    requires LiveAfter(cs) == [a] && a.pktid == ack.Id()
    requires ack.Type() in {PUBACK, PUBREC, PUBREL, PUBCOMP, SUBACK, UNSUBACK}
    ensures var after, a' := Then(Then(cs, CallAck(ack)), CallAcked), a.(state := ack.Type(), ackbuf := ack.Body());
      && (ack.Type() == PUBREC ==> ReleasedAfter(after) == ReleasedAfter(cs) && LiveAfter(after) == [a'])
      && (ack.Type() != PUBREC ==> ReleasedAfter(after) == ReleasedAfter(cs) + [a'] && LiveAfter(after) == [])
  {
    hide LiveAfter, ReleasedAfter;
    var before, a' := Then(cs, CallAck(ack)), a.(state := ack.Type(), ackbuf := ack.Body());
    AckMarks(cs, ack);
    AckedTakes(before);
    assert MarkAll([a], ack) == [a'];
  }

  lemma AckMarks(cs: Calls, ack: Message)
    requires IsAck(ack.Type())
    ensures LiveAfter(Then(cs, CallAck(ack))) == MarkAll(LiveAfter(cs), ack)
    ensures ReleasedAfter(Then(cs, CallAck(ack))) == ReleasedAfter(cs)
  {
    assert ReleasedAfter(cs) + [] == ReleasedAfter(cs);
  }

  /** Any other message does not wait. */
  lemma OthersDoNotWait(cs: Calls, m: Message)
    requires (m.Publish? && m.qos == 0) || m.Type() !in {PUBLISH, SUBSCRIBE, UNSUBSCRIBE}
    ensures LiveAfter(Then(cs, CallWait(m))) == LiveAfter(cs)
  {
  }
}
