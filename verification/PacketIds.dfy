/** Packet-identifier allocation: a bitmap of the identifiers in use and a cyclic cursor. */
module PacketIds {
  import opened Common

  const MAX_ID: uint16 := 65535
  const MIN_ID: uint16 := 1

  // ----- bitmap -----

  /** The size NewBitmap settles on, rounding up in sixteen bits. */
  function BitmapSize(size: uint16): uint16 {
    if size == 0 || size >= MAX_ID then MAX_ID
    else if size % 8 != 0 then (size + (8 - size % 8)) % 0x1_0000
    else size
  }

  /** `0x01 << pos` */
  function One(pos: nat): bv8
    requires pos < 8
  {
    if pos < 4 then (if pos < 2 then (if pos == 0 then 0x01 else 0x02) else if pos == 2 then 0x04 else 0x08)
    else if pos < 6 then (if pos == 4 then 0x10 else 0x20) else if pos == 6 then 0x40 else 0x80
  }

  /** `(v >> pos) & 0x01` */
  function Bit(v: bv8, pos: nat): uint16
    requires pos < 8
  {
    if v & One(pos) != 0 then 1 else 0
  }

  /** `v |= 0x01 << pos` and `v &= ^(0x01 << pos)` */
  function TurnOn(v: bv8, pos: nat): bv8
    requires pos < 8
  {
    v | One(pos)
  }

  function TurnOff(v: bv8, pos: nat): bv8
    requires pos < 8
  {
    v & !One(pos)
  }

  lemma SetBit(v: bv8, pos: nat, q: nat)
    requires pos < 8 && q < 8
    ensures Bit(TurnOn(v, pos), q) == if q == pos then 1 else Bit(v, q)
    ensures Bit(TurnOff(v, pos), q) == if q == pos then 0 else Bit(v, q)
  {
    hide One;
    OneOf(pos);
    OneOf(q);
    Masks(v, One(pos), One(q));
  }

  /** The eight masks have one bit each, in different places. */
  lemma OneOf(pos: nat)
    requires pos < 8
    ensures One(pos) in {0x01, 0x02, 0x04, 0x08, 0x10, 0x20, 0x40, 0x80}
    ensures forall q: nat :: q < 8 && One(q) == One(pos) ==> q == pos
  {
  }

  lemma Masks(v: bv8, a: bv8, b: bv8)
    requires a in {0x01, 0x02, 0x04, 0x08, 0x10, 0x20, 0x40, 0x80}
    requires b in {0x01, 0x02, 0x04, 0x08, 0x10, 0x20, 0x40, 0x80}
    ensures (v | a) & b == if a == b then b else v & b
    ensures (v & !a) & b == if a == b then 0 else v & b
  {
  }

  ghost function BitSet(vals: seq<bv8>, size: uint16): set<int>
    requires |vals| == size / 8 + 1
  {
    set o | 0 <= o <= size && Bit(vals[o / 8], o % 8) == 1
  }

  /** Changing one bit of one byte changes one element. */
  lemma BitSetUpdate(vals: seq<bv8>, size: uint16, offset: uint16, b: bv8, on: bool)
    requires |vals| == size / 8 + 1 && offset <= size
    requires forall q: nat :: q < 8 ==> Bit(b, q) == if q == offset % 8 then (if on then 1 else 0) else Bit(vals[offset / 8], q)
    ensures BitSet(vals[offset / 8 := b], size)
      == if on then BitSet(vals, size) + {offset as int} else BitSet(vals, size) - {offset as int}
  {
    hide Bit;
    var vals' := vals[offset / 8 := b];
    forall o: int | 0 <= o <= size
      ensures Bit(vals'[o / 8], o % 8) == if o == offset then (if on then 1 else 0) else Bit(vals[o / 8], o % 8)
    {
      if o / 8 == offset / 8 && o % 8 == offset % 8 { SameOffset(o, offset); }
    }
  }

  lemma BitWritten(vals: seq<bv8>, size: uint16, offset: uint16)
    requires |vals| == size / 8 + 1 && offset <= size
    ensures var index, pos := offset / 8, offset % 8;
      && BitSet(vals[index := TurnOn(vals[index], pos)], size) == BitSet(vals, size) + {offset as int}
      && BitSet(vals[index := TurnOff(vals[index], pos)], size) == BitSet(vals, size) - {offset as int}
  {
    hide Bit, TurnOn, TurnOff, BitSet;
    var b, pos := vals[offset / 8], offset % 8;
    forall q: nat | q < 8
      ensures Bit(TurnOn(b, pos), q) == if q == pos then 1 else Bit(b, q)
      ensures Bit(TurnOff(b, pos), q) == if q == pos then 0 else Bit(b, q)
    {
      SetBit(b, pos, q);
    }
    BitSetUpdate(vals, size, offset, TurnOn(b, pos), true);
    BitSetUpdate(vals, size, offset, TurnOff(b, pos), false);
  }

  lemma SameOffset(o: nat, p: nat)
    requires o / 8 == p / 8 && o % 8 == p % 8
    ensures o == p
  {
  }

  /** One byte per eight offsets, standing for the set of offsets whose bit is on. */
  class Bitmap {
    var vals: array<bv8>
    var size: uint16

    ghost predicate Valid()
      reads this
    {
      vals.Length == size / 8 + 1
    }

    ghost function Ids(): set<int>
      requires Valid()
      reads this, vals
    {
      BitSet(vals[..], size)
    }

    constructor (n: uint16)
      ensures Valid() && fresh(vals) && size == BitmapSize(n) && Ids() == {}
    {
      var rounded := BitmapSize(n);
      size := rounded;
      vals := new bv8[rounded / 8 + 1](_ => 0);
    }

    method Set(offset: uint16, value: uint16) returns (ok: bool)
      requires Valid()
      modifies vals
      ensures ok == (offset <= size)
      ensures Ids() == if !ok then old(Ids()) else if value == 0 then old(Ids()) - {offset as int} else old(Ids()) + {offset as int}
    {
      hide Bit, TurnOn, TurnOff, BitSet;
      if size < offset {
        return false;
      }
      var index, pos := offset / 8, offset % 8;
      ghost var was := vals[..];
      BitWritten(was, size, offset);
      if value == 0 {
        vals[index] := TurnOff(vals[index], pos);
      } else {
        vals[index] := TurnOn(vals[index], pos);
      }
      assert vals[..] == was[index := vals[index]];
      return true;
    }

    method Get(offset: uint16) returns (v: uint16)
      requires Valid()
      ensures v == if offset as int in Ids() then 1 else 0
    {
      if size < offset {
        return 0;
      }
      return Bit(vals[offset / 8], offset % 8);
    }
  }

  // ----- the cyclic order of identifiers -----

  /** How many steps lead from a to b, going round from limit to 1. */
  function Steps(a: int, b: int, limit: int): int {
    if b >= a then b - a else b - a + limit
  }

  function Succ(a: int, limit: int): int {
    if a == limit then MIN_ID else a + 1
  }

  /** The first free identifier met when walking from the cursor. */
  ghost predicate IsNextFree(inUse: set<int>, cursor: int, limit: int, id: int) {
    && MIN_ID <= id <= limit && id !in inUse
    && forall g :: MIN_ID <= g <= limit && Steps(cursor, g, limit) < Steps(cursor, id, limit) ==> g in inUse
  }

  /** One step of the scan past an identifier in use. */
  lemma ScanOn(inUse: set<int>, cursor: int, at: int, free: int, limit: int)
    requires MIN_ID <= cursor <= limit && MIN_ID <= at <= limit && MIN_ID <= free <= limit
    requires at in inUse && free !in inUse && Steps(cursor, at, limit) <= Steps(cursor, free, limit)
    requires forall g :: MIN_ID <= g <= limit && Steps(cursor, g, limit) < Steps(cursor, at, limit) ==> g in inUse
    ensures Steps(cursor, at, limit) < Steps(cursor, Succ(at, limit), limit) <= Steps(cursor, free, limit)
    ensures forall g :: MIN_ID <= g <= limit && Steps(cursor, g, limit) < Steps(cursor, Succ(at, limit), limit) ==> g in inUse
  {
  }

  lemma NoSteps(cursor: int, limit: int)
    requires MIN_ID <= cursor <= limit
    ensures forall g :: MIN_ID <= g <= limit ==> 0 == Steps(cursor, cursor, limit) <= Steps(cursor, g, limit)
  {
  }

  function IdsOf(ids: seq<uint16>): set<int> {
    if ids == [] then {} else IdsOf(ids[..|ids| - 1]) + {ids[|ids| - 1] as int}
  }

  function CursorAfter(cursor: int, limit: int, ids: seq<uint16>): int {
    if ids == [] then cursor else Succ(ids[|ids| - 1], limit)
  }

  /** The marks that a bitmap of the given size keeps. */
  function Marked(ids: seq<uint16>, size: int): set<int> {
    set i | i in IdsOf(ids) && i <= size
  }

  /** A run of polls: each identifier is the next free one behind the one before. */
  ghost predicate PolledInOrder(inUse: set<int>, cursor: int, limit: int, size: int, ids: seq<uint16>)
    decreases |ids|
  {
    ids != [] ==>
      var init, last := ids[..|ids| - 1], ids[|ids| - 1];
      PolledInOrder(inUse, cursor, limit, size, init) &&
      IsNextFree(inUse + Marked(init, size), CursorAfter(cursor, limit, init), limit, last)
  }

  lemma PolledSnoc(inUse: set<int>, cursor: int, limit: int, size: int, ids: seq<uint16>, id: uint16)
    requires PolledInOrder(inUse, cursor, limit, size, ids)
    requires IsNextFree(inUse + Marked(ids, size), CursorAfter(cursor, limit, ids), limit, id)
    ensures PolledInOrder(inUse, cursor, limit, size, ids + [id])
    ensures inUse + Marked(ids + [id], size) == inUse + Marked(ids, size) + if id <= size then {id as int} else {}
    ensures CursorAfter(cursor, limit, ids + [id]) == Succ(id, limit)
  {
    assert (ids + [id])[..|ids|] == ids;
  }

  lemma NonePolled(inUse: set<int>, cursor: int, limit: int, size: int)
    ensures PolledInOrder(inUse, cursor, limit, size, []) && inUse + Marked([], size) == inUse
    ensures CursorAfter(cursor, limit, []) == cursor
  {
  }

  /** The cursor goes upwards, and round from the limit to 1. */
  lemma NextFreeMeans(inUse: set<int>, cursor: int, limit: int, id: int)
    requires 1 <= cursor <= limit
    ensures IsNextFree(inUse, cursor, limit, id) <==>
      && 1 <= id <= limit && id !in inUse
      && if cursor <= id then forall g :: cursor <= g < id ==> g in inUse
         else forall g :: cursor <= g <= limit || 1 <= g < id ==> g in inUse
  {
  }

  /** A limiter that has just been made hands out 1, 2, 3 and so on. */
  lemma {:induction false} FreshPolls(limit: int, size: int, ids: seq<uint16>)
    requires PolledInOrder({}, 1, limit, size, ids) && |ids| <= limit <= size
    ensures forall i :: 0 <= i < |ids| ==> ids[i] == i + 1
    decreases |ids|
  {
    if ids != [] {
      var init, last := ids[..|ids| - 1], ids[|ids| - 1];
      FreshPolls(limit, size, init);
      IdsUpTo(init);
      var inUse := {} + Marked(init, size);
      assert CursorAfter(1, limit, init) == |init| + 1;
      assert forall x :: x in inUse <==> 1 <= x <= |init|;
      NextFreeMeans(inUse, |init| + 1, limit, last);
      assert |init| + 1 !in inUse;
    }
  }

  lemma {:induction false} IdsUpTo(ids: seq<uint16>)
    requires forall i :: 0 <= i < |ids| ==> ids[i] == i + 1
    ensures forall x :: x in IdsOf(ids) <==> 1 <= x <= |ids|
    decreases |ids|
  {
    if ids != [] { IdsUpTo(ids[..|ids| - 1]); }
  }

  lemma NextFreeUnique(inUse: set<int>, cursor: int, limit: int, a: int, b: int)
    requires IsNextFree(inUse, cursor, limit, a) && IsNextFree(inUse, cursor, limit, b) && MIN_ID <= cursor <= limit
    ensures a == b
  {
  }

  lemma {:induction false} IdsOfHas(ids: seq<uint16>, i: nat)
    requires i < |ids|
    ensures ids[i] as int in IdsOf(ids)
  {
    if i < |ids| - 1 { IdsOfHas(ids[..|ids| - 1], i); }
  }

  lemma {:induction false} PolledInRange(inUse: set<int>, cursor: int, limit: int, size: int, ids: seq<uint16>)
    requires PolledInOrder(inUse, cursor, limit, size, ids)
    ensures forall i :: 0 <= i < |ids| ==> ids[i] as int !in inUse && MIN_ID <= ids[i] <= limit
    decreases |ids|
  {
    if ids != [] {
      PolledInRange(inUse, cursor, limit, size, ids[..|ids| - 1]);
    }
  }

  /** Polled identifiers are distinct, were free, and lie in range, if the bitmap reaches that far. */
  lemma {:induction false} PolledDistinct(inUse: set<int>, cursor: int, limit: int, size: int, ids: seq<uint16>)
    requires PolledInOrder(inUse, cursor, limit, size, ids) && limit <= size
    ensures forall i :: 0 <= i < |ids| ==> ids[i] as int !in inUse && MIN_ID <= ids[i] <= limit
    ensures forall i, j :: 0 <= i < j < |ids| ==> ids[i] != ids[j]
    decreases |ids|
  {
    PolledInRange(inUse, cursor, limit, size, ids);
    if ids != [] {
      var init := ids[..|ids| - 1];
      PolledDistinct(inUse, cursor, limit, size, init);
      forall i: nat | i < |init| { IdsOfHas(init, i); }
    }
  }

  /** Then all of them are marked. */
  lemma AllMarked(inUse: set<int>, cursor: int, limit: int, size: int, ids: seq<uint16>)
    requires PolledInOrder(inUse, cursor, limit, size, ids) && limit <= size
    ensures Marked(ids, size) == IdsOf(ids)
  {
    PolledInRange(inUse, cursor, limit, size, ids);
    IdsOfOnly(ids, limit);
  }

  lemma {:induction false} IdsOfOnly(ids: seq<uint16>, limit: int)
    requires forall i :: 0 <= i < |ids| ==> ids[i] <= limit
    ensures forall x :: x in IdsOf(ids) ==> x <= limit
  {
    if ids != [] { IdsOfOnly(ids[..|ids| - 1], limit); }
  }

  /** What is polled is determined by the identifiers in use and the cursor alone. */
  lemma {:induction false} PolledUnique(inUse: set<int>, cursor: int, limit: int, size: int, a: seq<uint16>, b: seq<uint16>)
    requires PolledInOrder(inUse, cursor, limit, size, a) && PolledInOrder(inUse, cursor, limit, size, b) && |a| == |b|
    requires MIN_ID <= cursor <= limit
    ensures a == b
    decreases |a|
  {
    if a != [] {
      var i, j := a[..|a| - 1], b[..|b| - 1];
      PolledUnique(inUse, cursor, limit, size, i, j);
      PolledInRange(inUse, cursor, limit, size, i);
      NextFreeUnique(inUse + Marked(i, size), CursorAfter(cursor, limit, i), limit, a[|a| - 1], b[|b| - 1]);
      assert a == i + [a[|a| - 1]] && b == j + [b[|b| - 1]];
    }
  }

  function UpTo(n: nat): set<int> {
    if n == 0 then {} else UpTo(n - 1) + {n as int}
  }

  lemma {:induction false} UpToSize(n: nat)
    ensures |UpTo(n)| == n && forall i :: i in UpTo(n) <==> 1 <= i <= n
  {
    if n > 0 { UpToSize(n - 1); }
  }

  lemma UpToStep(n: nat)
    requires n > 0
    ensures UpTo(n) == UpTo(n - 1) + {n as int}
  {
  }

  lemma {:induction false} Gap(inUse: set<int>, n: nat) returns (id: int)
    requires |inUse * UpTo(n)| < n
    ensures 1 <= id <= n && id !in inUse
  {
    hide UpTo;
    UpToSize(n);
    UpToSize(n - 1);
    UpToStep(n);
    if n in inUse {
      assert inUse * UpTo(n) == inUse * UpTo(n - 1) + {n as int};
      id := Gap(inUse, n - 1);
    } else {
      id := n;
    }
  }

  lemma FreeMeans(inUse: set<int>, cursor: int, limit: int, id: int)
    requires IsNextFree(inUse, cursor, limit, id)
    ensures MIN_ID <= id <= limit && id !in inUse
  {
  }

  /** Marking a free identifier leaves one less. */
  lemma OneLess(inUse: set<int>, limit: nat, id: int)
    requires 1 <= id <= limit && id !in inUse
    ensures |UpTo(limit) - (inUse + {id})| == |UpTo(limit) - inUse| - 1
  {
    UpToSize(limit);
    assert UpTo(limit) - inUse == (UpTo(limit) - (inUse + {id})) + {id};
  }

  lemma FewerThanAll(inUse: set<int>, limit: nat)
    requires forall i :: i in inUse ==> 1 <= i <= limit
    ensures |inUse| <= limit
    ensures |inUse| < limit ==> exists id :: MIN_ID <= id <= limit && id !in inUse
  {
    UpToSize(limit);
    forall i | i in inUse ensures i in UpTo(limit) { }
    assert UpTo(limit) == inUse + (UpTo(limit) - inUse);
    if |inUse| < limit {
      assert inUse * UpTo(limit) == inUse;
      var id := Gap(inUse, limit);
    }
  }

  // ----- limiter -----

  /** The counter counts the identifiers in use, all of them in range. */
  ghost predicate Counts(used: int, inUse: set<int>, limit: int) {
    used == |inUse| && forall id :: id in inUse ==> MIN_ID <= id <= limit
  }

  /** `used--`, k times, in sixteen bits */
  function Down(used: uint16, k: nat): uint16 {
    (used - k) % 0x1_0000
  }

  lemma DownStep(used: uint16, k: nat)
    ensures Down(used, 0) == used && Down(Down(used, k), 1) == Down(used, k + 1)
  {
  }

  datatype Polled = Ids(ids: seq<uint16>) | WouldBlock | Closed

  class Limiter {
    var used: uint16
    var limit: uint16
    var exit: bool
    var lockedPid: Bitmap
    var freePid: uint16

    ghost function InUse(): set<int>
      requires lockedPid.Valid()
      reads this, lockedPid, lockedPid.vals
    {
      lockedPid.Ids()
    }

    /** The bitmap can hold every identifier up to the limit, and the counter counts it. */
    ghost predicate Sound()
      reads this, lockedPid, lockedPid.vals
    {
      && lockedPid.Valid() && limit <= lockedPid.size
      && Counts(used, InUse(), limit)
      && MIN_ID <= freePid && (limit >= MIN_ID ==> freePid <= limit)
    }

    constructor (max: uint16)
      ensures fresh(lockedPid) && fresh(lockedPid.vals) && limit == max && !exit && freePid == MIN_ID
      ensures lockedPid.Valid() && InUse() == {} && used == 0
      ensures Sound() <==> !(65528 <= max <= 65533)
      ensures CanPoll(max)
    {
      hide BitmapSize, BitSet, UpTo;
      BitmapReaches(max);
      used, limit, exit, freePid := 0, max, false, MIN_ID;
      lockedPid := new Bitmap((max + 1) % 0x1_0000);
      new;
      NothingMarked();
    }

    /** The cursor goes round from the limit to 1. */
    method StepOn()
      requires MIN_ID <= freePid <= limit
      modifies this`freePid
      ensures MIN_ID <= freePid <= limit && freePid == Succ(old(freePid), limit)
      ensures freePid == if old(freePid) == limit then 1 else old(freePid) + 1
    {
      if freePid == limit {
        freePid := MIN_ID;
      } else {
        freePid := freePid + 1;
      }
    }

    /** The inner scan. It ends because it cannot pass an identifier that is free. */
    method FindFree()
      requires lockedPid.Valid() && MIN_ID <= freePid <= limit
      requires exists id :: MIN_ID <= id <= limit && id !in InUse()
      modifies this`freePid
      ensures MIN_ID <= freePid <= limit && InUse() == old(InUse())
      ensures IsNextFree(InUse(), old(freePid), limit, freePid)
    {
      hide Steps, Bit, BitSet;
      ghost var inUse, cursor := InUse(), freePid;
      NoSteps(cursor, limit);
      ghost var free :| MIN_ID <= free <= limit && free !in inUse;
      var v := lockedPid.Get(freePid);
      while v == 1
        invariant MIN_ID <= freePid <= limit && InUse() == inUse
        invariant v == if freePid as int in inUse then 1 else 0
        invariant Steps(cursor, freePid, limit) <= Steps(cursor, free, limit)
        invariant forall g :: MIN_ID <= g <= limit && Steps(cursor, g, limit) < Steps(cursor, freePid, limit) ==> g in inUse
        decreases Steps(cursor, free, limit) - Steps(cursor, freePid, limit)
      {
        ScanOn(inUse, cursor, freePid, free, limit);
        StepOn();
        v := lockedPid.Get(freePid);
      }
    }

    /** Marks the identifier under the cursor and steps on. */
    method TakeFree()
      requires lockedPid.Valid() && MIN_ID <= freePid <= limit
      modifies this`used, this`freePid, lockedPid.vals
      ensures lockedPid.Valid() && used == (old(used) + 1) % 0x1_0000
      ensures InUse() == old(InUse()) + if old(freePid) <= lockedPid.size then {old(freePid) as int} else {}
      ensures freePid == Succ(old(freePid), limit)
      ensures old(Sound() && freePid as int !in InUse()) ==> Sound()
    {
      assert InUse() + {} == InUse();
      MarkUsedLocked(freePid);
      StepOn();
    }

    method TakeOne() returns (id: uint16)
      requires lockedPid.Valid() && MIN_ID <= freePid <= limit
      requires exists id :: MIN_ID <= id <= limit && id !in InUse()
      modifies this`used, this`freePid, lockedPid.vals
      ensures lockedPid.Valid() && used == (old(used) + 1) % 0x1_0000
      ensures InUse() == old(InUse()) + if id <= lockedPid.size then {id as int} else {}
      ensures IsNextFree(old(InUse()), old(freePid), limit, id) && freePid == Succ(id, limit)
      ensures old(Sound()) ==> Sound()
    {
      hide IsNextFree, Counts;
      FindFree();
      id := freePid;
      FreeMeans(InUse(), old(freePid), limit, id);
      TakeFree();
    }

    /** n identifiers can be found: as many are free, or the bitmap does not reach the limit. */
    ghost predicate CanPoll(n: int)
      requires lockedPid.Valid()
      reads this, lockedPid, lockedPid.vals
    {
      lockedPid.size < limit || |UpTo(limit) - InUse()| >= n
    }

    lemma NothingMarked()
      requires lockedPid.Valid() && InUse() == {}
      ensures CanPoll(limit)
    {
      UpToSize(limit);
      assert UpTo(limit) - {} == UpTo(limit);
    }

    /** A sound limiter always finds what its counter says is left. */
    lemma SoundCanPoll()
      requires Sound()
      ensures CanPoll(limit - used)
    {
      UpToSize(limit);
      var inUse := InUse();
      assert forall i :: i in inUse ==> i in UpTo(limit);
      assert UpTo(limit) == inUse + (UpTo(limit) - inUse);
    }

    lemma SomeFree(n: int)
      requires lockedPid.Valid() && CanPoll(n) && n > 0 && limit >= MIN_ID
      ensures exists id :: MIN_ID <= id <= limit && id !in InUse()
    {
      UpToSize(limit);
      if lockedPid.size < limit {
        assert limit as int !in InUse();
      } else {
        var rest := UpTo(limit) - InUse();
        assert |rest| > 0 && rest != {};
        var id :| id in rest;
        assert id in UpTo(limit);
      }
    }

    /** At most max identifiers, as many as the counter leaves, each the next free one. It comes to
        an end exactly if that many can be found; a sound limiter stays sound. */
    method PollPacketIDs(max: uint16) returns (r: Polled)
      requires lockedPid.Valid() && MIN_ID <= freePid && (limit >= MIN_ID ==> freePid <= limit)
      requires !exit && used < limit ==> CanPoll(Min(max, limit - used))
      modifies this`used, this`freePid, lockedPid.vals
      ensures lockedPid.Valid() && (old(Sound()) ==> Sound())
      ensures r.WouldBlock? <==> !exit && old(used) >= limit
      ensures r.Closed? <==> exit
      ensures !r.Ids? ==> InUse() == old(InUse()) && freePid == old(freePid) && used == old(used)
      ensures r.Ids? ==>
        && |r.ids| == Min(max, limit - old(used)) && used == old(used) + |r.ids|
        && PolledInOrder(old(InUse()), old(freePid), limit, lockedPid.size, r.ids)
        && InUse() == old(InUse()) + Marked(r.ids, lockedPid.size)
        && freePid == CursorAfter(old(freePid), limit, r.ids)
      ensures old(Sound()) && r.Ids? ==> InUse() == old(InUse()) + IdsOf(r.ids)
    {
      hide PolledInOrder, Marked, CursorAfter, Counts, BitSet, IdsOf;
      if used >= limit && !exit {
        return WouldBlock;
      }
      if exit {
        return Closed;
      }
      var n := max;
      if limit - used < max {
        n := limit - used;
      }
      var ids := TakeNext(n);
      if lockedPid.size >= limit {
        AllMarked(old(InUse()), old(freePid), limit, lockedPid.size, ids);
      }
      return Ids(ids);
    }

    /** The outer loop of a poll. */
    method TakeNext(n: uint16) returns (ids: seq<uint16>)
      requires lockedPid.Valid() && MIN_ID <= freePid <= limit && used + n <= limit && CanPoll(n)
      modifies this`used, this`freePid, lockedPid.vals
      ensures lockedPid.Valid() && |ids| == n && used == old(used) + n && (old(Sound()) ==> Sound())
      ensures PolledInOrder(old(InUse()), old(freePid), limit, lockedPid.size, ids)
      ensures InUse() == old(InUse()) + Marked(ids, lockedPid.size) && freePid == CursorAfter(old(freePid), limit, ids)
    {
      hide PolledInOrder, Marked, CursorAfter, Counts, BitSet, IsNextFree, UpTo, IdsOf;
      ghost var inUse, cursor, size := InUse(), freePid, lockedPid.size;
      NonePolled(inUse, cursor, limit, size);
      ids := [];
      for j := 0 to n
        invariant lockedPid.Valid() && used == old(used) + j && |ids| == j && MIN_ID <= freePid <= limit
        invariant CanPoll(n - j) && (old(Sound()) ==> Sound())
        invariant PolledInOrder(inUse, cursor, limit, size, ids)
        invariant InUse() == inUse + Marked(ids, size) && freePid == CursorAfter(cursor, limit, ids)
      {
        SomeFree(n - j);
        ghost var before := InUse();
        var id := TakeOne();
        FreeMeans(before, CursorAfter(cursor, limit, ids), limit, id);
        OneLess(before, limit, id);
        PolledSnoc(inUse, cursor, limit, size, ids, id);
        ids := ids + [id];
      }
    }

    /** Frees one identifier. The counter follows, in sixteen bits, if the identifier was in use. */
    method ReleaseLocked(id: uint16)
      requires lockedPid.Valid()
      modifies this`used, lockedPid.vals
      ensures lockedPid.Valid() && InUse() == old(InUse()) - {id as int}
      ensures used == if id as int in old(InUse()) then Down(old(used), 1) else old(used)
      ensures old(Sound()) ==> Sound()
    {
      ghost var inUse := InUse();
      var v := lockedPid.Get(id);
      if v == 1 {
        var _ := lockedPid.Set(id, 0);
        used := Down(used, 1);
      } else {
        assert inUse - {id as int} == inUse;
      }
      SoundIfCounts(inUse - {id as int});
      FreedCounts(old(used), inUse, id, limit);
    }

    method BatchRelease(ids: seq<uint16>)
      requires lockedPid.Valid()
      modifies this`used, lockedPid.vals
      ensures lockedPid.Valid() && InUse() == old(InUse()) - IdsOf(ids)
      ensures used == Down(old(used), |old(InUse()) * IdsOf(ids)|)
      ensures old(Sound()) ==> Sound()
    {
      hide IdsOf, Counts, BitSet, Down;
      ghost var inUse, freed := InUse(), 0;
      NoIds(inUse);
      DownStep(used, 0);
      assert ids[..0] == [];
      for i := 0 to |ids|
        invariant lockedPid.Valid() && InUse() == inUse - IdsOf(ids[..i])
        invariant freed == |inUse * IdsOf(ids[..i])| && used == Down(old(used), freed)
        invariant old(Sound()) ==> Sound()
      {
        ReleasedSnoc(inUse, ids, i);
        DownStep(old(used), freed);
        freed := freed + if ids[i] as int in InUse() then 1 else 0;
        ReleaseLocked(ids[i]);
      }
      assert ids[..|ids|] == ids;
    }

    /** Marking trusts its caller: the limiter stays sound exactly when the identifier was
        free and in range. */
    method MarkUsedLocked(id: uint16)
      requires lockedPid.Valid()
      modifies this`used, lockedPid.vals
      ensures lockedPid.Valid() && used == (old(used) + 1) % 0x1_0000
      ensures InUse() == if id <= lockedPid.size then old(InUse()) + {id as int} else old(InUse())
      ensures old(Sound()) ==> (Sound() <==> id as int !in old(InUse()) && MIN_ID <= id <= limit)
    {
      ghost var inUse, sound := InUse(), Sound();
      if sound { MarkCounts(inUse, id, limit); }
      Bump(id);
      if sound { SoundIfCounts(if id <= lockedPid.size then inUse + {id as int} else inUse); }
    }

    /** `used++` in sixteen bits, and the bit. */
    method Bump(id: uint16)
      requires lockedPid.Valid()
      modifies this`used, lockedPid.vals
      ensures lockedPid.Valid() && used == (old(used) + 1) % 0x1_0000
      ensures InUse() == if id <= lockedPid.size then old(InUse()) + {id as int} else old(InUse())
    {
      used := (used + 1) % 0x1_0000;
      var _ := lockedPid.Set(id, 1);
    }

    lemma SoundIfCounts(inUse: set<int>)
      requires lockedPid.Valid() && InUse() == inUse
      ensures Sound() <==> limit <= lockedPid.size && MIN_ID <= freePid && (limit >= MIN_ID ==> freePid <= limit) && Counts(used, inUse, limit)
    {
    }
  }

  /** The bitmap of a limiter reaches its limit except for the six limits at which rounding
      up wraps round to nothing. */
  lemma BitmapReaches(limit: uint16)
    ensures BitmapSize((limit + 1) % 0x1_0000) >= limit <==> !(65528 <= limit <= 65533)
    ensures 65528 <= limit <= 65533 ==> BitmapSize((limit + 1) % 0x1_0000) == 0
  {
  }

  lemma MarkCounts(inUse: set<int>, id: int, limit: nat)
    requires limit < 0x1_0000 && Counts(|inUse|, inUse, limit)
    ensures Counts((|inUse| + 1) % 0x1_0000, inUse + {id}, limit) <==> id !in inUse && MIN_ID <= id <= limit
    ensures !Counts((|inUse| + 1) % 0x1_0000, inUse, limit)
  {
    FewerThanAll(inUse, limit);
    if id in inUse {
      assert inUse + {id} == inUse;
    } else {
      assert |inUse + {id}| == |inUse| + 1;
      assert id in inUse + {id};
      if MIN_ID <= id <= limit { FewerThanAll(inUse + {id}, limit); }
    }
  }

  lemma NoIds(inUse: set<int>)
    ensures inUse - IdsOf([]) == inUse && inUse * IdsOf([]) == {}
  {
  }

  lemma FreedCounts(used: uint16, inUse: set<int>, id: int, limit: int)
    ensures Counts(used, inUse, limit) ==> Counts(if id in inUse then Down(used, 1) else used, inUse - {id}, limit)
  {
    if id in inUse { assert inUse == inUse - {id} + {id}; } else { assert inUse - {id} == inUse; }
  }

  lemma ReleasedSnoc(inUse: set<int>, ids: seq<uint16>, i: nat)
    requires i < |ids|
    ensures var id, past := ids[i] as int, IdsOf(ids[..i]);
      && inUse - past - {id} == inUse - IdsOf(ids[..i + 1])
      && |inUse * IdsOf(ids[..i + 1])| == |inUse * past| + if id in inUse - past then 1 else 0
  {
    var id, past := ids[i] as int, IdsOf(ids[..i]);
    assert ids[..i + 1][..i] == ids[..i];
    assert IdsOf(ids[..i + 1]) == past + {id};
    if id in inUse - past {
      assert inUse * (past + {id}) == inUse * past + {id};
    } else {
      assert inUse * (past + {id}) == inUse * past;
    }
  }
}
