/** The list of messages kept for a client that is away, and the clearing of those that
    have been delivered, named by their packet identifiers as decimal strings. */
module OfflineStore {
  import opened Common

  datatype OffMsg = OffMsg(id: uint16, body: seq<byte>)

  const MSG_MAX_NUM := 1000

  /** strconv.Itoa on a packet identifier. */
  function Itoa(n: nat): string {
    if n < 10 then [Digit(n)] else Itoa(n / 10) + [Digit(n % 10)]
  }

  function Digit(d: nat): char
    requires d < 10
  {
    ['0', '1', '2', '3', '4', '5', '6', '7', '8', '9'][d]
  }

  lemma {:induction false} ItoaInjective(m: nat, n: nat)
    requires Itoa(m) == Itoa(n)
    ensures m == n
    decreases m
  {
    var s, t := Itoa(m), Itoa(n);
    assert s[|s| - 1] == Digit(m % 10) && t[|t| - 1] == Digit(n % 10);
    assert m % 10 == n % 10;
    ItoaNonEmpty(m / 10);
    ItoaNonEmpty(n / 10);
    if m >= 10 && n >= 10 {
      assert s[..|s| - 1] == Itoa(m / 10) && t[..|t| - 1] == Itoa(n / 10);
      ItoaInjective(m / 10, n / 10);
    }
  }

  /** What a decimal string stands for. */
  function Decimal(s: string): int {
    if s == "" then 0 else 10 * Decimal(s[..|s| - 1]) + (s[|s| - 1] as int - '0' as int)
  }

  /** The string is the number in decimal digits, without a leading zero. */
  lemma {:induction false} ItoaReads(n: nat)
    ensures Decimal(Itoa(n)) == n && Itoa(n) != "" && (Itoa(n)[0] == '0' ==> n == 0)
    ensures forall i :: 0 <= i < |Itoa(n)| ==> '0' <= Itoa(n)[i] <= '9'
  {
    var s := Itoa(n);
    if n < 10 {
      assert s[..0] == "" && Decimal("") == 0;
    } else {
      ItoaReads(n / 10);
      assert s[..|s| - 1] == Itoa(n / 10);
    }
  }

  lemma {:induction false} ItoaNonEmpty(n: nat)
    ensures Itoa(n) != ""
  {
  }

  function IdsOf(q: seq<OffMsg>): seq<string> {
    seq(|q|, i requires 0 <= i < |q| => Itoa(q[i].id))
  }

  /** The place of the first entry equal to s, or the length. */
  function FirstAt(ids: seq<string>, s: string): (i: nat)
    ensures i <= |ids| && (i < |ids| ==> ids[i] == s)
  {
    if ids == [] || ids[0] == s then 0 else 1 + FirstAt(ids[1..], s)
  }

  /** Walking the queue, each message uses up the first identifier that names it. */
  function Cleared(q: seq<OffMsg>, ids: seq<string>): (seq<OffMsg>, seq<string>) {
    if q == [] then ([], ids)
    else
      var i := FirstAt(ids, Itoa(q[0].id));
      if i < |ids| then Cleared(q[1..], ids[i := ""])
      else
        var (rest, left) := Cleared(q[1..], ids);
        ([q[0]] + rest, left)
  }

  class Offline {
    var msgs: seq<OffMsg>

    ghost predicate Valid()
      reads this
    {
      |msgs| <= MSG_MAX_NUM
    }

    constructor ()
      ensures Valid() && msgs == []
    {
      msgs := [];
    }

    method Store(m: OffMsg) returns (err: bool)
      requires Valid()
      modifies this
      ensures Valid() && err == (|old(msgs)| == MSG_MAX_NUM)
      ensures msgs == if err then old(msgs) else old(msgs) + [m]
    {
      if |msgs| >= MSG_MAX_NUM {
        return true;
      }
      msgs := msgs + [m];
      return false;
    }

    method GetAll() returns (all: seq<OffMsg>, ids: array<string>)
      requires Valid()
      ensures all == msgs && fresh(ids) && ids[..] == IdsOf(msgs)
    {
      all := [];
      ids := new string[|msgs|];
      for i := 0 to |msgs|
        invariant all == msgs[..i]
        invariant forall j :: 0 <= j < i ==> ids[j] == Itoa(msgs[j].id)
      {
        all := all + [msgs[i]];
        ids[i] := Itoa(msgs[i].id);
      }
    }

    /** Removes while walking, and blanks each identifier it has used. */
    method ClearById(msgIds: array<string>)
      requires Valid()
      modifies this, msgIds
      ensures Valid() && (msgs, msgIds[..]) == Cleared(old(msgs), old(msgIds[..]))
    {
      var kept: seq<OffMsg> := [];
      var at := 0;
      ghost var q, ids := msgs, msgIds[..];
      assert q[0..] == q && [] + Cleared(q, ids).0 == Cleared(q, ids).0;
      while at < |msgs|
        invariant at <= |q| && msgs == q && |kept| <= at
        invariant var (rest, left) := Cleared(q[at..], msgIds[..]);
          (kept + rest, left) == Cleared(q, ids)
      {
        var used := Use(msgIds, Itoa(msgs[at].id));
        assert q[at..][1..] == q[at + 1..];
        if !used {
          ghost var rest := Cleared(q[at + 1..], msgIds[..]).0;
          assert kept + ([q[at]] + rest) == (kept + [q[at]]) + rest;
          kept := kept + [msgs[at]];
        }
        at := at + 1;
      }
      assert kept + [] == kept;
      msgs := kept;
    }

    /** The inner loop: the first entry that names the message is blanked. */
    static method Use(msgIds: array<string>, id: string) returns (used: bool)
      requires id != ""
      modifies msgIds
      ensures var i := FirstAt(old(msgIds[..]), id);
        used == (i < msgIds.Length) && msgIds[..] == if used then old(msgIds[..])[i := ""] else old(msgIds[..])
    {
      var i := 0;
      while i < msgIds.Length
        invariant i <= msgIds.Length && FirstAt(msgIds[..], id) == i + FirstAt(msgIds[..][i..], id)
        invariant msgIds[..] == old(msgIds[..])
      {
        if msgIds[i] != "" && id == msgIds[i] {
          msgIds[i] := "";
          return true;
        }
        assert msgIds[..][i..][1..] == msgIds[..][i + 1..];
        i := i + 1;
      }
      return false;
    }
  }

  // ----- what clearing a snapshot does -----

  function Name(s: string): multiset<string> {
    if s == "" then multiset{} else multiset{s}
  }

  /** Entries still to be used. */
  function Names(ids: seq<string>): multiset<string> {
    if ids == [] then multiset{}
    else Name(ids[0]) + Names(ids[1..])
  }

  lemma {:induction false} FirstAtFinds(ids: seq<string>, s: string)
    requires s != ""
    ensures FirstAt(ids, s) < |ids| <==> s in Names(ids)
  {
    if ids != [] && ids[0] != s { FirstAtFinds(ids[1..], s); }
  }

  /** Blanking an entry takes one use of its name away and nothing else. */
  lemma {:induction false} Blanked(ids: seq<string>, i: nat)
    requires i < |ids| && ids[i] != ""
    ensures Names(ids) == Names(ids[i := ""]) + multiset{ids[i]}
  {
    hide Names, Name;
    var head, rest := ids[0], ids[1..];
    assert ids == [head] + rest;
    NamesCons(head, rest);
    NoName();
    if i == 0 {
      NamesCons("", rest);
      assert ids[0 := ""] == [""] + rest;
      OneName(head);
    } else {
      Blanked(rest, i - 1);
      NamesCons(head, rest[i - 1 := ""]);
      assert ids[i := ""] == [head] + rest[i - 1 := ""];
    }
  }

  lemma NoName()
    ensures Name("") == multiset{}
  {
  }

  lemma OneName(s: string)
    requires s != ""
    ensures Name(s) == multiset{s}
  {
  }

  lemma NamesCons(s: string, ids: seq<string>)
    ensures Names([s] + ids) == Name(s) + Names(ids)
  {
  }

  lemma {:induction false} NamesOfSnapshot(q: seq<OffMsg>)
    ensures Names(IdsOf(q)) == NameBag(q)
  {
    if q != [] {
      NamesOfSnapshot(q[1..]);
      ItoaNonEmpty(q[0].id);
      assert IdsOf(q)[1..] == IdsOf(q[1..]);
    }
  }

  function NameBag(q: seq<OffMsg>): multiset<string> {
    if q == [] then multiset{} else multiset{Itoa(q[0].id)} + NameBag(q[1..])
  }

  lemma {:induction false} ClearBag(q: seq<OffMsg>, later: seq<OffMsg>, ids: seq<string>)
    requires Names(ids) == NameBag(q)
    ensures Cleared(q + later, ids).0 == later
  {
    hide Cleared, Names, FirstAt;
    if q == [] {
      assert q + later == later;
      NothingNamed(later, ids);
    } else {
      var i := FirstNamed(q, ids);
      ClearBag(q[1..], later, ids[i := ""]);
      ClearNamed(q[0], q[1..] + later, ids);
      assert q + later == [q[0]] + (q[1..] + later);
    }
  }

  lemma FirstNamed(q: seq<OffMsg>, ids: seq<string>) returns (i: nat)
    requires q != [] && Names(ids) == NameBag(q)
    ensures i == FirstAt(ids, Itoa(q[0].id)) < |ids|
    ensures Names(ids[i := ""]) == NameBag(q[1..])
  {
    var s := Itoa(q[0].id);
    ItoaNonEmpty(q[0].id);
    FirstAtFinds(ids, s);
    i := FirstAt(ids, s);
    Blanked(ids, i);
    BagCancel(Names(ids[i := ""]), NameBag(q[1..]), s);
  }

  lemma BagCancel<T>(a: multiset<T>, b: multiset<T>, x: T)
    requires a + multiset{x} == multiset{x} + b
    ensures a == b
  {
    assert a == (a + multiset{x}) - multiset{x};
  }

  lemma ClearNamed(m: OffMsg, q: seq<OffMsg>, ids: seq<string>)
    requires FirstAt(ids, Itoa(m.id)) < |ids|
    ensures Cleared([m] + q, ids).0 == Cleared(q, ids[FirstAt(ids, Itoa(m.id)) := ""]).0
  {
  }

  lemma {:induction false} NothingNamed(q: seq<OffMsg>, ids: seq<string>)
    requires Names(ids) == multiset{}
    ensures Cleared(q, ids) == (q, ids)
  {
    if q != [] {
      ItoaNonEmpty(q[0].id);
      FirstAtFinds(ids, Itoa(q[0].id));
      NothingNamed(q[1..], ids);
      assert q == [q[0]] + q[1..];
    }
  }

  /** Clearing by the identifiers of a snapshot removes exactly the snapshot: whatever was
      stored since stays, in order, even if it repeats identifiers of the snapshot. */
  lemma SnapshotCleared(snapshot: seq<OffMsg>, later: seq<OffMsg>)
    ensures Cleared(snapshot + later, IdsOf(snapshot)).0 == later
  {
    NamesOfSnapshot(snapshot);
    ClearBag(snapshot, later, IdsOf(snapshot));
  }

  /** Clearing only ever removes, keeps the order, and is exact about identifiers: a message
      whose identifier is not named stays. */
  lemma {:induction false} UnnamedKept(q: seq<OffMsg>, ids: seq<string>, m: OffMsg)
    requires m in q && Itoa(m.id) !in Names(ids)
    ensures m in Cleared(q, ids).0
  {
    ItoaNonEmpty(q[0].id);
    ItoaNonEmpty(m.id);
    FirstAtFinds(ids, Itoa(q[0].id));
    var i := FirstAt(ids, Itoa(q[0].id));
    if q[0] != m {
      assert m in q[1..];
      if i < |ids| {
        Blanked(ids, i);
        UnnamedKept(q[1..], ids[i := ""], m);
      } else {
        UnnamedKept(q[1..], ids, m);
      }
    }
  }

  // ----- clearing in general -----

  function Count(q: seq<OffMsg>, id: uint16): nat {
    if q == [] then 0 else (if q[0].id == id then 1 else 0) + Count(q[1..], id)
  }

  /** Of the first n messages, those that stay: by then the list has no name left for them,
      earlier messages with the same identifier having used up as many as there were. */
  function Staying(q: seq<OffMsg>, names: multiset<string>, n: nat): seq<OffMsg>
    requires n <= |q|
  {
    if n == 0 then []
    else
      var m := q[n - 1];
      Staying(q, names, n - 1) + if Count(q[..n - 1], m.id) >= names[Itoa(m.id)] then [m] else []
  }

  lemma CountCons(h: OffMsg, q: seq<OffMsg>, id: uint16)
    ensures Count([h] + q, id) == (if h.id == id then 1 else 0) + Count(q, id)
  {
  }

  function UsedUp(names: multiset<string>, s: string): multiset<string> {
    if s in names then names - multiset{s} else names
  }

  /** The first message, and what it uses up for the others. */
  lemma {:induction false} StayingCons(h: OffMsg, t: seq<OffMsg>, names: multiset<string>, n: nat)
    requires n <= |t|
    ensures Staying([h] + t, names, n + 1)
      == (if Itoa(h.id) in names then [] else [h]) + Staying(t, UsedUp(names, Itoa(h.id)), n)
    decreases n
  {
    var q := [h] + t;
    if n == 0 {
      assert q[..0] == [];
    } else {
      var m := t[n - 1];
      assert q[n] == m && q[..n] == [h] + t[..n - 1];
      StayingCons(h, t, names, n - 1);
      CountCons(h, t[..n - 1], m.id);
      if m.id != h.id && Itoa(m.id) == Itoa(h.id) { ItoaInjective(m.id, h.id); }
      ConcatAssoc(if Itoa(h.id) in names then [] else [h], Staying(t, UsedUp(names, Itoa(h.id)), n - 1),
                  if Count(q[..n], m.id) >= names[Itoa(m.id)] then [m] else []);
    }
  }

  /** Clearing by any list of names: a message goes exactly if fewer earlier messages share its
      identifier than the list names it times; the others stay in order. */
  lemma {:induction false} ClearedExactly(q: seq<OffMsg>, ids: seq<string>)
    ensures Cleared(q, ids).0 == Staying(q, Names(ids), |q|)
    decreases |q|
  {
    hide Staying, Names;
    if q == [] {
      NobodyStays(Names(ids));
    } else {
      var s := Itoa(q[0].id);
      ItoaNonEmpty(q[0].id);
      FirstAtFinds(ids, s);
      StayingCons(q[0], q[1..], Names(ids), |q| - 1);
      assert q == [q[0]] + q[1..];
      var i := FirstAt(ids, s);
      if i < |ids| {
        Blanked(ids, i);
        assert Names(ids[i := ""]) == UsedUp(Names(ids), s);
        ClearedExactly(q[1..], ids[i := ""]);
      } else {
        ClearedExactly(q[1..], ids);
      }
    }
  }

  lemma NobodyStays(names: multiset<string>)
    ensures Staying([], names, 0) == []
  {
  }
}
