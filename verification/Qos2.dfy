/** The receiving side of the QoS 2 handshake, over the queue of messages awaiting PUBREL. */
module Qos2 {
  import opened Common
  import opened Bits
  import opened AckQueue
  import P = Publish
  import PM = PublishMessage

  /** A packet of the exchange, after authentication and topic-alias handling. A PUBLISH comes
      with the bytes its encoder leaves, and whether that fails. */
  datatype Event = Pub(id: uint16, dup: bool, body: seq<byte>, fails: bool) | Rel(id: uint16)

  datatype Reply = Pubrec(id: uint16) | Pubcomp(id: uint16)

  type App = (uint16, seq<byte>)

  /** taken: the messages released so far, each to be decoded and handed on. */
  datatype State = State(live: Live, taken: seq<App>, sent: seq<Reply>)

  function PublishOf(e: Event): Message
    requires e.Pub?
  {
    Publish(e.id, 2, e.dup, e.body, e.fails)
  }

  /** A PUBREL has been decoded just before, and its encoder copies those bytes. */
  function PubrelOf(id: uint16): Message {
    Packet(PUBREL, id, [], false)
  }

  function AppOf(a: Ackmsg): App {
    (a.pktid, a.msgbuf)
  }

  /** What processAcked takes: the messages whose final acknowledgement is a PUBREL. */
  function Takes(done: Live): seq<App> {
    if done == [] then []
    else Takes(done[..|done| - 1]) +
         (if done[|done| - 1].state == PUBREL then [AppOf(done[|done| - 1])] else [])
  }

  /** A message is handed on if its bytes can be decoded, and skipped otherwise. */
  function HandOn(a: App): seq<P.Msg> {
    match P.Parse(P.FRESH, a.1)
    case Parsed(m, _, _) => [m]
    case Failed(_) => []
  }

  function Delivered(apps: seq<App>): seq<P.Msg> {
    if apps == [] then [] else Delivered(apps[..|apps| - 1]) + HandOn(apps[|apps| - 1])
  }

  ghost function Step(s: State, e: Event): State {
    match e
    case Pub(id, _, _, _) =>
      State(Enqueue(s.live, PublishOf(e)), s.taken, s.sent + [Pubrec(id)])
    case Rel(id) =>
      var q := MarkAll(s.live, PubrelOf(id));
      State(NotDone(q), s.taken + Takes(Done(q)), s.sent + [Pubcomp(id)])
  }

  const Start := State([], [], [])

  /** A history of packets, the last one outermost. */
  datatype Trace = Nothing | After(past: Trace, now: Event)

  ghost function Run(tr: Trace): State {
    if tr == Nothing then Start else Step(Run(tr.past), tr.now)
  }

  /** The messages forwarded to subscribers so far. */
  ghost function Forwarded(tr: Trace): seq<P.Msg> {
    Delivered(Run(tr).taken)
  }

  // ----- the service -----

  class Receiver {
    var pub2in: Queue
    var forwarded: seq<P.Msg>
    var sent: seq<Reply>
    ghost var taken: seq<App>

    ghost predicate Valid()
      reads this, pub2in, pub2in.ring
    {
      pub2in.Valid() && forwarded == Delivered(taken)
    }

    ghost function View(): State
      requires Valid()
      reads this, pub2in, pub2in.ring
    {
      State(pub2in.Contents(), taken, sent)
    }

    constructor (queueSize: nat)
      requires 1 <= queueSize <= Pow2(62)
      ensures Valid() && fresh(pub2in) && fresh(pub2in.ring) && View() == Start
    {
      hide Pow2;
      pub2in := new Queue(queueSize);
      forwarded, sent, taken := [], [], [];
    }

    /** Whatever Wait reports, the answer is sent. */
    method ProcessPublish(e: Event)
      requires Valid() && e.Pub?
      modifies this, pub2in, pub2in.ring
      ensures Valid() && pub2in == old(pub2in) && (pub2in.ring == old(pub2in.ring) || fresh(pub2in.ring))
      ensures View() == Step(old(View()), e)
    {
      var _ := pub2in.Wait(PublishOf(e));
      Answer(Pubrec(e.id));
    }

    method ProcessPubrel(id: uint16)
      requires Valid() && pub2in.ping.state == RESERVED
      modifies this, pub2in, pub2in.ring
      ensures Valid() && pub2in == old(pub2in) && pub2in.ring == old(pub2in.ring) && pub2in.ping.state == RESERVED
      ensures View() == Step(old(View()), Rel(id))
    {
      ghost var s, q := View(), MarkAll(pub2in.Contents(), PubrelOf(id));
      var _ := pub2in.Ack(PubrelOf(id)); // a PUBREL is never refused
      assert pub2in.Contents() == q;
      ProcessAcked();
      Answer(Pubcomp(id));
    }

    method ProcessAcked()
      requires Valid() && pub2in.ping.state == RESERVED
      modifies this`forwarded, this`taken, pub2in, pub2in.ring
      ensures Valid() && pub2in.ring == old(pub2in.ring) && pub2in.ping == old(pub2in.ping)
      ensures pub2in.Contents() == NotDone(old(pub2in.Contents()))
      ensures taken == old(taken) + Takes(Done(old(pub2in.Contents())))
    {
      hide Delivered, Takes, Indexes, DistinctIds, DoneLen, PowerOf2;
      ghost var q := pub2in.Contents();
      var done := pub2in.Acked();
      assert [] + Done(q) == Done(q);
      ForwardAll(done);
    }

    method Answer(r: Reply)
      requires Valid()
      modifies this`sent
      ensures Valid() && View() == old(View()).(sent := old(sent) + [r])
    {
      sent := sent + [r];
    }

    /** The loop of processAcked. */
    method ForwardAll(done: seq<Ackmsg>)
      requires forwarded == Delivered(taken)
      modifies this`forwarded, this`taken
      ensures forwarded == Delivered(taken) && taken == old(taken) + Takes(done)
    {
      hide Delivered;
      assert done[..|done|] == done;
      for i := 0 to |done|
        invariant forwarded == Delivered(taken) && taken == old(taken) + Takes(done[..i])
      {
        assert done[..i + 1][..i] == done[..i];
        if done[i].state == PUBREL {
          ForwardOne(done[i]);
        }
      }
    }

    method ForwardOne(a: Ackmsg)
      requires forwarded == Delivered(taken)
      modifies this`forwarded, this`taken
      ensures forwarded == Delivered(taken) && taken == old(taken) + [AppOf(a)]
    {
      hide P.Parse;
      var msg := new PM.PublishMessage();
      var n, e := msg.Decode(a.msgbuf);
      taken := taken + [AppOf(a)];
      assert taken[..|taken| - 1] == old(taken);
      if e.None? {
        forwarded := forwarded + [msg.View()];
      }
    }
  }

  // ----- whole runs -----

  /** A PUBLISH that the queue accepts: it can be encoded and is not a retransmission of a message
      still there. */
  ghost predicate IsNew(tr: Trace) {
    tr.After? && tr.now.Pub? && Enters(Run(tr.past).live, PublishOf(tr.now))
  }

  /** The messages that ever entered the queue, in arrival order, each with whether a PUBREL
      for it has come since. */
  ghost function Log(tr: Trace): seq<(App, bool)> {
    if tr == Nothing then []
    else match tr.now
      case Pub(id, _, body, _) => Log(tr.past) + if IsNew(tr) then [((id, body), false)] else []
      case Rel(id) => Release(Log(tr.past), id)
  }

  function Release(log: seq<(App, bool)>, id: uint16): (r: seq<(App, bool)>)
    ensures |r| == |log| && forall i :: 0 <= i < |log| ==> r[i] == (log[i].0, log[i].1 || log[i].0.0 == id)
  {
    seq(|log|, i requires 0 <= i < |log| => (log[i].0, log[i].1 || log[i].0.0 == id))
  }

  function Sealed(apps: seq<App>): (r: seq<(App, bool)>)
    ensures |r| == |apps| && forall i :: 0 <= i < |apps| ==> r[i] == (apps[i], true)
  {
    seq(|apps|, i requires 0 <= i < |apps| => (apps[i], true))
  }

  function Entries(q: Live): (r: seq<(App, bool)>)
    ensures |r| == |q| && forall i :: 0 <= i < |q| ==> r[i] == (AppOf(q[i]), q[i].state == PUBREL)
  {
    seq(|q|, i requires 0 <= i < |q| => (AppOf(q[i]), q[i].state == PUBREL))
  }

  /** How many arrivals have been released without a gap. */
  function ReleasedLen(log: seq<(App, bool)>): (n: nat)
    ensures n <= |log| && (forall i :: 0 <= i < n ==> log[i].1) && (n < |log| ==> !log[n].1)
  {
    if log == [] || !log[0].1 then 0 else 1 + ReleasedLen(log[1..])
  }

  ghost predicate Handshake(q: Live) {
    DistinctIds(q) && forall i :: 0 <= i < |q| ==> q[i].state == RESERVED || q[i].state == PUBREL
  }

  lemma {:induction false} TakesSealed(done: Live)
    requires forall i :: 0 <= i < |done| ==> done[i].state == PUBREL
    ensures Sealed(Takes(done)) == Entries(done)
  {
    if done != [] {
      TakesSealed(done[..|done| - 1]);
    }
  }

  lemma SealedAdd(a: seq<App>, b: seq<App>)
    ensures Sealed(a + b) == Sealed(a) + Sealed(b)
  {
  }

  lemma MarkedHandshake(q: Live, id: uint16)
    requires Handshake(q)
    ensures Handshake(MarkAll(q, PubrelOf(id)))
    ensures Release(Entries(q), id) == Entries(MarkAll(q, PubrelOf(id)))
  {
  }

  lemma SplitHandshake(q: Live)
    requires Handshake(q)
    ensures Handshake(NotDone(q)) && (NotDone(q) == [] || NotDone(q)[0].state != PUBREL)
    ensures Entries(q) == Sealed(Takes(Done(q))) + Entries(NotDone(q))
  {
    hide Entries, Takes, Sealed;
    var d := DoneLen(q);
    RestHandshake(q, d);
    assert forall i :: 0 <= i < d ==> q[..d][i].state == PUBREL;
    TakesSealed(q[..d]);
    EntriesAdd(q[..d], q[d..]);
    assert q == q[..d] + q[d..];
  }

  lemma RestHandshake(q: Live, d: nat)
    requires Handshake(q) && d <= |q|
    ensures Handshake(q[d..])
  {
  }

  lemma EntriesAdd(a: Live, b: Live)
    ensures Entries(a + b) == Entries(a) + Entries(b)
  {
  }

  lemma ReleaseSplit(apps: seq<App>, rest: seq<(App, bool)>, id: uint16)
    ensures Release(Sealed(apps) + rest, id) == Sealed(apps) + Release(rest, id)
  {
  }

  /** Nothing queued is lost, duplicated or reordered: the arrivals are what has been
      taken, all of it released, followed by what is still waiting. */
  lemma {:induction false} Conservation(tr: Trace)
    ensures Handshake(Run(tr).live)
    ensures Log(tr) == Sealed(Run(tr).taken) + Entries(Run(tr).live)
  {
    hide Handshake, Sealed, Entries, Enqueue, MarkAll, Done, NotDone, Takes, Enters, Release;
    if tr.After? {
      Conservation(tr.past);
      var s := Run(tr.past);
      match tr.now
      case Pub(id, _, body, _) =>
        EnqueuePub(s.live, tr.now);
        var more := if IsNew(tr) then [((id, body), false)] else [];
        ConcatAssoc(Sealed(s.taken), Entries(s.live), more);
      case Rel(id) =>
        ReleaseConserves(s.taken, s.live, id);
    } else {
      NothingArrived();
    }
  }

  lemma NothingArrived()
    ensures Handshake([]) && [] == Sealed([]) + Entries([])
  {
  }

  lemma ReleaseConserves(taken: seq<App>, live: Live, id: uint16)
    requires Handshake(live)
    ensures var q := MarkAll(live, PubrelOf(id));
      Handshake(NotDone(q)) && Release(Sealed(taken) + Entries(live), id) == Sealed(taken + Takes(Done(q))) + Entries(NotDone(q))
  {
    hide Handshake, Sealed, Entries, Done, NotDone, Takes, Release;
    var q := MarkAll(live, PubrelOf(id));
    MarkedHandshake(live, id);
    SplitHandshake(q);
    ReleaseSplit(taken, Entries(live), id);
    SealedAdd(taken, Takes(Done(q)));
    ConcatAssoc(Sealed(taken), Sealed(Takes(Done(q))), Entries(NotDone(q)));
  }

  lemma EnqueuePub(q: Live, e: Event)
    requires Handshake(q) && e.Pub?
    ensures var r := Enqueue(q, PublishOf(e));
      Handshake(r) && Entries(r) == Entries(q) + if Enters(q, PublishOf(e)) then [((e.id, e.body), false)] else []
  {
  }

  lemma {:induction false} HeadUnreleased(tr: Trace)
    ensures Run(tr).live == [] || Run(tr).live[0].state != PUBREL
  {
    if tr.After? {
      HeadUnreleased(tr.past);
      Conservation(tr.past);
      if tr.now.Rel? {
        MarkedHandshake(Run(tr.past).live, tr.now.id);
        SplitHandshake(MarkAll(Run(tr.past).live, PubrelOf(tr.now.id)));
      }
    }
  }

  function Apps(log: seq<(App, bool)>): (r: seq<App>)
    ensures |r| == |log| && forall i :: 0 <= i < |log| ==> r[i] == log[i].0
  {
    seq(|log|, i requires 0 <= i < |log| => log[i].0)
  }

  /** The part of the arrivals that has been released without a gap. */
  function Ripe(log: seq<(App, bool)>): seq<App> {
    Apps(log[..ReleasedLen(log)])
  }

  /** Taken and forwarded so far, in arrival order: the longest prefix of the arrivals each of
      which has had its PUBREL. So each message is handed on once, as soon as it and all before
      it are released. */
  lemma ForwardedExactly(tr: Trace)
    ensures Run(tr).taken == Ripe(Log(tr)) && Forwarded(tr) == Delivered(Ripe(Log(tr)))
  {
    hide Delivered, Run, Log;
    Conservation(tr);
    HeadUnreleased(tr);
    TakenIsRipe(Run(tr).taken, Run(tr).live, Log(tr));
  }

  lemma TakenIsRipe(taken: seq<App>, live: Live, log: seq<(App, bool)>)
    requires log == Sealed(taken) + Entries(live) && (live == [] || live[0].state != PUBREL)
    ensures ReleasedLen(log) == |taken| && Ripe(log) == taken
  {
    var f := |taken|;
    if f < |log| { assert log[f] == Entries(live)[0]; }
    assert forall i :: 0 <= i < f ==> log[i] == Sealed(taken)[i];
    ReleasedLenUnique(log, f);
  }

  /** What is handed on is the message the client sent, if its packet survives its round trip. */
  lemma HandedOnAsSent(id: uint16, m: P.Msg)
    requires P.Encodable(m) && P.Survives(m)
    ensures HandOn((id, P.WireOf(m))) == [m]
  {
    hide P.Parse, P.WireOf, P.Survives;
    assert P.WireOf(m) + [] == P.WireOf(m);
    P.PublishRoundTrip(m, []);
  }

  lemma {:induction false} ReleasedLenUnique(log: seq<(App, bool)>, n: nat)
    requires n <= |log| && (forall i :: 0 <= i < n ==> log[i].1) && (n < |log| ==> !log[n].1)
    ensures ReleasedLen(log) == n
  {
  }

  /** Every packet is answered: a PUBLISH with PUBREC, retransmitted or not, a PUBREL with PUBCOMP. */
  function Answers(tr: Trace): seq<Reply> {
    if tr == Nothing then []
    else Answers(tr.past) + [if tr.now.Pub? then Pubrec(tr.now.id) else Pubcomp(tr.now.id)]
  }

  lemma {:induction false} AllAnswered(tr: Trace)
    ensures Run(tr).sent == Answers(tr)
  {
    if tr.After? { AllAnswered(tr.past); }
  }

  // ----- against section 4.3.3 -----

  /** The receiver of section 4.3.3 of MQTT Version 5.0: an identifier is in use from its
      PUBLISH until its PUBREL, and a PUBLISH that finds it free is a new message. */
  ghost function InUse(tr: Trace): set<uint16> {
    if tr == Nothing then {}
    else if tr.now.Pub? then InUse(tr.past) + {tr.now.id}
    else InUse(tr.past) - {tr.now.id}
  }

  /** The broker takes a PUBLISH for a new message exactly when section 4.3.3 does. */
  ghost predicate NewAlike(tr: Trace) {
    tr.After? && tr.now.Pub? ==> (IsNew(tr) <==> tr.now.id !in InUse(tr.past))
  }

  ghost predicate AlwaysAlike(tr: Trace) {
    NewAlike(tr) && (tr.After? ==> AlwaysAlike(tr.past))
  }

  /** The messages that are new by section 4.3.3, in arrival order, each with whether it has been
      released: a matter of the history alone. */
  ghost function FirstArrivals(tr: Trace): seq<(App, bool)> {
    if tr == Nothing then []
    else match tr.now
      case Pub(id, _, body, _) => FirstArrivals(tr.past) + if id in InUse(tr.past) then [] else [((id, body), false)]
      case Rel(id) => Release(FirstArrivals(tr.past), id)
  }

  /** The identifier's last message has been released, but an earlier message has not. */
  ghost predicate HeldBack(log: seq<(App, bool)>, id: uint16) {
    exists i :: ReleasedLen(log) <= i < |log| && log[i].0.0 == id && log[i].1
  }

  /** No PUBLISH of the history reuses an identifier whose message is held back when it comes, and
      none that is new cannot be encoded. */
  ghost predicate Safe(tr: Trace) {
    tr.After? ==>
      && Safe(tr.past)
      && (tr.now.Pub? ==>
        !HeldBack(FirstArrivals(tr.past), tr.now.id) && (tr.now.fails ==> tr.now.id in InUse(tr.past)))
  }

  /** The same in terms of the queue. */
  ghost predicate Blocked(q: Live, id: uint16) {
    exists i :: 0 <= i < |q| && q[i].pktid == id && q[i].state == PUBREL
  }

  lemma BlockedIsHeldBack(tr: Trace, id: uint16)
    ensures Blocked(Run(tr).live, id) <==> HeldBack(Log(tr), id)
  {
    hide Run, Log, Blocked, HeldBack;
    Conservation(tr);
    HeadUnreleased(tr);
    BlockedEntries(Run(tr).taken, Run(tr).live, Log(tr), id);
  }

  lemma BlockedEntries(taken: seq<App>, live: Live, log: seq<(App, bool)>, id: uint16)
    requires log == Sealed(taken) + Entries(live) && (live == [] || live[0].state != PUBREL)
    ensures Blocked(live, id) <==> HeldBack(log, id)
  {
    hide Sealed, Entries, Blocked, HeldBack, Ripe, ReleasedLen;
    TakenIsRipe(taken, live, log);
    assert log[|taken|..] == Entries(live);
    BlockedTail(live, log, |taken|, id);
  }

  lemma BlockedTail(live: Live, log: seq<(App, bool)>, k: nat, id: uint16)
    requires ReleasedLen(log) == k <= |log| && log[k..] == Entries(live)
    ensures Blocked(live, id) <==> HeldBack(log, id)
  {
    hide ReleasedLen, Entries, Blocked, HeldBack;
    if Blocked(live, id) {
      var i := BlockedAt(live, id);
      assert log[k..][i] == log[k + i];
      HeldAt(log, id, k + i);
    }
    if HeldBack(log, id) {
      var i := HeldWhere(log, id);
      assert log[k..][i - k] == log[i];
      BlockedIf(live, id, i - k);
    }
  }

  lemma BlockedAt(live: Live, id: uint16) returns (i: nat)
    requires Blocked(live, id)
    ensures i < |live| && Entries(live)[i].0.0 == id && Entries(live)[i].1
  {
    i :| i < |live| && live[i].pktid == id && live[i].state == PUBREL;
  }

  lemma BlockedIf(live: Live, id: uint16, i: nat)
    requires i < |live| && Entries(live)[i].0.0 == id && Entries(live)[i].1
    ensures Blocked(live, id)
  {
  }

  lemma HeldAt(log: seq<(App, bool)>, id: uint16, i: nat)
    requires ReleasedLen(log) <= i < |log| && log[i].0.0 == id && log[i].1
    ensures HeldBack(log, id)
  {
  }

  lemma HeldWhere(log: seq<(App, bool)>, id: uint16) returns (i: nat)
    requires HeldBack(log, id)
    ensures ReleasedLen(log) <= i < |log| && log[i].0.0 == id && log[i].1
  {
    i :| ReleasedLen(log) <= i < |log| && log[i].0.0 == id && log[i].1;
  }

  ghost predicate InUseMatches(q: Live, inUse: set<uint16>) {
    forall id :: id in inUse <==> Waiting(q, id) && !Blocked(q, id)
  }

  /** In a safe history queue and standard agree on the identifiers in use and on the arrivals. */
  lemma {:induction false} SafeAgrees(tr: Trace)
    requires Safe(tr)
    ensures InUseMatches(Run(tr).live, InUse(tr))
    ensures Log(tr) == FirstArrivals(tr)
  {
    hide HeldBack, Enqueue, InUseMatches, NotDone, Done;
    if tr.After? {
      SafeAgrees(tr.past);
      Conservation(tr.past);
      var q := Run(tr.past).live;
      match tr.now
      case Pub(id, _, _, _) =>
        BlockedIsHeldBack(tr.past, id);
        InUsePub(q, tr.now, InUse(tr.past));
      case Rel(id) =>
        MarkedHandshake(q, id);
        InUseMark(q, id, InUse(tr.past));
        InUseDone(MarkAll(q, PubrelOf(id)), InUse(tr));
    } else {
      NobodyInUse();
    }
  }

  lemma NobodyInUse()
    ensures InUseMatches([], {})
  {
  }

  lemma InUsePub(q: Live, e: Event, inUse: set<uint16>)
    requires Handshake(q) && e.Pub? && InUseMatches(q, inUse) && !Blocked(q, e.id) && (e.fails ==> e.id in inUse)
    ensures InUseMatches(Enqueue(q, PublishOf(e)), inUse + {e.id})
    ensures Enters(q, PublishOf(e)) <==> e.id !in inUse
  {
    var r := Enqueue(q, PublishOf(e));
    if !Waiting(q, e.id) {
      assert r[|q|].pktid == e.id && r[|q|].state == RESERVED;
      assert Waiting(r, e.id);
      forall id | id != e.id ensures (Waiting(q, id) <==> Waiting(r, id)) && (Blocked(q, id) <==> Blocked(r, id)) {
        assert forall i :: 0 <= i < |q| ==> r[i] == q[i];
      }
    }
  }

  lemma InUseMark(q: Live, id: uint16, inUse: set<uint16>)
    requires Handshake(q) && InUseMatches(q, inUse)
    ensures InUseMatches(MarkAll(q, PubrelOf(id)), inUse - {id})
  {
  }

  /** Dropping the completed prefix drops blocked identifiers only. */
  lemma InUseDone(q: Live, inUse: set<uint16>)
    requires Handshake(q) && InUseMatches(q, inUse)
    ensures InUseMatches(NotDone(q), inUse)
  {
  }

  /** The broker accepts, at every point of the history, exactly the messages section 4.3.3
      takes for new if and only if the history is safe. A PUBLISH that makes it unsafe is
      answered and dropped. */
  lemma {:induction false} StandardExactly(tr: Trace)
    ensures AlwaysAlike(tr) <==> Safe(tr)
  {
    hide HeldBack;
    if tr.After? {
      StandardExactly(tr.past);
      if Safe(tr.past) && tr.now.Pub? {
        SafeAgrees(tr.past);
        BlockedIsHeldBack(tr.past, tr.now.id);
        var q, id := Run(tr.past).live, tr.now.id;
        if Blocked(q, id) {
          var i :| 0 <= i < |q| && q[i].pktid == id && q[i].state == PUBREL;
          assert Waiting(q, id);
        }
      }
    }
  }

  /** Exactly once: after a safe history the messages handed on are, in arrival order, the first
      arrivals of section 4.3.3 up to the first one that has not been released. */
  lemma ExactlyOnce(tr: Trace)
    requires Safe(tr)
    ensures Run(tr).taken == Ripe(FirstArrivals(tr)) && Forwarded(tr) == Delivered(Ripe(FirstArrivals(tr)))
  {
    SafeAgrees(tr);
    ForwardedExactly(tr);
  }

  /** The packet of each arrival is that of a message that survives its round trip. */
  ghost predicate PacketsOf(apps: seq<App>, msgs: seq<P.Msg>) {
    |apps| == |msgs| && forall i :: 0 <= i < |apps| ==> P.Encodable(msgs[i]) && P.Survives(msgs[i]) && apps[i].1 == P.WireOf(msgs[i])
  }

  lemma {:induction false} DeliveredAsSent(apps: seq<App>, msgs: seq<P.Msg>)
    requires PacketsOf(apps, msgs)
    ensures Delivered(apps) == msgs
    decreases |apps|
  {
    hide P.Encodable, P.Survives, P.WireOf, HandOn;
    if apps != [] {
      var n := |apps| - 1;
      DeliveredAsSent(apps[..n], msgs[..n]);
      HandedOnAsSent(apps[n].0, msgs[n]);
      assert msgs == msgs[..n] + [msgs[n]];
    }
  }

  /** So if these packets survive their round trip, the subscribers get the messages themselves,
      each once and in the order of arrival. */
  lemma OnceAndInOrder(tr: Trace, msgs: seq<P.Msg>)
    requires Safe(tr) && PacketsOf(Ripe(FirstArrivals(tr)), msgs)
    ensures Forwarded(tr) == msgs
  {
    hide PacketsOf, Delivered;
    ExactlyOnce(tr);
    DeliveredAsSent(Ripe(FirstArrivals(tr)), msgs);
  }

  /** The other way to lose a message: it cannot be encoded, say for want of a payload. */
  lemma UnencodableDropped(id: uint16, body: seq<byte>)
    ensures var tr := After(Nothing, Pub(id, false, body, true));
      Run(tr) == State([], [], [Pubrec(id)]) && id !in InUse(tr.past) && !IsNew(tr) && !Safe(tr)
  {
    assert Run(Nothing) == Start && InUse(Nothing) == {};
  }

  /** A new message lost: 1 and 2 arrive, 2 is released and its identifier reused. */
  lemma ReuseDropped(a: seq<byte>, b: seq<byte>, c: seq<byte>)
    ensures var tr := After(After(After(After(Nothing, Pub(1, false, a, false)), Pub(2, false, b, false)), Rel(2)), Pub(2, false, c, false));
      Run(tr).sent == [Pubrec(1), Pubrec(2), Pubcomp(2), Pubrec(2)] && 2 !in InUse(tr.past) && !IsNew(tr)
  {
    hide Enqueue, MarkAll, DoneLen, Takes;
    var e1, e2, e4 := Pub(1, false, a, false), Pub(2, false, b, false), Pub(2, false, c, false);
    var t1 := After(Nothing, e1);
    var t2 := After(t1, e2);
    var t3 := After(t2, Rel(2));
    var m1, m2 := Fresh(PublishOf(e1)), Fresh(PublishOf(e2));
    assert Run(Nothing) == Start;
    FirstTwo(e1, e2);
    assert Run(t1) == State([m1], [], [Pubrec(1)]);
    assert Run(t2) == State([m1, m2], [], [Pubrec(1), Pubrec(2)]);
    SecondReleased(m1, m2);
    var s := Step(Run(t2), Rel(2));
    assert Run(t3) == s && s.live[1].pktid == 2;
    assert Step(s, e4).sent == s.sent + [Pubrec(2)];
  }

  lemma FirstTwo(e1: Event, e2: Event)
    requires e1.Pub? && e2.Pub? && e1.id != e2.id && !e1.fails && !e2.fails
    ensures Enqueue([], PublishOf(e1)) == [Fresh(PublishOf(e1))]
    ensures Enqueue([Fresh(PublishOf(e1))], PublishOf(e2)) == [Fresh(PublishOf(e1)), Fresh(PublishOf(e2))]
  {
  }

  lemma SecondReleased(m1: Ackmsg, m2: Ackmsg)
    requires m1.pktid == 1 && m2.pktid == 2 && m1.state == m2.state == RESERVED
    ensures var q := MarkAll([m1, m2], PubrelOf(2)); q[0] == m1 && NotDone(q) == q && Takes(Done(q)) == []
  {
    var q := MarkAll([m1, m2], PubrelOf(2));
    assert q[0] == m1;
    assert DoneLen(q) == 0;
  }
}
