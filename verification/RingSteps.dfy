/** The byte ring with its producer and its consumer running at once. Each atomic load and
    store is a step of its own; a party that would wait simply has no step to take. */
module RingSteps {
  import opened Common
  import opened RingWindow

  datatype Producer =
    | PIdle
    | PLoaded(need: nat, ppos: nat)                     // cursor read, room not yet known
    | PReady(start: nat, room: nat, stored: seq<byte>)  // room granted, storing byte by byte

  datatype Consumer =
    | CIdle
    | CLoaded(cpos: nat)                                // cursor read, nothing seen yet
    | CReading(cpos: nat, n: nat, got: seq<byte>)       // n bytes seen published, reading byte by byte

  /** The shared memory, the program counters of both parties, and the history of bytes. */
  datatype World = World(cells: seq<byte>, pseq: nat, gate: nat, cseq: nat, prod: Producer, cons: Consumer,
                         published: seq<byte>, consumed: seq<byte>)

  datatype Move =
    | BeginWrite(n: nat)  // load pseq
    | TrustGate           // the cached gate leaves room
    | LoadConsumer        // it does not: load cseq and cache it
    | Store(b: byte)      // one byte into the granted room
    | Publish             // store pseq
    | GiveUp              // return without publishing, whatever has been stored
    | BeginRead           // load cseq
    | LoadProducer(n: nat)// load pseq: n bytes are there
    | Fetch               // one byte out
    | Commit              // store cseq
    | Abandon             // a peek that commits nothing

  /** `next - size > gate || gate > ppos` */
  predicate GateTooOld(w: World, ppos: nat, n: nat) {
    ppos + n - |w.cells| > w.gate || w.gate > ppos
  }

  predicate Enabled(w: World, m: Move) {
    match m
    case BeginWrite(_) => w.prod.PIdle?
    case TrustGate => w.prod.PLoaded? && !GateTooOld(w, w.prod.ppos, w.prod.need)
    case LoadConsumer =>
      // while loading the room, or again when committing what has been stored in it
      || (w.prod.PLoaded? && GateTooOld(w, w.prod.ppos, w.prod.need) && w.prod.ppos + w.prod.need - |w.cells| <= w.cseq)
      || (w.prod.PReady? && GateTooOld(w, w.prod.start, |w.prod.stored|))
    case Store(_) => w.prod.PReady? && |w.prod.stored| < w.prod.room && w.cells != []
    case Publish => w.prod.PReady?
    case GiveUp => !w.prod.PIdle?
    case BeginRead => w.cons.CIdle?
    case LoadProducer(n) => w.cons.CLoaded? && w.cons.cpos + n <= w.pseq
    case Fetch => w.cons.CReading? && |w.cons.got| < w.cons.n && w.cells != []
    case Commit => w.cons.CReading? && |w.cons.got| == w.cons.n
    case Abandon => w.cons.CReading?
  }

  /** The cell the next store goes to. */
  function StoreCell(w: World): nat
    requires w.prod.PReady? && w.cells != []
  {
    (w.prod.start + |w.prod.stored|) % |w.cells|
  }

  function Do(w: World, m: Move): World {
    if !Enabled(w, m) then w
    else match m
      case BeginWrite(n) => w.(prod := PLoaded(n, w.pseq))
      case TrustGate => w.(prod := PReady(w.prod.ppos, w.prod.need, []))
      case LoadConsumer =>
        if w.prod.PLoaded? then w.(gate := w.cseq, prod := PReady(w.prod.ppos, w.prod.need, []))
        else w.(gate := w.cseq)
      case Store(b) =>
        w.(cells := w.cells[StoreCell(w) := b], prod := w.prod.(stored := w.prod.stored + [b]))
      case Publish =>
        w.(pseq := w.prod.start + |w.prod.stored|, published := w.published + w.prod.stored, prod := PIdle)
      case GiveUp => w.(prod := PIdle)
      case BeginRead => w.(cons := CLoaded(w.cseq))
      case LoadProducer(n) => w.(cons := CReading(w.cons.cpos, n, []))
      case Fetch =>
        w.(cons := w.cons.(got := w.cons.got + [w.cells[(w.cons.cpos + |w.cons.got|) % |w.cells|]]))
      case Commit =>
        w.(cseq := w.cons.cpos + w.cons.n, consumed := w.consumed + w.cons.got, cons := CIdle)
      case Abandon => w.(cons := CIdle)
  }

  /** Any interleaving: the steps taken so far, the last one outermost. */
  datatype Trace = Start(cells: seq<byte>) | Then(past: Trace, move: Move)

  function Reached(tr: Trace): World {
    match tr
    case Start(cells) => World(cells, 0, 0, 0, PIdle, CIdle, [], [])
    case Then(past, m) => Do(Reached(past), m)
  }

  predicate HasRing(tr: Trace) {
    match tr case Start(cells) => cells != [] case Then(past, _) => HasRing(past)
  }

  // ----- the invariant -----

  ghost predicate Cursors(w: World) {
    w.cells != [] && w.gate <= w.cseq <= w.pseq <= w.cseq + |w.cells|
  }

  /** The cells from cseq to pseq hold what has been published last. */
  ghost predicate History(w: World)
    requires w.cells != []
  {
    && |w.published| == w.pseq && w.cseq <= w.pseq && w.consumed == w.published[..w.cseq]
    && forall i :: w.cseq <= i < w.pseq ==> w.cells[i % |w.cells|] == w.published[i]
  }

  ghost predicate ProducerOk(w: World)
    requires w.cells != []
  {
    match w.prod
    case PIdle => true
    case PLoaded(_, ppos) => ppos == w.pseq
    case PReady(start, room, stored) =>
      && start == w.pseq && |stored| <= room && start + room <= w.gate + |w.cells|
      && forall i :: start <= i < start + |stored| ==> w.cells[i % |w.cells|] == stored[i - start]
  }

  ghost predicate ConsumerOk(w: World) {
    match w.cons
    case CIdle => true
    case CLoaded(cpos) => cpos == w.cseq
    case CReading(cpos, n, got) =>
      cpos == w.cseq && |got| <= n && cpos + n <= w.pseq && cpos + n <= |w.published| && got == w.published[cpos..cpos + |got|]
  }

  ghost predicate Inv(w: World) {
    Cursors(w) && History(w) && ProducerOk(w) && ConsumerOk(w)
  }

  /** Positions less than a ring apart use different cells. */
  lemma CellsDiffer(a: nat, b: nat, size: nat)
    requires a < b < a + size
    ensures a % size != b % size
  {
    PositionCell(a, size, b - a);
    assert Cell(a % size, size, b - a) != a % size;
  }

  lemma StoreApart(w: World)
    requires Inv(w) && w.prod.PReady? && |w.prod.stored| < w.prod.room
    ensures forall i :: w.cseq <= i < w.pseq + |w.prod.stored| ==> i % |w.cells| != StoreCell(w)
  {
    var at := w.prod.start + |w.prod.stored|;
    forall i | w.cseq <= i < at ensures i % |w.cells| != StoreCell(w) {
      CellsDiffer(i, at, |w.cells|);
    }
  }

  lemma StoreKeeps(w: World, b: byte)
    requires Inv(w) && Enabled(w, Store(b))
    ensures Inv(Do(w, Store(b)))
  {
    hide StoreCell, GateTooOld, History, ProducerOk, ConsumerOk;
    StoreApart(w);
    StoreBehind(w, b);
  }

  lemma StoreBehind(w: World, b: byte)
    requires Inv(w) && w.prod.PReady? && |w.prod.stored| < w.prod.room && Enabled(w, Store(b))
    requires forall i :: w.cseq <= i < w.pseq + |w.prod.stored| ==> i % |w.cells| != StoreCell(w)
    ensures Inv(Do(w, Store(b)))
  {
    hide GateTooOld;
    var w' := Do(w, Store(b));
    forall i | w.prod.start <= i < w.prod.start + |w'.prod.stored|
      ensures w'.cells[i % |w.cells|] == w'.prod.stored[i - w.prod.start]
    {
      assert i < w.prod.start + |w.prod.stored| || i == w.prod.start + |w.prod.stored|;
    }
  }

  /** The bytes stored join the history. */
  lemma HistoryGrows(cells: seq<byte>, published: seq<byte>, stored: seq<byte>, from: nat)
    requires cells != [] && from <= |published|
    requires forall i :: from <= i < |published| ==> cells[i % |cells|] == published[i]
    requires forall i :: |published| <= i < |published| + |stored| ==> cells[i % |cells|] == stored[i - |published|]
    ensures forall i :: from <= i < |published| + |stored| ==> cells[i % |cells|] == (published + stored)[i]
  {
  }

  lemma PublishKeeps(w: World)
    requires Inv(w) && Enabled(w, Publish)
    ensures Inv(Do(w, Publish))
  {
    HistoryGrows(w.cells, w.published, w.prod.stored, w.cseq);
    assert (w.published + w.prod.stored)[..w.cseq] == w.published[..w.cseq];
  }

  lemma FetchKeeps(w: World)
    requires Inv(w) && Enabled(w, Fetch)
    ensures Inv(Do(w, Fetch))
  {
  }

  lemma CommitKeeps(w: World)
    requires Inv(w) && Enabled(w, Commit)
    ensures Inv(Do(w, Commit))
  {
  }

  /** Loads, grants and steps back touch neither bytes nor cursors. */
  lemma QuietKeeps(w: World, m: Move)
    requires Inv(w) && !(m.Store? || m.Publish? || m.Fetch? || m.Commit?)
    ensures Inv(Do(w, m))
  {
  }

  /** Every step of either party keeps the ring in order. */
  lemma StepKeeps(w: World, m: Move)
    requires Inv(w)
    ensures Inv(Do(w, m))
  {
    hide Inv, Enabled;
    if Enabled(w, m) {
      match m
      case Store(b) => StoreKeeps(w, b);
      case Publish => PublishKeeps(w);
      case Fetch => FetchKeeps(w);
      case Commit => CommitKeeps(w);
      case _ => QuietKeeps(w, m);
    }
  }

  lemma {:induction false} AlwaysInOrder(tr: Trace)
    requires HasRing(tr)
    ensures Inv(Reached(tr))
  {
    match tr
    case Start(_) =>
    case Then(past, m) =>
      AlwaysInOrder(past);
      StepKeeps(Reached(past), m);
  }

  // ----- what it gives -----

  function Unread(w: World): (q: seq<byte>)
    requires w.cells != [] && w.cseq <= w.pseq
    ensures |q| == w.pseq - w.cseq && forall i :: 0 <= i < |q| ==> q[i] == w.cells[(w.cseq + i) % |w.cells|]
  {
    seq(w.pseq - w.cseq, i requires 0 <= i < w.pseq - w.cseq => w.cells[(w.cseq + i) % |w.cells|])
  }

  lemma UnreadIsPublished(w: World)
    requires w.cells != [] && History(w)
    ensures Unread(w) == w.published[w.cseq..]
  {
    forall i | 0 <= i < |Unread(w)| ensures Unread(w)[i] == w.published[w.cseq..][i] {
      assert w.cells[(w.cseq + i) % |w.cells|] == w.published[w.cseq + i];
    }
  }

  /** In every interleaving the bytes consumed, followed by those in the ring, are the bytes published. */
  lemma NothingLost(tr: Trace)
    requires HasRing(tr)
    ensures var w := Reached(tr);
      w.cells != [] && w.gate <= w.cseq <= w.pseq <= w.cseq + |w.cells| && w.consumed + Unread(w) == w.published
  {
    hide Reached, ProducerOk, ConsumerOk, Unread;
    AlwaysInOrder(tr);
    var w := Reached(tr);
    UnreadIsPublished(w);
    assert w.published == w.published[..w.cseq] + w.published[w.cseq..];
  }

  /** No store lands on an unread byte, though the producer may be going by a gate the
      consumer has long passed. */
  lemma NoUnreadByteOverwritten(tr: Trace, b: byte, i: nat)
    requires HasRing(tr) && Enabled(Reached(tr), Store(b))
    requires Reached(tr).cseq <= i < Reached(tr).pseq
    ensures i % |Reached(tr).cells| != StoreCell(Reached(tr))
  {
    AlwaysInOrder(tr);
    StoreApart(Reached(tr));
  }

  /** A read in progress holds exactly the oldest unread bytes, whatever the producer does meanwhile. */
  lemma ReadsAreWhole(tr: Trace)
    requires HasRing(tr) && Reached(tr).cons.CReading?
    ensures var w := Reached(tr);
      w.cells != [] && w.cseq <= w.pseq && w.cons.got <= Unread(w)
  {
    hide Reached, ProducerOk, Unread;
    AlwaysInOrder(tr);
    var w := Reached(tr);
    var k := |w.cons.got|;
    UnreadIsPublished(w);
    assert w.published[w.cseq..][..k] == w.published[w.cseq..w.cseq + k];
  }

  /** Freed room is found in the end: when the consumer has moved on, a producer that cannot go
      by its gate can reload it, and whenever there is room one of the two ways is open. */
  lemma RoomIsFound(tr: Trace)
    requires HasRing(tr) && Reached(tr).prod.PLoaded?
    ensures var w := Reached(tr);
      (w.prod.ppos + w.prod.need <= w.cseq + |w.cells|) <==> Enabled(w, TrustGate) || Enabled(w, LoadConsumer)
  {
    AlwaysInOrder(tr);
  }

  // ----- what a write and a read do, whatever happens in between -----

  predicate OfProducer(m: Move) {
    m.BeginWrite? || m.TrustGate? || m.LoadConsumer? || m.Store? || m.Publish? || m.GiveUp?
  }

  /** Every step of ms is open when its turn comes. */
  predicate Open(w: World, ms: seq<Move>)
    decreases |ms|
  {
    ms == [] || (Enabled(w, ms[0]) && Open(Do(w, ms[0]), ms[1..]))
  }

  function After(w: World, ms: seq<Move>): World
    decreases |ms|
  {
    if ms == [] then w else After(Do(w, ms[0]), ms[1..])
  }

  function Extended(tr: Trace, ms: seq<Move>): Trace
    decreases |ms|
  {
    if ms == [] then tr else Extended(Then(tr, ms[0]), ms[1..])
  }

  lemma {:induction false} AfterIsReached(tr: Trace, ms: seq<Move>)
    ensures Reached(Extended(tr, ms)) == After(Reached(tr), ms) && HasRing(Extended(tr, ms)) == HasRing(tr)
    decreases |ms|
  {
    if ms != [] { AfterIsReached(Then(tr, ms[0]), ms[1..]); }
  }

  /** The rest of a write, seen from the producer: the bytes of p are stored, then published. The
      consumer may do what it likes in between. */
  predicate StoresAndPublishes(ms: seq<Move>, p: seq<byte>)
    decreases |ms|
  {
    ms != [] &&
    match ms[0]
    case Publish => p == [] && forall m :: m in ms[1..] ==> !OfProducer(m)
    case Store(b) => p != [] && b == p[0] && StoresAndPublishes(ms[1..], p[1..])
    case BeginWrite(_) => false
    case GiveUp => false
    case _ => StoresAndPublishes(ms[1..], p)
  }

  /** The rest of a read: n bytes are seen, fetched and committed. */
  predicate FetchesAndCommits(ms: seq<Move>, n: nat, seen: bool)
    decreases |ms|
  {
    ms != [] &&
    if OfProducer(ms[0]) then FetchesAndCommits(ms[1..], n, seen)
    else match ms[0]
      case LoadProducer(k) => !seen && k == n && FetchesAndCommits(ms[1..], n, true)
      case Fetch => FetchesAndCommits(ms[1..], n, seen)
      case Commit => seen && forall m :: m in ms[1..] ==> OfProducer(m)
      case _ => false
  }

  lemma {:induction false} OnlyConsumerMoves(w: World, ms: seq<Move>)
    requires Open(w, ms) && forall m :: m in ms ==> !OfProducer(m)
    ensures var w' := After(w, ms); w'.published == w.published && w'.pseq == w.pseq && w'.prod == w.prod
    decreases |ms|
  {
    if ms != [] { assert ms[0] in ms; OnlyConsumerMoves(Do(w, ms[0]), ms[1..]); }
  }

  lemma {:induction false} OnlyProducerMoves(w: World, ms: seq<Move>)
    requires Open(w, ms) && forall m :: m in ms ==> OfProducer(m)
    ensures var w' := After(w, ms); w'.consumed == w.consumed && w'.cseq == w.cseq && w'.cons == w.cons
    decreases |ms|
  {
    if ms != [] { assert ms[0] in ms; OnlyProducerMoves(Do(w, ms[0]), ms[1..]); }
  }

  function Begun(p: Producer): seq<byte> {
    if p.PReady? then p.stored else []
  }

  lemma {:induction false} RestOfWrite(w: World, ms: seq<Move>, p: seq<byte>)
    requires Open(w, ms) && StoresAndPublishes(ms, p) && !w.prod.PIdle?
    requires w.pseq == if w.prod.PReady? then w.prod.start else w.prod.ppos
    ensures var w' := After(w, ms);
      && w'.published == w.published + (Begun(w.prod) + p) && w'.pseq == w.pseq + |Begun(w.prod) + p| && w'.prod.PIdle?
    decreases |ms|
  {
    var next := Do(w, ms[0]);
    if ms[0] == Publish {
      assert Begun(w.prod) + p == Begun(w.prod);
      OnlyConsumerMoves(next, ms[1..]);
    } else if ms[0].Store? {
      RestOfWrite(next, ms[1..], p[1..]);
      assert p == [ms[0].b] + p[1..];
      assert Begun(w.prod) + p == Begun(next.prod) + p[1..];
    } else {
      RestOfWrite(next, ms[1..], p);
    }
  }

  /** Whatever the consumer does meanwhile, a write that is carried out publishes exactly its bytes. */
  lemma WritePublishes(w: World, ms: seq<Move>, p: seq<byte>)
    requires Open(w, ms) && ms != [] && ms[0].BeginWrite? && StoresAndPublishes(ms[1..], p)
    ensures var w' := After(w, ms);
      w'.published == w.published + p && w'.pseq == w.pseq + |p| && w'.prod.PIdle?
  {
    RestOfWrite(Do(w, ms[0]), ms[1..], p);
    assert [] + p == p;
  }

  lemma {:induction false} RestOfRead(w: World, ms: seq<Move>, n: nat, seen: bool)
    requires Open(w, ms) && FetchesAndCommits(ms, n, seen)
    requires if seen then w.cons.CReading? && w.cons.cpos == w.cseq && w.cons.n == n else w.cons.CLoaded? && w.cons.cpos == w.cseq
    ensures var w' := After(w, ms); w'.cseq == w.cseq + n && w'.cons.CIdle?
    decreases |ms|
  {
    var next := Do(w, ms[0]);
    if OfProducer(ms[0]) {
      RestOfRead(next, ms[1..], n, seen);
    } else if ms[0] == Commit {
      OnlyProducerMoves(next, ms[1..]);
    } else {
      RestOfRead(next, ms[1..], n, ms[0].LoadProducer? || seen);
    }
  }

  /** Nothing but Publish publishes, whatever has been stored and given up, and nothing but Commit
      consumes, whatever has been fetched and abandoned. */
  lemma {:induction false} OthersPublishNothing(w: World, ms: seq<Move>)
    ensures Publish !in ms ==> After(w, ms).published == w.published && After(w, ms).pseq == w.pseq
    ensures Commit !in ms ==> After(w, ms).consumed == w.consumed && After(w, ms).cseq == w.cseq
    decreases |ms|
  {
    if ms != [] {
      assert ms[0] in ms && forall m :: m in ms[1..] ==> m in ms;
      OthersPublishNothing(Do(w, ms[0]), ms[1..]);
    }
  }

  lemma ReadAdvances(w: World, ms: seq<Move>, n: nat)
    requires Open(w, ms) && ms != [] && ms[0] == BeginRead && FetchesAndCommits(ms[1..], n, false)
    ensures var w' := After(w, ms); w'.cseq == w.cseq + n && w'.cons.CIdle?
  {
    RestOfRead(Do(w, ms[0]), ms[1..], n, false);
  }

  lemma {:induction false} PublishedGrows(w: World, ms: seq<Move>)
    ensures w.published <= After(w, ms).published
    decreases |ms|
  {
    if ms != [] { PublishedGrows(Do(w, ms[0]), ms[1..]); }
  }

  /** Whatever the producer does meanwhile, a read that is carried out consumes exactly the n
      oldest unread bytes - those published meanwhile included. */
  lemma ReadConsumes(tr: Trace, ms: seq<Move>, n: nat)
    requires HasRing(tr) && Open(Reached(tr), ms)
    requires ms != [] && ms[0] == BeginRead && FetchesAndCommits(ms[1..], n, false)
    ensures var w, w' := Reached(tr), After(Reached(tr), ms);
      && w'.cseq == w.cseq + n <= |w'.published| && w'.cons.CIdle? && w'.consumed == w'.published[..w.cseq + n]
      && w.cells != [] && w.cseq <= w.pseq
      && (n <= |Unread(w)| ==> w'.consumed == w.consumed + Unread(w)[..n])
  {
    hide Inv, Unread, Reached, After, Open, FetchesAndCommits, Do, Extended;
    var w, w' := Reached(tr), After(Reached(tr), ms);
    ReadAdvances(w, ms, n);
    PublishedGrows(w, ms);
    AfterIsReached(tr, ms);
    ConsumedIsPrefix(tr);
    ConsumedIsPrefix(Extended(tr, ms));
    if n <= |Unread(w)| {
      assert w'.published[..w.cseq + n] == w.published[..w.cseq + n] == w.published[..w.cseq] + w.published[w.cseq..][..n];
    }
  }

  lemma ConsumedIsPrefix(tr: Trace)
    requires HasRing(tr)
    ensures var w := Reached(tr);
      && w.cells != [] && w.cseq <= w.pseq == |w.published| && w.consumed == w.published[..w.cseq]
      && Unread(w) == w.published[w.cseq..]
  {
    hide Reached, Unread;
    AlwaysInOrder(tr);
    UnreadIsPublished(Reached(tr));
  }

  // ----- and both can be carried out -----

  function Stores(p: seq<byte>): seq<Move>
    decreases |p|
  {
    if p == [] then [Publish] else [Store(p[0])] + Stores(p[1..])
  }

  function Fetches(n: nat): seq<Move> {
    if n == 0 then [Commit] else [Fetch] + Fetches(n - 1)
  }

  lemma {:induction false} StoresOpen(w: World, p: seq<byte>)
    requires w.prod.PReady? && |w.prod.stored| + |p| <= w.prod.room && w.cells != []
    ensures Open(w, Stores(p)) && StoresAndPublishes(Stores(p), p)
    decreases |p|
  {
    if p != [] {
      StoresOpen(Do(w, Store(p[0])), p[1..]);
      assert Stores(p)[1..] == Stores(p[1..]);
    }
  }

  lemma {:induction false} FetchesOpen(w: World, k: nat)
    requires w.cons.CReading? && |w.cons.got| + k == w.cons.n && w.cells != []
    ensures Open(w, Fetches(k)) && FetchesAndCommits(Fetches(k), w.cons.n, true)
    decreases k
  {
    if k != 0 {
      FetchesOpen(Do(w, Fetch), k - 1);
      assert Fetches(k)[1..] == Fetches(k - 1);
    }
  }

  /** In every interleaving an idle producer can carry out the write of any p there is room for. */
  lemma WriteIsOpen(tr: Trace, p: seq<byte>) returns (ms: seq<Move>)
    requires HasRing(tr) && Reached(tr).prod.PIdle?
    requires Reached(tr).pseq + |p| <= Reached(tr).cseq + |Reached(tr).cells|
    ensures Open(Reached(tr), ms) && ms != [] && ms[0].BeginWrite? && StoresAndPublishes(ms[1..], p)
  {
    hide Reached;
    AlwaysInOrder(tr);
    var w := Reached(tr);
    var w1 := Do(w, BeginWrite(|p|));
    var grant := if GateTooOld(w1, w.pseq, |p|) then LoadConsumer else TrustGate;
    var w2 := Do(w1, grant);
    StoresOpen(w2, p);
    ms := [BeginWrite(|p|)] + ([grant] + Stores(p));
    assert ms[1..] == [grant] + Stores(p) && ms[1..][1..] == Stores(p);
    assert Open(w1, ms[1..]);
  }

  /** And an idle consumer the read of any number of unread bytes. */
  lemma ReadIsOpen(tr: Trace, n: nat) returns (ms: seq<Move>)
    requires HasRing(tr) && Reached(tr).cons.CIdle? && Reached(tr).cseq + n <= Reached(tr).pseq
    ensures Open(Reached(tr), ms) && ms != [] && ms[0] == BeginRead && FetchesAndCommits(ms[1..], n, false)
  {
    hide Reached;
    AlwaysInOrder(tr);
    var w := Reached(tr);
    var w1 := Do(w, BeginRead);
    var w2 := Do(w1, LoadProducer(n));
    FetchesOpen(w2, n);
    ms := [BeginRead] + ([LoadProducer(n)] + Fetches(n));
    assert ms[1..] == [LoadProducer(n)] + Fetches(n) && ms[1..][1..] == Fetches(n);
    assert Open(w1, ms[1..]);
  }
}
