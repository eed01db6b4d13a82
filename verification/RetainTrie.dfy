/** What the retained-message tree computes: what it holds after any run of insertions and removals,
    what a query finds, and its duality with the subscription tree. */
module RetainTrie {
  import opened Common
  import opened TopicLevels
  import opened TopicTree
  import opened Header
  import P = Publish
  import opened RetainMessage
  import SubTrie
  import VarInt

  /** A retained message found, with the stored path it was found at. */
  type RHit = (Path, Held)

  type RTree = Tree<Option<Held>>

  /** A message given to Retain, as its encoder leaves it. */
  type Packet = m: Held | P.BodyLen(m) <= MAX_REMAINING witness (FreshFits(); P.FRESH)

  lemma FreshFits()
    ensures P.BodyLen(P.FRESH) <= MAX_REMAINING
  {
    OnlyContentType(P.NO_PROPS);
    VarInt.VarBytesFit(0);
  }

  const Bare: RTree := Node(None, map[])

  function KeepFn(m: Packet, junk: seq<byte>, spoilt: Held): Option<Held> -> Option<Held> {
    was => Kept(was, m, junk, spoilt).held
  }

  function ClearFn(): Option<Held> -> Option<Option<Held>> {
    _ => Some(None)
  }

  /** A removal drops any childless node it comes back through, message or not. */
  function Any(): Option<Held> -> bool {
    _ => true
  }

  function Empty(): Option<Held> -> bool {
    (own: Option<Held>) => own.None?
  }

  /** An insertion gets to its node unless the name is malformed; a message that cannot be
      written changes nothing there. */
  predicate Stops(p: Parsed, m: Packet) {
    p.bad || P.Refusal(m).Some?
  }

  function Retained(t: RTree, p: Parsed, m: Packet, junk: seq<byte>, spoilt: Held): RTree {
    Graft(t, p.levels, Stops(p, m), None, KeepFn(m, junk, spoilt))
  }

  predicate RetainErr(t: RTree, p: Parsed, m: Packet, junk: seq<byte>, spoilt: Held) {
    p.bad || Kept(Get(t, p.levels), m, junk, spoilt).err
  }

  function Erased(t: RTree, p: Parsed): Option<RTree> {
    Cut(t, p.levels, p.bad, ClearFn(), Any())
  }

  function Get(t: RTree, path: Path): Option<Held> {
    OwnAt(t, path, None)
  }

  // ----- removal -----

  /** Every node of the tree lies on the way to p. */
  ghost predicate Chain(t: RTree, p: Path) {
    forall r: Path :: HasNode(t, r) ==> r <= p
  }

  /** The nodes a removal at p sweeps away: those under which there is only the way down to p. */
  ghost predicate Swept(t: RTree, p: Path, q: Path) {
    q != [] && q <= p && forall r: Path :: HasNode(t, r) && q <= r ==> r <= p
  }

  lemma Below(t: RTree, l: Level, r: Path)
    requires l in t.kids
    ensures HasNode(t, [l] + r) <==> HasNode(t.kids[l], r)
    ensures ([l] + r)[1..] == r
  {
  }

  lemma PrefixBelow(l: Level, a: Path, b: Path)
    ensures [l] + a <= [l] + b <==> a <= b
  {
    assert ([l] + a)[1..] == a && ([l] + b)[1..] == b;
  }

  /** A chain has at most the one child it continues in. */
  lemma ChainBelow(t: RTree, p: Path)
    ensures p == [] ==> (Chain(t, p) <==> t.kids == map[])
    ensures p != [] && p[0] in t.kids ==>
      (Chain(t, p) <==> t.kids.Keys == {p[0]} && Chain(t.kids[p[0]], p[1..]))
  {
    forall k | k in t.kids ensures HasNode(t, [k]) && ([k] <= p ==> p != [] && k == p[0]) {
      Below(t, k, []);
      assert [k] + [] == [k];
    }
    if p == [] {
      if t.kids != map[] {
        var k :| k in t.kids;
        assert !([k] <= p);
      }
    } else if p[0] in t.kids {
      var l := p[0];
      assert p == [l] + p[1..];
      if Chain(t, p) {
        forall r: Path | HasNode(t.kids[l], r) ensures r <= p[1..] {
          Below(t, l, r);
          PrefixBelow(l, r, p[1..]);
        }
      }
      if t.kids.Keys == {l} && Chain(t.kids[l], p[1..]) {
        forall r: Path | HasNode(t, r) ensures r <= p {
          if r != [] {
            assert r[0] == l && r == [l] + r[1..] && HasNode(t.kids[l], r[1..]);
            PrefixBelow(l, r[1..], p[1..]);
          }
        }
      }
    }
  }

  lemma {:induction false} ErasedBare(t: RTree, p: Parsed)
    requires Erased(t, p).Some?
    ensures Erased(t, p).value.kids == map[] <==> Chain(t, p.levels)
    decreases p.levels
  {
    ChainBelow(t, p.levels);
    if p.levels != [] {
      var l, rest := p.levels[0], p.(levels := p.levels[1..]);
      ErasedBare(t.kids[l], rest);
      var kid, t' := Erased(t.kids[l], rest).value, Erased(t, p).value;
      if kid.kids == map[] {
        assert t'.kids == t.kids - {l};
        assert t'.kids == map[] <==> t'.kids.Keys == {};
      } else {
        assert l in t'.kids;
      }
    }
  }

  lemma SweptBelow(t: RTree, p: Path, q: Path)
    requires p != [] && q != [] && q[0] == p[0] && p[0] in t.kids
    ensures Swept(t, p, q) <==> if q[1..] == [] then Chain(t.kids[p[0]], p[1..]) else Swept(t.kids[p[0]], p[1..], q[1..])
  {
    var l, kid, p', q' := p[0], t.kids[p[0]], p[1..], q[1..];
    assert p == [l] + p' && q == [l] + q';
    PrefixBelow(l, q', p');
    if Swept(t, p, q) {
      forall r: Path | HasNode(kid, r) && q' <= r ensures r <= p' {
        Below(t, l, r);
        PrefixBelow(l, q', r);
        PrefixBelow(l, r, p');
      }
    }
    if q' <= p' && forall r: Path :: HasNode(kid, r) && q' <= r ==> r <= p' {
      forall r: Path | HasNode(t, r) && q <= r ensures r <= p {
        assert r[0] == q[0] && r == [l] + r[1..] && HasNode(kid, r[1..]);
        PrefixBelow(l, q', r[1..]);
        PrefixBelow(l, r[1..], p');
      }
      assert Swept(t, p, q);
    }
    if q' == [] {
      if forall r: Path :: HasNode(kid, r) && q' <= r ==> r <= p' {
        forall r: Path | HasNode(kid, r) ensures r <= p' { assert q' <= r; }
      }
    }
  }

  /** rremove, exactly: the message at the name goes, and with it every message above it that
      the pruning sweeps away; all others stay. */
  lemma {:induction false} EraseExact(t: RTree, p: Parsed, q: Path)
    requires Erased(t, p).Some?
    ensures Get(Erased(t, p).value, q) == if q == p.levels || Swept(t, p.levels, q) then None else Get(t, q)
    decreases p.levels
  {
    if p.levels != [] && q != [] && q[0] == p.levels[0] {
      var l, rest := q[0], p.(levels := p.levels[1..]);
      var kid, q' := t.kids[l], q[1..];
      assert p.levels == [l] + rest.levels && q == [l] + q';
      EraseExact(kid, rest, q');
      ErasedBare(kid, rest);
      SweptBelow(t, p.levels, q);
      assert q == p.levels <==> q' == rest.levels;
      if Chain(kid, rest.levels) {
        NoNodeNoMsg(kid, q');
      }
    }
  }

  /** Which nodes a removal leaves. */
  lemma {:induction false} EraseNodes(t: RTree, p: Parsed, q: Path)
    requires Erased(t, p).Some?
    ensures HasNode(Erased(t, p).value, q) <==> HasNode(t, q) && !Swept(t, p.levels, q)
    decreases p.levels
  {
    if p.levels != [] && q != [] && q[0] == p.levels[0] {
      var l, rest := q[0], p.(levels := p.levels[1..]);
      var kid, q' := t.kids[l], q[1..];
      assert p.levels == [l] + rest.levels && q == [l] + q';
      EraseNodes(kid, rest, q');
      ErasedBare(kid, rest);
      SweptBelow(t, p.levels, q);
    }
  }

  lemma {:induction false} NoNodeNoMsg(t: RTree, p: Path)
    ensures !HasNode(t, p) ==> Get(t, p) == None
  {
    if p != [] && p[0] in t.kids { NoNodeNoMsg(t.kids[p[0]], p[1..]); }
  }

  /** A message that can be written always leaves something, if only the remains of a failed decoding. */
  lemma AlwaysHolds(was: Option<Held>, m: Packet, junk: seq<byte>, spoilt: Held)
    ensures P.Refusal(m) == None ==> Kept(was, m, junk, spoilt).held.Some?
    ensures P.Refusal(m).Some? ==> Kept(was, m, junk, spoilt) == Upshot(was, true)
  {
  }

  // ----- matching -----

  /** Which stored paths a filter's levels reach. */
  predicate Reaches(filter: Path, path: Path) {
    if filter == [] then path == []
    else if filter[0] == MWC then true
    else path != [] && (filter[0] == SWC || filter[0] == path[0]) && Reaches(filter[1..], path[1..])
  }

  ghost predicate Stored(t: RTree, pre: Path, h: RHit) {
    pre <= h.0 && Get(t, h.0[|pre|..]) == Some(h.1)
  }

  /** rmatch on the node at `pre` is due to report h. */
  ghost predicate RDue(t: RTree, pre: Path, filter: Path, h: RHit) {
    Stored(t, pre, h) && Reaches(filter, h.0[|pre|..])
  }

  /** rmatch runs into the malformed end of the filter. */
  ghost predicate RErr(t: RTree, filter: Path, bad: bool)
    decreases filter
  {
    if filter == [] then bad
    else
      var l := filter[0];
      l != MWC && exists k :: k in t.kids && (l == SWC || k == l) && RErr(t.kids[k], filter[1..], bad)
  }

  lemma {:induction false} LegalNoErr(t: RTree, filter: Path)
    ensures !RErr(t, filter, false)
    decreases filter
  {
    if filter != [] {
      forall k | k in t.kids { LegalNoErr(t.kids[k], filter[1..]); }
    }
  }

  /** The levels left once a "#" has been read: everything from here on. */
  const Everything: Path := [MWC]

  /** h is due below one of the children no longer in `todo`. */
  ghost predicate DueBelow(t: RTree, pre: Path, rest: Path, todo: set<Level>, h: RHit) {
    exists k :: k in t.kids && k !in todo && DueUnder(t, pre, rest, k, h)
  }

  ghost predicate DueUnder(t: RTree, pre: Path, rest: Path, k: Level, h: RHit) {
    k in t.kids && RDue(t.kids[k], pre + [k], rest, h)
  }

  lemma UnderOne(t: RTree, pre: Path, rest: Path, j: Level, k: Level, h: RHit)
    requires DueUnder(t, pre, rest, j, h) && DueUnder(t, pre, rest, k, h)
    ensures j == k
  {
    assert h.0[|pre|] == (pre + [j])[|pre|] && h.0[|pre|] == (pre + [k])[|pre|];
  }

  /** Visiting one more child adds what is due under it, and no hit is due under two. */
  lemma DueBelowStep(t: RTree, pre: Path, rest: Path, todo: set<Level>, k: Level, h: RHit)
    requires k in todo && k in t.kids
    ensures DueBelow(t, pre, rest, todo - {k}, h) <==> DueBelow(t, pre, rest, todo, h) || DueUnder(t, pre, rest, k, h)
    ensures !(DueBelow(t, pre, rest, todo, h) && DueUnder(t, pre, rest, k, h))
  {
    if DueBelow(t, pre, rest, todo, h) && DueUnder(t, pre, rest, k, h) {
      var j :| j in t.kids && j !in todo && DueUnder(t, pre, rest, j, h);
      UnderOne(t, pre, rest, j, k, h);
    }
  }

  /** What is due at a node, by the kind of level the filter reads there. */
  lemma RDueCases(t: RTree, pre: Path, filter: Path, h: RHit)
    ensures RDue(t, pre, Everything, h) <==>
      (h.0 == pre && t.own == Some(h.1)) || DueBelow(t, pre, Everything, {}, h)
    ensures !(h.0 == pre && DueBelow(t, pre, Everything, {}, h))
    ensures filter == [] ==> (RDue(t, pre, filter, h) <==> h.0 == pre && t.own == Some(h.1))
    ensures filter != [] ==>
      var l, rest := filter[0], filter[1..];
      && (l == MWC ==> (RDue(t, pre, filter, h) <==> RDue(t, pre, Everything, h)))
      && (l == SWC ==> (RDue(t, pre, filter, h) <==> DueBelow(t, pre, rest, {}, h)))
      && (l != MWC && l != SWC ==> (RDue(t, pre, filter, h) <==> DueUnder(t, pre, rest, l, h)))
  {
  }

  lemma NothingBelow(t: RTree, pre: Path, rest: Path, h: RHit)
    ensures !DueBelow(t, pre, rest, t.kids.Keys, h)
  {
  }

  /** Where a query fails, by the kind of level it reads. */
  lemma RErrCases(t: RTree, filter: Path, bad: bool)
    ensures filter == [] ==> (RErr(t, filter, bad) <==> bad)
    ensures filter != [] ==>
      var l, rest := filter[0], filter[1..];
      && (l == MWC ==> !RErr(t, filter, bad))
      && (l == SWC ==> (RErr(t, filter, bad) <==> exists k :: k in t.kids && RErr(t.kids[k], rest, bad)))
      && (l != MWC && l != SWC ==> (RErr(t, filter, bad) <==> l in t.kids && RErr(t.kids[l], rest, bad)))
  {
    assert SWC != MWC by { assert SWC[0] != MWC[0]; }
  }

  // ----- duality -----

  lemma {:induction false} ParsedHashLast(t: Topic, i: nat)
    requires i < |Parse(t).levels| && Parse(t).levels[i] == MWC
    ensures i == |Parse(t).levels| - 1 && !Parse(t).bad
    decreases |t|
  {
    ParseStep(t);
    var rem := Next(t).value.1;
    if i > 0 {
      ParsedHashLast(Rest(rem), i - 1);
    } else {
      assert SWC != MWC by { assert SWC[0] != MWC[0]; }
    }
  }

  lemma {:induction false} ReachesIsCovers(filter: Path, path: Path)
    requires forall i :: 0 <= i < |filter| - 1 ==> filter[i] != MWC
    ensures Reaches(filter, path) <==> Covers(filter, path, false)
  {
    if filter != [] && filter[0] != MWC && path != [] {
      assert forall i :: 0 <= i < |filter| - 2 ==> filter[1..][i] == filter[i + 1];
      ReachesIsCovers(filter[1..], path[1..]);
    }
  }

  lemma ReachedIsCovered(f: Topic, q: Path)
    requires !Parse(f).bad
    ensures Reaches(Parse(f).levels, q) <==> Covers(Parse(f).levels, q, false)
  {
    var ls := Parse(f).levels;
    forall i | 0 <= i < |ls| - 1 ensures ls[i] != MWC {
      if ls[i] == MWC { ParsedHashLast(f, i); }
    }
    ReachesIsCovers(ls, q);
  }

  /** A subscriber alone in the tree under filter f is reached by a publish to n exactly when
      the retained tree reports what it holds for n to a query for f. */
  lemma RetainedDuality(t: RTree, f: Topic, n: Topic, m: Held, who: SubTrie.Subscriber, opts: SubTrie.Sub)
    requires !Parse(f).bad && !Parse(n).bad && !Parse(n).slash
    ensures !RErr(t, Parse(f).levels, Parse(f).bad)
    ensures RDue(t, [], Parse(f).levels, (Parse(n).levels, m)) <==>
      Get(t, Parse(n).levels) == Some(m) &&
      SubTrie.Due(SubTrie.Subscribed(SubTrie.Fresh, Parse(f), who, opts), [], Parse(n), (Parse(f).levels, who, opts))
  {
    var p, q := Parse(f), Parse(n);
    LegalNoErr(t, p.levels);
    assert q.levels[0..] == q.levels && p.levels[0..] == p.levels;
    ReachedIsCovered(f, q.levels);
    forall x: Path ensures SubTrie.Distinct(OwnAt(SubTrie.Fresh, x, [])) { }
    SubTrie.SubscribeUpdates(SubTrie.Fresh, p, who, opts);
  }

  // ----- runs -----

  /** Retain: an empty payload is a removal. */
  datatype Op = Retain(msg: Packet, junk: seq<byte>, spoilt: Held)

  predicate Inserts(op: Op) {
    op.msg.payload != [] && !Stops(Parse(op.msg.topic), op.msg)
  }

  /** A call that fails may still have created nodes, or spoilt a message. */
  function Step(t: RTree, op: Op): RTree {
    var p := Parse(op.msg.topic);
    if op.msg.payload != [] then Retained(t, p, op.msg, op.junk, op.spoilt)
    else match Erased(t, p)
      case None => t
      case Some(t') => t'
  }

  predicate StepErr(t: RTree, op: Op) {
    var p := Parse(op.msg.topic);
    if op.msg.payload != [] then RetainErr(t, p, op.msg, op.junk, op.spoilt) else Erased(t, p) == None
  }

  function Run(ops: seq<Op>): RTree {
    if ops == [] then Bare else Step(Run(ops[..|ops| - 1]), ops[|ops| - 1])
  }

  /** What the tree stands for: topics, by their levels, and what is held for them. */
  type Flat = map<Path, Held>

  function Lookup(m: Flat, q: Path): Option<Held> {
    if q in m then Some(m[q]) else None
  }

  /** The nodes of the tree, as paths: those of the names seen so far, less what removals have
      swept away. A name that turns out malformed, or a message that cannot be written, leaves
      its nodes behind all the same. */
  type Paths = set<Path>

  function Prefixes(p: Path): (r: Paths)
    ensures forall q: Path :: q in r <==> q <= p
  {
    var r := set k | 0 <= k <= |p| :: p[..k];
    assert forall q: Path :: q <= p ==> q == p[..|q|];
    r
  }

  /** A removal at p sweeps q away: nothing is known under q except on the way to p. */
  ghost predicate Sweeps(known: Paths, p: Path, q: Path) {
    q != [] && q <= p && forall r :: r in known && q <= r ==> r <= p
  }

  ghost function KnownStep(known: Paths, op: Op): Paths {
    var p := Parse(op.msg.topic);
    if op.msg.payload != [] then known + Prefixes(p.levels)
    else if Removes(known, op) then set q | q in known && !Sweeps(known, p.levels, q)
    else known
  }

  ghost function KnownRun(ops: seq<Op>): Paths {
    if ops == [] then {[]} else KnownStep(KnownRun(ops[..|ops| - 1]), ops[|ops| - 1])
  }

  /** The removals that get to their node. */
  predicate Removes(known: Paths, op: Op) {
    op.msg.payload == [] && !Parse(op.msg.topic).bad && Parse(op.msg.topic).levels in known
  }

  ghost function FlatErase(known: Paths, m: Flat, p: Path): Flat {
    map q | q in m && q != p && !Sweeps(known, p, q) :: m[q]
  }

  ghost function FlatStep(known: Paths, m: Flat, op: Op): Flat {
    var l := Parse(op.msg.topic).levels;
    if Inserts(op) then
      AlwaysHolds(Lookup(m, l), op.msg, op.junk, op.spoilt);
      m[l := Kept(Lookup(m, l), op.msg, op.junk, op.spoilt).held.value]
    else if Removes(known, op) then FlatErase(known, m, l)
    else m
  }

  ghost function FlatRun(ops: seq<Op>): Flat {
    if ops == [] then map[]
    else FlatStep(KnownRun(ops[..|ops| - 1]), FlatRun(ops[..|ops| - 1]), ops[|ops| - 1])
  }

  /** t has the nodes of `known` and holds exactly what m says. */
  ghost predicate Mirrors(t: RTree, known: Paths, m: Flat) {
    && (forall q: Path :: HasNode(t, q) <==> q in known)
    && (forall q: Path :: Get(t, q) == Lookup(m, q))
  }

  lemma EraseMirrors(t: RTree, known: Paths, m: Flat, op: Op)
    requires Mirrors(t, known, m) && op.msg.payload == []
    ensures StepErr(t, op) <==> !Removes(known, op)
    ensures Mirrors(Step(t, op), KnownStep(known, op), FlatStep(known, m, op))
  {
    var p := Parse(op.msg.topic);
    CutFails(t, p.levels, p.bad, None, ClearFn(), Any());
    if Erased(t, p).Some? {
      var t' := Erased(t, p).value;
      forall q: Path
        ensures Get(t', q) == Lookup(FlatErase(known, m, p.levels), q)
        ensures HasNode(t', q) <==> q in known && !Sweeps(known, p.levels, q)
      {
        assert Get(t, q) == Lookup(m, q);
        EraseExact(t, p, q);
        EraseNodes(t, p, q);
        assert Swept(t, p.levels, q) <==> Sweeps(known, p.levels, q);
      }
    }
  }

  lemma InsertMirrors(t: RTree, known: Paths, m: Flat, op: Op)
    requires Mirrors(t, known, m) && op.msg.payload != []
    ensures Mirrors(Step(t, op), KnownStep(known, op), FlatStep(known, m, op))
  {
    hide Kept;
    var p := Parse(op.msg.topic);
    var stop, f := Stops(p, op.msg), KeepFn(op.msg, op.junk, op.spoilt);
    forall q: Path
      ensures Get(Step(t, op), q) == Lookup(FlatStep(known, m, op), q)
      ensures HasNode(Step(t, op), q) <==> q in KnownStep(known, op)
    {
      assert Get(t, q) == Lookup(m, q);
      OwnAtGraft(t, p.levels, stop, None, f, q);
      HasNodeGraft(t, p.levels, stop, None, f, q);
      AlwaysHolds(Lookup(m, q), op.msg, op.junk, op.spoilt);
    }
  }

  /** Any one call, done, stopped or refused, does to the tree what it does to the paths and the
      map; a removal fails exactly if its path is not known. */
  lemma StepRepresents(t: RTree, known: Paths, m: Flat, op: Op)
    requires Mirrors(t, known, m)
    ensures Mirrors(Step(t, op), KnownStep(known, op), FlatStep(known, m, op))
    ensures op.msg.payload == [] ==> (StepErr(t, op) <==> !Removes(known, op))
  {
    hide Mirrors, FlatStep, KnownStep, Step, StepErr, Removes;
    if op.msg.payload == [] {
      EraseMirrors(t, known, m, op);
    } else {
      InsertMirrors(t, known, m, op);
    }
  }

  lemma BareMirrors()
    ensures Mirrors(Bare, {[]}, map[])
  {
  }

  /** After any run of insertions and removals, failed ones included, the tree holds exactly what
      the map says. */
  lemma {:induction false} RetainedExactly(ops: seq<Op>)
    ensures Mirrors(Run(ops), KnownRun(ops), FlatRun(ops))
  {
    hide Mirrors, Step, KnownStep, FlatStep;
    if ops != [] {
      var init := ops[..|ops| - 1];
      RetainedExactly(init);
      StepRepresents(Run(init), KnownRun(init), FlatRun(init), ops[|ops| - 1]);
    } else {
      BareMirrors();
    }
  }

  /** So a query for f finds what is held at a path exactly when f covers that path. */
  lemma QueryExactly(ops: seq<Op>, f: Topic, h: RHit)
    requires !Parse(f).bad
    ensures !RErr(Run(ops), Parse(f).levels, Parse(f).bad)
    ensures RDue(Run(ops), [], Parse(f).levels, h) <==>
      h.0 in FlatRun(ops) && FlatRun(ops)[h.0] == h.1 && Covers(Parse(f).levels, h.0, false)
  {
    hide Reaches, Covers, Run, FlatRun, KnownRun, Parse, RErr, OwnAt;
    LegalNoErr(Run(ops), Parse(f).levels);
    RetainedExactly(ops);
    assert Get(Run(ops), h.0) == Lookup(FlatRun(ops), h.0);
    assert h.0[0..] == h.0;
    ReachedIsCovered(f, h.0);
  }

  /** Only known paths hold something. */
  lemma HeldIsKnown(t: RTree, known: Paths, m: Flat, q: Path)
    requires Mirrors(t, known, m) && q in m
    ensures q in known
  {
    assert Get(t, q) == Lookup(m, q);
    NoNodeNoMsg(t, q);
  }

  /** Retain on "a", retain on "a/b", remove "a/b": the message of "a" is gone as well. */
  lemma ParentLost(first: Op, second: Op, removal: Op, a: Level, b: Level)
    requires Inserts(first) && Parse(first.msg.topic).levels == [a]
    requires Inserts(second) && Parse(second.msg.topic).levels == [a, b]
    requires removal.msg.topic == second.msg.topic && removal.msg.payload == []
    ensures Get(Run([first, second]), [a]).Some? && Get(Run([first, second, removal]), [a]) == None
  {
    hide FlatStep, KnownStep, Run, FlatRun, KnownRun, Parse, Inserts;
    OneMore([], first);
    OneMore([first], second);
    OneMore([first, second], removal);
    assert [] + [first] == [first] && [first] + [second] == [first, second];
    assert [first, second] + [removal] == [first, second, removal];
    EmptyRun();
    StepsToLoss(first, second, removal, a, b);
    RetainedExactly([first, second]);
    RetainedExactly([first, second, removal]);
  }

  lemma EmptyRun()
    ensures FlatRun([]) == map[] && KnownRun([]) == {[]}
  {
  }

  lemma OneMore(init: seq<Op>, op: Op)
    ensures FlatRun(init + [op]) == FlatStep(KnownRun(init), FlatRun(init), op)
    ensures KnownRun(init + [op]) == KnownStep(KnownRun(init), op)
  {
    hide FlatStep, KnownStep;
    assert (init + [op])[..|init|] == init && (init + [op])[|init|] == op;
  }

  lemma StepsToLoss(first: Op, second: Op, removal: Op, a: Level, b: Level)
    requires Inserts(first) && Parse(first.msg.topic).levels == [a]
    requires Inserts(second) && Parse(second.msg.topic).levels == [a, b]
    requires removal.msg.topic == second.msg.topic && removal.msg.payload == []
    ensures var k1, m1 := KnownStep({[]}, first), FlatStep({[]}, map[], first);
      var k2, m2 := KnownStep(k1, second), FlatStep(k1, m1, second);
      [a] in m2 && [a] !in FlatStep(k2, m2, removal)
  {
    hide Kept, Parse;
    var k1, m1 := KnownStep({[]}, first), FlatStep({[]}, map[], first);
    var k2, m2 := KnownStep(k1, second), FlatStep(k1, m1, second);
    assert [a] <= [a, b] && [a] in m1 && [a] in m2;
    assert forall r :: r in k2 ==> r <= [a, b];
    assert Sweeps(k2, [a, b], [a]);
  }

  // ----- what can be told from the retained topics -----

  /** Something is retained at p or below it. */
  ghost predicate Reached(m: Flat, p: Path) {
    p == [] || exists k :: k in m && p <= k
  }

  /** A removal at p takes q, a topic above p, along with it: nothing is retained under q
      except on the way to p. */
  ghost predicate Gone(m: Flat, p: Path, q: Path) {
    q != [] && q <= p && forall k :: k in m && q <= k ==> k <= p
  }

  /** The known paths are the topics retained and those above them. */
  ghost predicate Tight(known: Paths, m: Flat) {
    forall q: Path :: q in known <==> Reached(m, q)
  }

  /** An insertion that stops on the way must not have created nodes. */
  ghost predicate Tidy(m: Flat, op: Op) {
    op.msg.payload != [] && !Inserts(op) ==> Reached(m, Parse(op.msg.topic).levels)
  }

  ghost predicate TidyRun(ops: seq<Op>) {
    ops == [] || (TidyRun(ops[..|ops| - 1]) && Tidy(FlatRun(ops[..|ops| - 1]), ops[|ops| - 1]))
  }

  /** Then what a removal sweeps away can be told from the retained topics. */
  lemma SweptIsGone(known: Paths, m: Flat, p: Path, q: Path)
    requires Tight(known, m)
    ensures Sweeps(known, p, q) <==> Gone(m, p, q)
  {
    forall k | k in m ensures k in known {
      assert Reached(m, k);
    }
    if Gone(m, p, q) {
      forall r | r in known && q <= r ensures r <= p {
        var k :| k in m && r <= k;
        assert q <= k;
      }
    }
  }

  lemma GoneDown(m: Flat, p: Path, q: Path, k: Path)
    requires k in m && q <= k
    ensures Gone(m, p, q) ==> Gone(m, p, k)
  {
  }

  lemma EraseTight(known: Paths, m: Flat, p: Path)
    requires Tight(known, m) && p in known
    ensures Tight((set q | q in known && !Sweeps(known, p, q)), FlatErase(known, m, p))
  {
    var m' := FlatErase(known, m, p);
    forall q: Path ensures q in known && !Sweeps(known, p, q) <==> Reached(m', q) {
      SweptIsGone(known, m, p, q);
      if q in known && !Gone(m, p, q) && q != [] {
        StillReached(known, m, p, q);
      }
      if q != [] && Reached(m', q) {
        var k :| k in m' && q <= k;
        assert Reached(m, q);
        SweptIsGone(known, m, p, k);
        GoneDown(m, p, q, k);
      }
    }
  }

  lemma StillReached(known: Paths, m: Flat, p: Path, q: Path)
    requires Tight(known, m) && q in known && q != [] && !Gone(m, p, q)
    ensures Reached(FlatErase(known, m, p), q)
  {
    var k: Path;
    if q <= p {
      k :| k in m && q <= k && !(k <= p);
    } else {
      assert Reached(m, q);
      k :| k in m && q <= k;
    }
    assert k in FlatErase(known, m, p);
  }

  lemma InsertTight(known: Paths, m: Flat, l: Path, held: Held)
    requires Tight(known, m)
    ensures Tight(known + Prefixes(l), m[l := held])
    ensures Tight(known + Prefixes(l), m) <==> Reached(m, l)
  {
    var m' := m[l := held];
    forall q: Path ensures q in known + Prefixes(l) <==> Reached(m', q) {
      if Reached(m, q) && q != [] {
        var k :| k in m && q <= k;
        assert k in m';
      }
      if q <= l { assert l in m'; }
      if Reached(m', q) && q != [] {
        var k :| k in m' && q <= k;
        assert k == l || k in m;
      }
    }
    assert l in Prefixes(l);
    if Reached(m, l) {
      forall q: Path | q <= l ensures Reached(m, q) {
        if l != [] {
          var k :| k in m && l <= k;
          assert q <= k;
        }
      }
    }
  }

  /** One call keeps that exactly when it is tidy. */
  lemma TightStep(known: Paths, m: Flat, op: Op)
    requires Tight(known, m)
    ensures Tight(KnownStep(known, op), FlatStep(known, m, op)) <==> Tidy(m, op)
  {
    hide Kept, Tight, Reached;
    var l := Parse(op.msg.topic).levels;
    if op.msg.payload != [] {
      InsertTight(known, m, l, if Inserts(op) then FlatStep(known, m, op)[l] else P.FRESH);
    } else if Removes(known, op) {
      EraseTight(known, m, l);
    }
  }

  lemma {:induction false} TidyTight(ops: seq<Op>)
    requires TidyRun(ops)
    ensures Tight(KnownRun(ops), FlatRun(ops))
  {
    hide KnownStep, FlatStep, Tidy;
    if ops != [] {
      var init := ops[..|ops| - 1];
      TidyTight(init);
      TightStep(KnownRun(init), FlatRun(init), ops[|ops| - 1]);
    }
  }

  lemma {:induction false} NodeLeads(t: RTree, p: Path) returns (k: Path)
    requires Live(t, Empty()) && HasNode(t, p) && (p == [] ==> t.kids != map[] || t.own.Some?)
    ensures p <= k && Get(t, k).Some?
    decreases p
  {
    if p == [] {
      k := LiveHasContent(t, Empty(), None);
    } else {
      var rest := NodeLeads(t.kids[p[0]], p[1..]);
      k := [p[0]] + rest;
      assert p == [p[0]] + p[1..] && k[1..] == rest;
    }
  }

  ghost predicate AllLead(t: RTree) {
    forall q: Path :: q != [] && HasNode(t, q) ==> exists k :: q <= k && Get(t, k).Some?
  }

  lemma {:induction false} LeadsLive(t: RTree)
    requires AllLead(t)
    ensures Live(t, Empty())
    decreases t
  {
    forall l | l in t.kids
      ensures (t.kids[l].kids != map[] || !Empty()(t.kids[l].own)) && Live(t.kids[l], Empty())
    {
      var kid := t.kids[l];
      forall q: Path | HasNode(kid, q) ensures exists k :: q <= k && Get(kid, k).Some? {
        var lq := [l] + q;
        assert HasNode(t, lq) by { Below(t, l, q); }
        var k :| lq <= k && Get(t, k).Some?;
        assert k[0] == lq[0] == l && k == [l] + k[1..] && Get(kid, k[1..]).Some?;
        PrefixBelow(l, q, k[1..]);
      }
      assert HasNode(kid, []);
      var k: Path :| [] <= k && Get(kid, k).Some?;
      if k != [] { assert k[0] in kid.kids; }
      LeadsLive(kid);
    }
  }

  lemma {:induction false} NodeAbove(t: RTree, p: Path, k: Path)
    requires p <= k && HasNode(t, k)
    ensures HasNode(t, p)
    decreases p
  {
    if p != [] { NodeAbove(t.kids[p[0]], p[1..], k[1..]); }
  }

  /** In terms of the tree: every node below the root leads to a message. */
  lemma LiveIsTight(t: RTree, known: Paths, m: Flat)
    requires Mirrors(t, known, m)
    ensures Live(t, Empty()) <==> Tight(known, m)
  {
    if Live(t, Empty()) {
      forall q: Path ensures q in known <==> Reached(m, q) {
        if q != [] && q in known {
          var k := NodeLeads(t, q);
          assert Lookup(m, k).Some?;
        }
        if q != [] && Reached(m, q) {
          var k :| k in m && q <= k;
          HeldIsKnown(t, known, m, k);
          NodeAbove(t, q, k);
        }
      }
    }
    if Tight(known, m) {
      forall q: Path | q != [] && HasNode(t, q) ensures exists k :: q <= k && Get(t, k).Some? {
        assert Reached(m, q);
        var k :| k in m && q <= k;
        assert Get(t, k) == Lookup(m, k);
      }
      LeadsLive(t);
    }
  }

  /** A call keeps that exactly unless it is an insertion that stops on new nodes. */
  lemma StepLive(t: RTree, known: Paths, m: Flat, op: Op)
    requires Mirrors(t, known, m) && Live(t, Empty())
    ensures Live(Step(t, op), Empty()) <==> Tidy(m, op)
  {
    hide Mirrors, Live, Tight, Step, KnownStep, FlatStep, Tidy;
    LiveIsTight(t, known, m);
    StepRepresents(t, known, m, op);
    TightStep(known, m, op);
    LiveIsTight(Step(t, op), KnownStep(known, op), FlatStep(known, m, op));
  }

  // ----- the latest message -----

  /** The map that retaining is meant to keep: the latest message of every topic, until that topic
      is removed. */
  ghost function MeantStep(m: Flat, op: Op): Flat {
    var p := Parse(op.msg.topic);
    if Inserts(op) then m[p.levels := op.msg]
    else if op.msg.payload == [] && !p.bad then m - {p.levels}
    else m
  }

  ghost function Meant(ops: seq<Op>): Flat {
    if ops == [] then map[] else MeantStep(Meant(ops[..|ops| - 1]), ops[|ops| - 1])
  }

  /** A removal at p takes no other topic's message with it. */
  ghost predicate NoSweep(known: Paths, m: Flat, p: Path) {
    forall q :: q in m && q != p ==> !Sweeps(known, p, q)
  }

  /** What one call must satisfy: a message is taken in unchanged by an object holding the one
      before it, and a removal sweeps no other topic away. */
  ghost predicate Harmless(known: Paths, m: Flat, op: Op) {
    var l := Parse(op.msg.topic).levels;
    && (Inserts(op) ==> Intact(Base(Lookup(m, l)), op.msg))
    && (Removes(known, op) ==> NoSweep(known, m, l))
  }

  ghost predicate AllHarmless(ops: seq<Op>) {
    ops == [] ||
    var init, op := ops[..|ops| - 1], ops[|ops| - 1];
    AllHarmless(init) && Harmless(KnownRun(init), Meant(init), op)
  }

  ghost predicate TakenIn(m: Flat, op: Op) {
    Inserts(op) ==> !Kept(Lookup(m, Parse(op.msg.topic).levels), op.msg, op.junk, op.spoilt).err
  }

  /** At every moment of the run what is held is what is meant, and no insertion that reached its
      node has failed. */
  ghost predicate MeantHeld(ops: seq<Op>) {
    ops == [] ||
    var init, op := ops[..|ops| - 1], ops[|ops| - 1];
    MeantHeld(init) && FlatRun(ops) == Meant(ops) && TakenIn(FlatRun(init), op)
  }

  lemma InsertAsMeant(known: Paths, m: Flat, op: Op)
    requires Inserts(op)
    ensures FlatStep(known, m, op) == MeantStep(m, op) && TakenIn(m, op) <==> Harmless(known, m, op)
  {
    hide Kept, Intact, Parse;
    var l := Parse(op.msg.topic).levels;
    KeptExactly(Lookup(m, l), op.msg, op.junk, op.spoilt);
    AlwaysHolds(Lookup(m, l), op.msg, op.junk, op.spoilt);
    var held := Kept(Lookup(m, l), op.msg, op.junk, op.spoilt).held.value;
    assert FlatStep(known, m, op)[l] == held && MeantStep(m, op)[l] == op.msg;
  }

  lemma RemovedAsMeant(known: Paths, m: Flat, op: Op)
    requires !Inserts(op) && forall q :: q in m ==> q in known
    ensures FlatStep(known, m, op) == MeantStep(m, op) && TakenIn(m, op) <==> Harmless(known, m, op)
  {
    hide Kept, Intact, Parse, Sweeps;
    var l := Parse(op.msg.topic).levels;
    if Removes(known, op) {
      var e := FlatErase(known, m, l);
      if e == m - {l} {
        forall q | q in m && q != l ensures !Sweeps(known, l, q) {
          assert q in m - {l};
        }
      }
    } else if op.msg.payload == [] && !Parse(op.msg.topic).bad {
      assert m - {l} == m;
    }
  }

  /** Every topic has its latest message until it is removed, throughout the run, if and only if
      every message is intact over the one it replaces and no removal sweeps another topic away -
      which the history alone tells. */
  lemma {:induction false} LatestExactly(ops: seq<Op>)
    ensures MeantHeld(ops) <==> AllHarmless(ops)
  {
    hide FlatStep, MeantStep, KnownStep, Harmless, TakenIn, Mirrors, Inserts;
    if ops != [] {
      var init, op := ops[..|ops| - 1], ops[|ops| - 1];
      LatestExactly(init);
      if MeantHeld(init) {
        SameSoFar(init);
        RetainedExactly(init);
        forall q | q in FlatRun(init) ensures q in KnownRun(init) {
          HeldIsKnown(Run(init), KnownRun(init), FlatRun(init), q);
        }
        if Inserts(op) {
          InsertAsMeant(KnownRun(init), FlatRun(init), op);
        } else {
          RemovedAsMeant(KnownRun(init), FlatRun(init), op);
        }
      }
    }
  }

  lemma SameSoFar(ops: seq<Op>)
    requires MeantHeld(ops)
    ensures FlatRun(ops) == Meant(ops)
  {
  }

  /** In a tidy run the retained topics tell whether a removal sweeps: another topic goes exactly
      if everything retained under it is on the way to the topic removed. */
  lemma SweepSeen(ops: seq<Op>, p: Path)
    requires TidyRun(ops)
    ensures NoSweep(KnownRun(ops), FlatRun(ops), p) <==>
      forall q :: q in FlatRun(ops) && q != p ==> !Gone(FlatRun(ops), p, q)
  {
    hide Sweeps, Gone, FlatRun, KnownRun, TidyRun, Tight;
    TidyTight(ops);
    forall q: Path ensures Sweeps(KnownRun(ops), p, q) <==> Gone(FlatRun(ops), p, q) {
      SweptIsGone(KnownRun(ops), FlatRun(ops), p, q);
    }
  }

  /** Then a query returns exactly the latest messages of the topics that its filter covers. */
  lemma QueryLatest(ops: seq<Op>, f: Topic, h: RHit)
    requires AllHarmless(ops) && !Parse(f).bad
    ensures RDue(Run(ops), [], Parse(f).levels, h) <==>
      h.0 in Meant(ops) && Meant(ops)[h.0] == h.1 && Covers(Parse(f).levels, h.0, false)
  {
    hide RDue, Covers, Run, Parse;
    LatestExactly(ops);
    SameSoFar(ops);
    QueryExactly(ops, f, h);
  }
}
