/** What the subscription tree computes, as functions on level trees, and what the broker
    promises about it. SubNodes.dfy proves the mutable nodes against this. */
module SubTrie {
  import opened Common
  import opened TopicLevels
  import opened TopicTree

  /** Identity of a subscriber handle. */
  type Subscriber = int

  datatype Sub = Sub(topic: Topic, qos: byte, noLocal: bool, retainAsPublished: bool,
                     retainHandling: byte, subIdentifier: uint32)

  type Slots = seq<(Subscriber, Sub)>
  type STree = Tree<Slots>

  /** One delivery: the stored filter, its subscriber and the options granted. */
  type Hit = (Path, Subscriber, Sub)

  // ----- one node -----

  function Lookup(s: Slots, who: Subscriber): Option<Sub> {
    if s == [] then None
    else if s[0].0 == who then Some(s[0].1)
    else Lookup(s[1..], who)
  }

  function Upsert(s: Slots, who: Subscriber, opts: Sub): Slots {
    if s == [] then [(who, opts)]
    else if s[0].0 == who then [(who, opts)] + s[1..]
    else [s[0]] + Upsert(s[1..], who, opts)
  }

  function Drop(s: Slots, who: Subscriber): Option<Slots> {
    if s == [] then None
    else if s[0].0 == who then Some(s[1..])
    else match Drop(s[1..], who)
      case None => None
      case Some(rest) => Some([s[0]] + rest)
  }

  ghost predicate Distinct(s: Slots) {
    forall i, j :: 0 <= i < j < |s| ==> s[i].0 != s[j].0
  }

  function UpsertFn(who: Subscriber, opts: Sub): Slots -> Slots {
    s => Upsert(s, who, opts)
  }

  /** A nil subscriber removes everybody. */
  function DropFn(who: Option<Subscriber>): Slots -> Option<Slots> {
    s => match who case None => Some([]) case Some(w) => Drop(s, w)
  }

  function Vacant(): Slots -> bool {
    s => s == []
  }

  lemma {:induction false} LookupUpsert(s: Slots, who: Subscriber, opts: Sub, v: Subscriber)
    ensures Lookup(Upsert(s, who, opts), v) == if v == who then Some(opts) else Lookup(s, v)
  {
    if s != [] && s[0].0 != who {
      LookupUpsert(s[1..], who, opts, v);
    }
  }

  lemma {:induction false} LookupDrop(s: Slots, who: Subscriber, v: Subscriber)
    requires Distinct(s)
    ensures Drop(s, who) == None <==> Lookup(s, who) == None
    ensures Drop(s, who).Some? ==> Lookup(Drop(s, who).value, v) == if v == who then None else Lookup(s, v)
  {
    if s != [] {
      if s[0].0 == who {
        LookupAbsent(s[1..], who);
      } else {
        LookupDrop(s[1..], who, v);
      }
    }
  }

  lemma {:induction false} LookupAbsent(s: Slots, who: Subscriber)
    ensures Lookup(s, who) == None <==> forall i :: 0 <= i < |s| ==> s[i].0 != who
  {
    if s != [] {
      LookupAbsent(s[1..], who);
      assert forall i :: 1 <= i < |s| ==> s[i] == s[1..][i - 1];
    }
  }

  lemma {:induction false} UpsertDistinct(s: Slots, who: Subscriber, opts: Sub)
    requires Distinct(s)
    ensures Distinct(Upsert(s, who, opts))
    ensures forall x :: x in Upsert(s, who, opts) ==> x.0 == who || x in s
  {
    if s != [] && s[0].0 != who {
      UpsertDistinct(s[1..], who, opts);
    }
  }

  lemma {:induction false} DropDistinct(s: Slots, who: Subscriber)
    requires Distinct(s) && Drop(s, who).Some?
    ensures Distinct(Drop(s, who).value)
    ensures forall x :: x in Drop(s, who).value ==> x in s
  {
    if s[0].0 != who {
      DropDistinct(s[1..], who);
      var rest := Drop(s[1..], who).value;
      forall j | 0 <= j < |rest| ensures rest[j].0 != s[0].0 {
        assert rest[j] in s[1..];
      }
    }
  }

  // ----- the tree -----

  function Find(t: STree, path: Path, who: Subscriber): Option<Sub> {
    Lookup(OwnAt(t, path, []), who)
  }

  ghost predicate WellFormed(t: STree) {
    forall p: Path :: Distinct(OwnAt(t, p, []))
  }

  function Subscribed(t: STree, p: Parsed, who: Subscriber, opts: Sub): STree {
    Graft(t, p.levels, p.bad, [], UpsertFn(who, opts))
  }

  function Unsubscribed(t: STree, p: Parsed, who: Option<Subscriber>): Option<STree> {
    Cut(t, p.levels, p.bad, DropFn(who), Vacant())
  }

  /** A subscription touches its own entry only, and a malformed one touches nothing. */
  lemma SubscribeUpdates(t: STree, p: Parsed, who: Subscriber, opts: Sub)
    requires WellFormed(t)
    ensures WellFormed(Subscribed(t, p, who, opts))
    ensures forall q: Path, v :: Find(Subscribed(t, p, who, opts), q, v) ==
              if !p.bad && q == p.levels && v == who then Some(opts) else Find(t, q, v)
  {
    var t' := Subscribed(t, p, who, opts);
    forall q: Path
      ensures Distinct(OwnAt(t', q, []))
      ensures forall v :: Find(t', q, v) == if !p.bad && q == p.levels && v == who then Some(opts) else Find(t, q, v)
    {
      OwnAtGraft(t, p.levels, p.bad, [], UpsertFn(who, opts), q);
      var own := OwnAt(t, q, []);
      UpsertDistinct(own, who, opts);
      forall v { LookupUpsert(own, who, opts, v); }
    }
  }

  /** A removal fails exactly when there is nothing to remove, and otherwise takes out its
      own entry (every entry of the filter for a nil subscriber) and nothing else. */
  lemma UnsubscribeUpdates(t: STree, p: Parsed, who: Option<Subscriber>)
    requires WellFormed(t)
    ensures Unsubscribed(t, p, who) == None
       <==> p.bad || (if who.Some? then Find(t, p.levels, who.value) == None else !HasNode(t, p.levels))
    ensures Unsubscribed(t, p, who).Some? ==>
      var t' := Unsubscribed(t, p, who).value;
      && WellFormed(t')
      && forall q: Path, v :: Find(t', q, v) ==
           if q == p.levels && (who == None || who == Some(v)) then None else Find(t, q, v)
  {
    CutFails(t, p.levels, p.bad, [], DropFn(who), Vacant());
    NoNodeNoEntry(t, p.levels);
    var own := OwnAt(t, p.levels, []);
    if who.Some? { LookupDrop(own, who.value, who.value); }
    if Unsubscribed(t, p, who).Some? {
      var t' := Unsubscribed(t, p, who).value;
      forall q: Path
        ensures Distinct(OwnAt(t', q, []))
        ensures forall v :: Find(t', q, v) ==
                  if q == p.levels && (who == None || who == Some(v)) then None else Find(t, q, v)
      {
        OwnAtCut(t, p.levels, p.bad, [], DropFn(who), Vacant(), q);
        if q == p.levels && who.Some? {
          DropDistinct(own, who.value);
          forall v { LookupDrop(own, who.value, v); }
        }
      }
    }
  }

  lemma {:induction false} NoNodeNoEntry(t: STree, p: Path)
    ensures !HasNode(t, p) ==> OwnAt(t, p, []) == []
  {
    if p != [] && p[0] in t.kids {
      NoNodeNoEntry(t.kids[p[0]], p[1..]);
    }
  }

  // ----- runs -----

  datatype Op = Subscribe(filter: Topic, who: Subscriber, opts: Sub)
              | Unsubscribe(filter: Topic, from: Option<Subscriber>)

  const Fresh: STree := Node([], map[])

  function Step(t: STree, op: Op): STree {
    match op
    case Subscribe(f, who, opts) => Subscribed(t, Parse(f), who, opts.(topic := []))
    case Unsubscribe(f, who) => (match Unsubscribed(t, Parse(f), who) case None => t case Some(t') => t')
  }

  function Run(ops: seq<Op>): STree {
    if ops == [] then Fresh else Step(Run(ops[..|ops| - 1]), ops[|ops| - 1])
  }

  /** The flat set of subscriptions the tree is meant to index. */
  type Flat = map<(Path, Subscriber), Sub>

  ghost function FlatStep(m: Flat, op: Op): Flat {
    var p := Parse(op.filter);
    if p.bad then m
    else match op
      case Subscribe(_, who, opts) => m[(p.levels, who) := opts.(topic := [])]
      case Unsubscribe(_, Some(who)) => m - {(p.levels, who)}
      case Unsubscribe(_, None) => map k | k in m && k.0 != p.levels :: m[k]
  }

  ghost function FlatRun(ops: seq<Op>): Flat {
    if ops == [] then map[] else FlatStep(FlatRun(ops[..|ops| - 1]), ops[|ops| - 1])
  }

  ghost predicate Represents(t: STree, m: Flat) {
    forall q: Path, v :: Find(t, q, v) == if (q, v) in m then Some(m[(q, v)]) else None
  }

  /** Over any run, failed calls included, the tree represents the map from normalised
      filter and subscriber to the latest options. */
  lemma {:induction false} RunRepresents(ops: seq<Op>)
    ensures WellFormed(Run(ops)) && Represents(Run(ops), FlatRun(ops))
  {
    if ops == [] {
      forall p: Path ensures OwnAt(Fresh, p, []) == [] { }
    } else {
      var init, op := ops[..|ops| - 1], ops[|ops| - 1];
      RunRepresents(init);
      var t, m, p := Run(init), FlatRun(init), Parse(op.filter);
      match op
      case Subscribe(_, who, opts) =>
        SubscribeUpdates(t, p, who, opts.(topic := []));
      case Unsubscribe(_, who) =>
        UnsubscribeUpdates(t, p, who);
        NoNodeNoEntry(t, p.levels);
        if who == None && !p.bad && Unsubscribed(t, p, who) == None {
          forall v ensures Find(t, p.levels, v) == None { }
        }
    }
  }

  /** If no filter of the run is malformed, every node below the root leads to a subscriber. */
  lemma {:induction false} RunIsLive(ops: seq<Op>)
    requires forall op :: op in ops && op.Subscribe? ==> !Parse(op.filter).bad
    ensures Live(Run(ops), Vacant())
  {
    if ops != [] {
      var init, op := ops[..|ops| - 1], ops[|ops| - 1];
      assert op in ops;
      RunIsLive(init);
      StepLive(Run(init), op);
    }
  }

  /** One call keeps the tree free of dead ends exactly when it is not a malformed
      subscription whose leading levels are new. */
  lemma StepLive(t: STree, op: Op)
    requires Live(t, Vacant())
    ensures Live(Step(t, op), Vacant()) <==>
      !(op.Subscribe? && Parse(op.filter).bad && !HasNode(t, Parse(op.filter).levels))
  {
    var p := Parse(op.filter);
    match op
    case Subscribe(_, who, opts) =>
      var f := UpsertFn(who, opts.(topic := []));
      forall own ensures !Vacant()(f(own)) { }
      GraftLive(t, p.levels, p.bad, [], f, Vacant());
    case Unsubscribe(_, who) =>
      if Unsubscribed(t, p, who).Some? {
        CutKeepsLive(t, p.levels, p.bad, DropFn(who), Vacant());
      }
  }

  // ----- matching -----

  /** The options delivered: the lower of the published and the granted QoS. */
  function Deliver(qos: byte, opts: Sub): Sub {
    opts.(qos := Min(qos, opts.qos))
  }

  function OwnHits(s: Slots, pre: Path): multiset<Hit> {
    if s == [] then multiset{}
    else OwnHits(s[..|s| - 1], pre) + multiset{(pre, s[|s| - 1].0, s[|s| - 1].1)}
  }

  function LeafHits(t: STree, pre: Path, l: Level): multiset<Hit> {
    if l in t.kids then OwnHits(t.kids[l].own, pre + [l]) else multiset{}
  }

  /** smatch on the node reached by `pre`; None is its error. */
  function Match(t: STree, pre: Path, p: Parsed): Option<multiset<Hit>>
    decreases p.levels, 0
  {
    if p.levels == [] then
      if p.bad then None
      else Some(OwnHits(t.own, pre) + LeafHits(t, pre, MWC) + if p.slash then LeafHits(t, pre, SWC) else multiset{})
    else
      var l, rest := p.levels[0], p.(levels := p.levels[1..]);
      match (Branch(t, pre, SWC, rest), if l == MWC || l == SWC then Some(multiset{}) else Branch(t, pre, l, rest))
      case (Some(a), Some(b)) => Some(LeafHits(t, pre, MWC) + a + b)
      case (_, _) => None
  }

  function Branch(t: STree, pre: Path, l: Level, rest: Parsed): Option<multiset<Hit>>
    decreases rest.levels, 1
  {
    if l in t.kids then Match(t.kids[l], pre + [l], rest) else Some(multiset{})
  }

  /** The part of a match found once only the children in `todo` are left to visit. */
  function Gathered(t: STree, pre: Path, l: Level, rest: Parsed, todo: set<Level>): Option<multiset<Hit>> {
    match (if SWC in todo then Some(multiset{}) else Branch(t, pre, SWC, rest),
           if l == MWC || l == SWC || l in todo then Some(multiset{}) else Branch(t, pre, l, rest))
    case (Some(a), Some(b)) => Some((if MWC in todo then multiset{} else LeafHits(t, pre, MWC)) + a + b)
    case (_, _) => None
  }

  /** What one child adds, whichever comes next. */
  function Visit(t: STree, pre: Path, l: Level, rest: Parsed, k: Level): Option<multiset<Hit>> {
    if k == MWC then Some(LeafHits(t, pre, MWC))
    else if k == SWC || k == l then Branch(t, pre, k, rest)
    else Some(multiset{})
  }

  lemma GatherStep(t: STree, pre: Path, l: Level, rest: Parsed, todo: set<Level>, k: Level)
    requires k in todo
    ensures Gathered(t, pre, l, rest, todo - {k}) ==
      match (Gathered(t, pre, l, rest, todo), Visit(t, pre, l, rest, k))
      case (Some(a), Some(b)) => Some(a + b)
      case (_, _) => None
  {
    hide Branch, LeafHits;
    var before, after := Gathered(t, pre, l, rest, todo), Gathered(t, pre, l, rest, todo - {k});
    var own := Visit(t, pre, l, rest, k);
    if before.Some? && own.Some? {
      assert after.value == before.value + own.value;
    }
  }

  /** A match gathers from no child to all of them, and fails as soon as one visit does. */
  lemma MatchGathers(t: STree, pre: Path, p: Parsed)
    requires p.levels != []
    ensures var l, rest := p.levels[0], p.(levels := p.levels[1..]);
      && Gathered(t, pre, l, rest, t.kids.Keys) == Some(multiset{})
      && Gathered(t, pre, l, rest, {}) == Match(t, pre, p)
      && forall k :: Visit(t, pre, l, rest, k) == None ==> Match(t, pre, p) == None
  {
  }

  lemma {:induction false} OwnHitsCount(s: Slots, pre: Path, h: Hit)
    requires Distinct(s)
    ensures OwnHits(s, pre)[h] == if h.0 == pre && Lookup(s, h.1) == Some(h.2) then 1 else 0
  {
    if s != [] {
      var init, last := s[..|s| - 1], s[|s| - 1];
      OwnHitsCount(init, pre, h);
      LookupSnoc(init, last, h.1);
      assert init + [last] == s;
      LookupAbsent(init, last.0);
    }
  }

  lemma {:induction false} LookupSnoc(s: Slots, x: (Subscriber, Sub), v: Subscriber)
    ensures Lookup(s + [x], v) == if Lookup(s, v).Some? then Lookup(s, v) else if x.0 == v then Some(x.1) else None
  {
    if s != [] {
      LookupSnoc(s[1..], x, v);
      assert (s + [x])[1..] == s[1..] + [x];
    }
  }

  /** Is this hit an entry of the tree at `pre`, on a path that covers the topic? */
  ghost predicate Due(t: STree, pre: Path, p: Parsed, h: Hit) {
    && pre <= h.0
    && Find(t, h.0[|pre|..], h.1) == Some(h.2)
    && Covers(h.0[|pre|..], p.levels, p.slash)
  }

  /** The match lists every due subscription exactly once and nothing else. */
  lemma {:induction false} MatchExact(t: STree, pre: Path, p: Parsed, h: Hit)
    requires WellFormed(t) && Match(t, pre, p).Some?
    ensures Match(t, pre, p).value[h] == if Due(t, pre, p, h) then 1 else 0
    decreases p.levels, 0
  {
    LeafHitsCount(t, pre, MWC, h);
    if p.levels == [] {
      assert t.own == OwnAt(t, [], []);
      OwnHitsCount(t.own, pre, h);
      LeafHitsCount(t, pre, SWC, h);
      DueAtEnd(t, pre, p, h);
    } else {
      var l, rest := p.levels[0], p.(levels := p.levels[1..]);
      BranchExact(t, pre, SWC, rest, h);
      if l != MWC && l != SWC { BranchExact(t, pre, l, rest, h); }
      DueBelow(t, pre, p, h);
    }
  }

  ghost predicate DueLeaf(t: STree, pre: Path, l: Level, h: Hit) {
    h.0 == pre + [l] && Find(t, [l], h.1) == Some(h.2)
  }

  ghost predicate DueBranch(t: STree, pre: Path, l: Level, rest: Parsed, h: Hit) {
    pre + [l] <= h.0 && l in t.kids && Due(t.kids[l], pre + [l], rest, h)
  }

  lemma DueAtEnd(t: STree, pre: Path, p: Parsed, h: Hit)
    requires p.levels == []
    ensures Due(t, pre, p, h) <==>
      || (h.0 == pre && Find(t, [], h.1) == Some(h.2))
      || DueLeaf(t, pre, MWC, h)
      || (p.slash && DueLeaf(t, pre, SWC, h))
  {
  }

  /** Below the root a due path starts with "#" (and ends there), "+" or the topic's own level. */
  lemma DueBelow(t: STree, pre: Path, p: Parsed, h: Hit)
    requires p.levels != []
    ensures var l, rest := p.levels[0], p.(levels := p.levels[1..]);
      Due(t, pre, p, h) <==>
      || DueLeaf(t, pre, MWC, h)
      || DueBranch(t, pre, SWC, rest, h)
      || (l != MWC && l != SWC && DueBranch(t, pre, l, rest, h))
  {
    var l, rest := p.levels[0], p.(levels := p.levels[1..]);
    if pre <= h.0 && h.0 != pre {
      var q := h.0[|pre|..];
      var k := q[0];
      assert h.0 == pre + q && q == [k] + q[1..];
      assert h.0[|pre + [k]|..] == q[1..];
      if k == MWC && q[1..] == [] { assert q == [MWC]; }
    }
    forall k | pre + [k] <= h.0 ensures pre <= h.0 && h.0 != pre && h.0[|pre|..][0] == k {
      assert h.0[|pre|] == (pre + [k])[|pre|];
    }
  }

  lemma LeafHitsCount(t: STree, pre: Path, l: Level, h: Hit)
    requires WellFormed(t)
    ensures LeafHits(t, pre, l)[h] == if DueLeaf(t, pre, l, h) then 1 else 0
  {
    assert [l][1..] == [];
    if l in t.kids {
      assert t.kids[l].own == OwnAt(t, [l], []);
      OwnHitsCount(t.kids[l].own, pre + [l], h);
    }
  }

  lemma BranchExact(t: STree, pre: Path, l: Level, rest: Parsed, h: Hit)
    requires WellFormed(t) && Branch(t, pre, l, rest).Some?
    ensures Branch(t, pre, l, rest).value[h] == if DueBranch(t, pre, l, rest, h) then 1 else 0
    decreases rest.levels, 1
  {
    if l in t.kids {
      forall p: Path ensures Distinct(OwnAt(t.kids[l], p, [])) {
        assert ([l] + p)[1..] == p;
        assert Distinct(OwnAt(t, [l] + p, []));
      }
      MatchExact(t.kids[l], pre + [l], rest, h);
    }
  }

  lemma {:induction false} MatchSucceeds(t: STree, pre: Path, p: Parsed)
    requires !p.bad
    ensures Match(t, pre, p).Some?
    decreases p.levels, 0
  {
    if p.levels != [] {
      var l, rest := p.levels[0], p.(levels := p.levels[1..]);
      if SWC in t.kids { MatchSucceeds(t.kids[SWC], pre + [SWC], rest); }
      if l in t.kids { MatchSucceeds(t.kids[l], pre + [l], rest); }
    }
  }

  /** After any history, a publish is matched to each live subscription whose stored filter
      covers it, once, and to nothing else. */
  lemma DeliveredExactly(ops: seq<Op>, name: Topic)
    requires !Parse(name).bad
    ensures Match(Run(ops), [], Parse(name)).Some?
    ensures var p, m, hits := Parse(name), FlatRun(ops), Match(Run(ops), [], Parse(name)).value;
      forall q: Path, v, o :: hits[(q, v, o)] ==
        if (q, v) in m && m[(q, v)] == o && Covers(q, p.levels, p.slash) then 1 else 0
  {
    var p, m, t := Parse(name), FlatRun(ops), Run(ops);
    MatchSucceeds(t, [], p);
    RunRepresents(ops);
    forall q: Path, v, o
      ensures Match(t, [], p).value[(q, v, o)] ==
        if (q, v) in m && m[(q, v)] == o && Covers(q, p.levels, p.slash) then 1 else 0
    {
      MatchExact(t, [], p, (q, v, o));
      assert q[0..] == q;
    }
  }

  /** For well-behaved filters and names the deliveries are those section 4.7 asks for. */
  lemma DeliveredPerStandard(ops: seq<Op>, name: Topic)
    requires forall op :: op in ops ==> IsFilter(Split(op.filter)) && NoEmpty(Split(op.filter))
    requires IsName(Split(name)) && !EndsEmpty(Split(name))
    ensures !Parse(name).bad && Match(Run(ops), [], Parse(name)).Some?
    ensures var m, hits := FlatRun(ops), Match(Run(ops), [], Parse(name)).value;
      forall q: Path, v, o :: hits[(q, v, o)] ==
        if (q, v) in m && m[(q, v)] == o && q != [] && Matches(q, Split(name)) then 1 else 0
  {
    FilterIsLegal(Split(name));
    ParseIsNormalisedSplit(name);
    DeliveredExactly(ops, name);
    var p, m := Parse(name), FlatRun(ops);
    forall q: Path, v | (q, v) in m
      ensures q != [] && (Covers(q, p.levels, p.slash) <==> Matches(q, Split(name)))
    {
      FlatPaths(ops, (q, v));
      NormIsIdentity(q);
      TrieMatchesStandard(q, Split(name));
    }
  }

  lemma {:induction false} FlatPaths(ops: seq<Op>, k: (Path, Subscriber))
    requires forall op :: op in ops ==> IsFilter(Split(op.filter)) && NoEmpty(Split(op.filter))
    requires k in FlatRun(ops)
    ensures IsFilter(k.0) && NoEmpty(k.0)
  {
    var init, op := ops[..|ops| - 1], ops[|ops| - 1];
    assert op in ops;
    if k in FlatRun(init) {
      FlatPaths(init, k);
    } else {
      ParseIsNormalisedSplit(op.filter);
      NormIsIdentity(Split(op.filter));
    }
  }
}
