/** What the shared-subscription tree computes. A node keeps, per share name, the members
    of that group with their granted QoS. */
module ShareTrie {
  import opened Common
  import opened TopicLevels
  import opened TopicTree
  import opened SubTrie

  type Group = seq<byte>
  type Members = seq<(Subscriber, byte)>
  type Shares = map<Group, Members>
  type ShTree = Tree<Shares>

  function MemberQos(s: Members, who: Subscriber): Option<byte> {
    if s == [] then None
    else if s[0].0 == who then Some(s[0].1)
    else MemberQos(s[1..], who)
  }

  function Enlist(s: Members, who: Subscriber, qos: byte): Members {
    if s == [] then [(who, qos)]
    else if s[0].0 == who then [(who, qos)] + s[1..]
    else [s[0]] + Enlist(s[1..], who, qos)
  }

  function Dismiss(s: Members, who: Subscriber): Option<Members> {
    if s == [] then None
    else if s[0].0 == who then Some(s[1..])
    else match Dismiss(s[1..], who)
      case None => None
      case Some(rest) => Some([s[0]] + rest)
  }

  ghost predicate Unique(s: Members) {
    forall i, j :: 0 <= i < j < |s| ==> s[i].0 != s[j].0
  }

  function In(own: Shares, g: Group): Members {
    if g in own then own[g] else []
  }

  function JoinFn(g: Group, who: Subscriber, qos: byte): Shares -> Shares {
    own => own[g := Enlist(In(own, g), who, qos)]
  }

  /** A nil subscriber removes the whole group, with an empty share name every group. */
  function LeaveFn(g: Group, who: Option<Subscriber>): Shares -> Option<Shares> {
    (own: Shares) => match who
      case None => Some(if g == [] then map[] else own - {g})
      case Some(w) =>
        match Dismiss(In(own, g), w)
        case None => None
        case Some(rest) => Some(own[g := rest])
  }

  /** No group has a member left. */
  ghost function Deserted(): Shares -> bool {
    own => forall g :: g in own ==> own[g] == []
  }

  function Joined(t: ShTree, p: Parsed, g: Group, who: Subscriber, qos: byte): ShTree {
    Graft(t, p.levels, p.bad, map[], JoinFn(g, who, qos))
  }

  ghost function Left(t: ShTree, p: Parsed, g: Group, who: Option<Subscriber>): Option<ShTree> {
    Cut(t, p.levels, p.bad, LeaveFn(g, who), Deserted())
  }

  function MemberAt(t: ShTree, path: Path, g: Group, who: Subscriber): Option<byte> {
    MemberQos(In(OwnAt(t, path, map[]), g), who)
  }

  ghost predicate WellShared(t: ShTree) {
    forall p: Path, g :: Unique(In(OwnAt(t, p, map[]), g))
  }

  lemma {:induction false} EnlistQos(s: Members, who: Subscriber, qos: byte, v: Subscriber)
    ensures MemberQos(Enlist(s, who, qos), v) == if v == who then Some(qos) else MemberQos(s, v)
  {
    if s != [] && s[0].0 != who {
      EnlistQos(s[1..], who, qos, v);
      assert ([s[0]] + Enlist(s[1..], who, qos))[1..] == Enlist(s[1..], who, qos);
    } else if s != [] {
      assert ([(who, qos)] + s[1..])[1..] == s[1..];
    }
  }

  lemma {:induction false} EnlistUnique(s: Members, who: Subscriber, qos: byte)
    requires Unique(s)
    ensures Unique(Enlist(s, who, qos))
    ensures forall x :: x in Enlist(s, who, qos) ==> x.0 == who || x in s
  {
    if s != [] && s[0].0 != who {
      EnlistUnique(s[1..], who, qos);
      var rest := Enlist(s[1..], who, qos);
      forall j | 0 <= j < |rest| ensures rest[j].0 != s[0].0 {
        assert rest[j] in rest;
      }
    }
  }

  lemma EnlistMember(s: Members, who: Subscriber, qos: byte, v: Subscriber)
    requires Unique(s)
    ensures MemberQos(Enlist(s, who, qos), v) == if v == who then Some(qos) else MemberQos(s, v)
    ensures Unique(Enlist(s, who, qos))
  {
    EnlistQos(s, who, qos, v);
    EnlistUnique(s, who, qos);
  }

  lemma {:induction false} DismissMember(s: Members, who: Subscriber, v: Subscriber)
    requires Unique(s)
    ensures Dismiss(s, who) == None <==> MemberQos(s, who) == None
    ensures Dismiss(s, who).Some? ==>
      var rest := Dismiss(s, who).value;
      && MemberQos(rest, v) == (if v == who then None else MemberQos(s, v))
      && Unique(rest) && forall x :: x in rest ==> x in s
  {
    if s != [] {
      if s[0].0 == who {
        Absent(s[1..], who);
      } else {
        DismissMember(s[1..], who, v);
        if Dismiss(s[1..], who).Some? {
          var rest := Dismiss(s[1..], who).value;
          forall j | 0 <= j < |rest| ensures rest[j].0 != s[0].0 {
            assert rest[j] in s[1..];
          }
        }
      }
    }
  }

  lemma {:induction false} Absent(s: Members, who: Subscriber)
    requires forall i :: 0 <= i < |s| ==> s[i].0 != who
    ensures MemberQos(s, who) == None
  {
    if s != [] { Absent(s[1..], who); }
  }

  /** Joining touches one member of one group; a malformed filter touches nothing. */
  lemma JoinUpdates(t: ShTree, p: Parsed, g: Group, who: Subscriber, qos: byte)
    requires WellShared(t)
    ensures var t' := Joined(t, p, g, who, qos);
      && WellShared(t')
      && forall q: Path, h, v :: MemberAt(t', q, h, v) ==
           if !p.bad && q == p.levels && h == g && v == who then Some(qos) else MemberAt(t, q, h, v)
  {
    var t' := Joined(t, p, g, who, qos);
    forall q: Path, h
      ensures Unique(In(OwnAt(t', q, map[]), h))
      ensures forall v :: MemberAt(t', q, h, v) ==
                if !p.bad && q == p.levels && h == g && v == who then Some(qos) else MemberAt(t, q, h, v)
    {
      OwnAtGraft(t, p.levels, p.bad, map[], JoinFn(g, who, qos), q);
      var s := In(OwnAt(t, q, map[]), g);
      assert Unique(s) && Unique(In(OwnAt(t, q, map[]), h));
      EnlistMember(s, who, qos, who);
      forall v { EnlistMember(s, who, qos, v); }
    }
  }

  predicate Leaves(g: Group, who: Option<Subscriber>, h: Group, v: Subscriber) {
    if who.Some? then h == g && v == who.value else g == [] || h == g
  }

  /** What leaving does to the groups of one node. */
  lemma LeaveHere(own: Shares, g: Group, who: Option<Subscriber>, h: Group, v: Subscriber)
    requires Unique(In(own, g)) && Unique(In(own, h)) && LeaveFn(g, who)(own).Some?
    ensures var now := LeaveFn(g, who)(own).value;
      Unique(In(now, h)) && MemberQos(In(now, h), v) == if Leaves(g, who, h, v) then None else MemberQos(In(own, h), v)
  {
    hide Unique, Dismiss;
    NobodyIn();
    if who.Some? { DismissMember(In(own, g), who.value, v); }
  }

  lemma NobodyIn()
    ensures Unique([]) && forall v :: MemberQos([], v) == None
  {
  }

  /** Leaving fails exactly when there is nothing to leave, and otherwise takes out one member
      (for a nil subscriber a group, or all of them) and nothing else. */
  lemma LeaveUpdates(t: ShTree, p: Parsed, g: Group, who: Option<Subscriber>)
    requires WellShared(t)
    ensures Left(t, p, g, who) == None
       <==> p.bad || (if who.Some? then MemberAt(t, p.levels, g, who.value) == None else !HasNode(t, p.levels))
    ensures Left(t, p, g, who).Some? ==>
      var t' := Left(t, p, g, who).value;
      && WellShared(t')
      && forall q: Path, h, v :: MemberAt(t', q, h, v) ==
           if q == p.levels && Leaves(g, who, h, v) then None else MemberAt(t, q, h, v)
  {
    LeaveFails(t, p, g, who);
    if Left(t, p, g, who).Some? {
      var t' := Left(t, p, g, who).value;
      forall q: Path, h
        ensures Unique(In(OwnAt(t', q, map[]), h))
        ensures forall v :: MemberAt(t', q, h, v) ==
                  if q == p.levels && Leaves(g, who, h, v) then None else MemberAt(t, q, h, v)
      {
        LeaveAt(t, p, g, who, q, h, 0);
        forall v
          ensures MemberAt(t', q, h, v) == if q == p.levels && Leaves(g, who, h, v) then None else MemberAt(t, q, h, v)
        {
          LeaveAt(t, p, g, who, q, h, v);
        }
      }
    }
  }

  lemma LeaveFails(t: ShTree, p: Parsed, g: Group, who: Option<Subscriber>)
    requires WellShared(t)
    ensures Left(t, p, g, who) == None
       <==> p.bad || (if who.Some? then MemberAt(t, p.levels, g, who.value) == None else !HasNode(t, p.levels))
  {
    CutFails(t, p.levels, p.bad, map[], LeaveFn(g, who), Deserted());
    NoNodeNoGroup(t, p.levels);
    NobodyIn();
    var own := OwnAt(t, p.levels, map[]);
    assert Unique(In(own, g));
    if who.Some? { DismissMember(In(own, g), who.value, who.value); }
  }

  lemma LeaveAt(t: ShTree, p: Parsed, g: Group, who: Option<Subscriber>, q: Path, h: Group, v: Subscriber)
    requires WellShared(t) && Left(t, p, g, who).Some?
    ensures var t' := Left(t, p, g, who).value;
      && Unique(In(OwnAt(t', q, map[]), h))
      && MemberAt(t', q, h, v) == if q == p.levels && Leaves(g, who, h, v) then None else MemberAt(t, q, h, v)
  {
    hide Unique, Leaves;
    OwnAtCut(t, p.levels, p.bad, map[], LeaveFn(g, who), Deserted(), q);
    NobodyIn();
    var own := OwnAt(t, q, map[]);
    assert Unique(In(own, h)) && Unique(In(own, g));
    if q == p.levels { LeaveHere(own, g, who, h, v); }
  }

  lemma {:induction false} NoNodeNoGroup(t: ShTree, p: Path)
    ensures !HasNode(t, p) ==> OwnAt(t, p, map[]) == map[]
  {
    if p != [] && p[0] in t.kids {
      NoNodeNoGroup(t.kids[p[0]], p[1..]);
    }
  }

  // ----- runs -----

  datatype ShOp = Join(filter: Topic, group: Group, who: Subscriber, qos: byte)
                | Leave(filter: Topic, group: Group, from: Option<Subscriber>)

  const NoShares: ShTree := Node(map[], map[])

  ghost function ShStep(t: ShTree, op: ShOp): ShTree {
    match op
    case Join(f, g, who, qos) => Joined(t, Parse(f), g, who, qos)
    case Leave(f, g, who) => (match Left(t, Parse(f), g, who) case None => t case Some(t') => t')
  }

  ghost function ShRun(ops: seq<ShOp>): ShTree {
    if ops == [] then NoShares else ShStep(ShRun(ops[..|ops| - 1]), ops[|ops| - 1])
  }

  type ShFlat = map<(Path, Group, Subscriber), byte>

  ghost function ShFlatStep(m: ShFlat, op: ShOp): ShFlat {
    var p := Parse(op.filter);
    if p.bad then m
    else match op
      case Join(_, g, who, qos) => m[(p.levels, g, who) := qos]
      case Leave(_, g, Some(who)) => m - {(p.levels, g, who)}
      case Leave(_, g, None) => map k | k in m && !(k.0 == p.levels && (g == [] || k.1 == g)) :: m[k]
  }

  ghost function ShFlatRun(ops: seq<ShOp>): ShFlat {
    if ops == [] then map[] else ShFlatStep(ShFlatRun(ops[..|ops| - 1]), ops[|ops| - 1])
  }

  /** Over any run the tree holds the latest members of every group of every filter. */
  lemma {:induction false} ShRunRepresents(ops: seq<ShOp>)
    ensures WellShared(ShRun(ops))
    ensures var m := ShFlatRun(ops);
      forall q: Path, g, v :: MemberAt(ShRun(ops), q, g, v) == if (q, g, v) in m then Some(m[(q, g, v)]) else None
  {
    if ops == [] {
      forall p: Path ensures OwnAt(NoShares, p, map[]) == map[] { }
    } else {
      var init, op := ops[..|ops| - 1], ops[|ops| - 1];
      ShRunRepresents(init);
      var t, p := ShRun(init), Parse(op.filter);
      match op
      case Join(_, g, who, qos) =>
        JoinUpdates(t, p, g, who, qos);
      case Leave(_, g, who) =>
        LeaveUpdates(t, p, g, who);
        NoNodeNoGroup(t, p.levels);
        if who == None && !p.bad && Left(t, p, g, who) == None {
          forall h, v ensures MemberAt(t, p.levels, h, v) == None { }
        }
    }
  }

  // ----- matching -----

  /** A group of a filter. */
  type Tag = (Path, Group)

  /** Groups asked for: the named one, or all of them for an empty name, if they have members. */
  predicate Eligible(own: Shares, name: Group, g: Group) {
    g in own && own[g] != [] && (name == [] || g == name)
  }

  /** Section 4.8.2: the group of this tag must hand over exactly one member. */
  ghost predicate ShDue(t: ShTree, pre: Path, levels: Path, slash: bool, name: Group, tag: Tag) {
    && pre <= tag.0
    && Covers(tag.0[|pre|..], levels, slash)
    && Eligible(OwnAt(t, tag.0[|pre|..], map[]), name, tag.1)
  }

  ghost predicate ShLeaf(t: ShTree, pre: Path, k: Level, name: Group, tag: Tag) {
    k in t.kids && tag.0 == pre + [k] && Eligible(t.kids[k].own, name, tag.1)
  }

  ghost predicate ShBranch(t: ShTree, pre: Path, k: Level, rest: Path, slash: bool, name: Group, tag: Tag) {
    k in t.kids && ShDue(t.kids[k], pre + [k], rest, slash, name, tag)
  }

  /** What visiting one child is due to add. */
  ghost predicate ShVisit(t: ShTree, pre: Path, l: Level, rest: Path, slash: bool, name: Group, k: Level, tag: Tag) {
    if k == MWC then ShLeaf(t, pre, MWC, name, tag)
    else (k == SWC || k == l) && ShBranch(t, pre, k, rest, slash, name, tag)
  }

  ghost predicate ShVisited(t: ShTree, pre: Path, l: Level, rest: Path, slash: bool, name: Group, todo: set<Level>, tag: Tag) {
    exists k :: k in t.kids && k !in todo && ShVisit(t, pre, l, rest, slash, name, k, tag)
  }

  lemma ShDueAtEnd(t: ShTree, pre: Path, slash: bool, name: Group, tag: Tag)
    ensures ShDue(t, pre, [], slash, name, tag) <==>
      || (tag.0 == pre && Eligible(t.own, name, tag.1))
      || ShLeaf(t, pre, MWC, name, tag)
      || (slash && ShLeaf(t, pre, SWC, name, tag))
  {
    OwnOneDown(t, MWC);
    OwnOneDown(t, SWC);
    assert pre[|pre|..] == [] && (pre + [MWC])[|pre|..] == [MWC] && (pre + [SWC])[|pre|..] == [SWC];
    if ShDue(t, pre, [], slash, name, tag) {
      var q := tag.0[|pre|..];
      assert tag.0 == pre + q;
      assert q == [] || q == [MWC] || (slash && q == [SWC]) by {
        if q != [] && q[0] == MWC { assert q == [q[0]]; }
      }
    }
  }

  /** A trailing separator also reaches the "+" below. */
  lemma ShDueSlash(t: ShTree, pre: Path, name: Group, tag: Tag)
    ensures ShDue(t, pre, [], true, name, tag) <==> ShDue(t, pre, [], false, name, tag) || ShLeaf(t, pre, SWC, name, tag)
    ensures !(ShDue(t, pre, [], false, name, tag) && ShLeaf(t, pre, SWC, name, tag))
  {
    ShDueAtEnd(t, pre, true, name, tag);
    ShDueAtEnd(t, pre, false, name, tag);
    if ShLeaf(t, pre, SWC, name, tag) { assert tag.0[|pre|] == SWC; }
    if ShLeaf(t, pre, MWC, name, tag) { assert tag.0[|pre|] == MWC; }
    assert SWC[0] != MWC[0];
  }

  lemma OwnOneDown(t: ShTree, k: Level)
    ensures OwnAt(t, [k], map[]) == if k in t.kids then t.kids[k].own else map[]
    ensures Covers([k], [], true) <==> k == MWC || k == SWC
    ensures Covers([k], [], false) <==> k == MWC
  {
  }

  lemma ShVisitPath(t: ShTree, pre: Path, l: Level, rest: Path, slash: bool, name: Group, k: Level, tag: Tag)
    requires ShVisit(t, pre, l, rest, slash, name, k, tag)
    ensures pre <= tag.0 && |tag.0| > |pre| && tag.0[|pre|] == k
    ensures tag.0[|pre|..][1..] == tag.0[|pre + [k]|..]
  {
  }

  lemma ShDueBelow(t: ShTree, pre: Path, l: Level, rest: Path, slash: bool, name: Group, tag: Tag)
    ensures ShDue(t, pre, [l] + rest, slash, name, tag) <==> ShVisited(t, pre, l, rest, slash, name, {}, tag)
  {
    assert ([l] + rest)[1..] == rest;
    if pre <= tag.0 && tag.0 != pre {
      var q := tag.0[|pre|..];
      var k := q[0];
      assert tag.0 == pre + q && q == [k] + q[1..] && tag.0[|pre + [k]|..] == q[1..];
      if k == MWC && q[1..] == [] { assert q == [MWC]; }
      if k in t.kids {
        assert OwnAt(t, q, map[]) == OwnAt(t.kids[k], q[1..], map[]);
        assert ShDue(t, pre, [l] + rest, slash, name, tag) <==> ShVisit(t, pre, l, rest, slash, name, k, tag);
      }
    }
    if ShVisited(t, pre, l, rest, slash, name, {}, tag) {
      var k :| k in t.kids && ShVisit(t, pre, l, rest, slash, name, k, tag);
      ShVisitPath(t, pre, l, rest, slash, name, k, tag);
    }
  }

  lemma ShVisitedStep(t: ShTree, pre: Path, l: Level, rest: Path, slash: bool, name: Group, todo: set<Level>, k: Level, tag: Tag)
    requires k in todo && k in t.kids
    ensures ShVisited(t, pre, l, rest, slash, name, todo - {k}, tag)
       <==> ShVisited(t, pre, l, rest, slash, name, todo, tag) || ShVisit(t, pre, l, rest, slash, name, k, tag)
    ensures !(ShVisited(t, pre, l, rest, slash, name, todo, tag) && ShVisit(t, pre, l, rest, slash, name, k, tag))
  {
    if ShVisited(t, pre, l, rest, slash, name, todo, tag) && ShVisit(t, pre, l, rest, slash, name, k, tag) {
      var j :| j in t.kids && j !in todo && ShVisit(t, pre, l, rest, slash, name, j, tag);
      ShVisitPath(t, pre, l, rest, slash, name, j, tag);
      ShVisitPath(t, pre, l, rest, slash, name, k, tag);
    }
  }

  /** `after` is `before` plus one tag for each group due under the children out of `todo`. */
  ghost predicate Tallied(before: multiset<Tag>, after: multiset<Tag>, t: ShTree, pre: Path, l: Level, rest: Path, slash: bool,
                          name: Group, todo: set<Level>) {
    forall tag: Tag :: after[tag] == before[tag] + if ShVisited(t, pre, l, rest, slash, name, todo, tag) then 1 else 0
  }

  lemma TallyStep(before: multiset<Tag>, mid: multiset<Tag>, after: multiset<Tag>, t: ShTree, pre: Path, l: Level, rest: Path,
                  slash: bool, name: Group, todo: set<Level>, k: Level)
    requires Tallied(before, mid, t, pre, l, rest, slash, name, todo) && k in todo && k in t.kids
    requires forall tag: Tag :: after[tag] == mid[tag] + if ShVisit(t, pre, l, rest, slash, name, k, tag) then 1 else 0
    ensures Tallied(before, after, t, pre, l, rest, slash, name, todo - {k})
  {
    forall tag: Tag
      ensures after[tag] == before[tag] + if ShVisited(t, pre, l, rest, slash, name, todo - {k}, tag) then 1 else 0
    {
      ShVisitedStep(t, pre, l, rest, slash, name, todo, k, tag);
    }
  }

  /** smatch runs into the malformed end of the topic. */
  ghost predicate ShErr(t: ShTree, levels: Path, bad: bool)
    decreases levels, 0
  {
    if levels == [] then bad
    else exists k :: k in t.kids && ShErrUnder(t, levels[0], levels[1..], bad, k)
  }

  ghost predicate ShErrUnder(t: ShTree, l: Level, rest: Path, bad: bool, k: Level)
    requires k in t.kids
    decreases rest, 1
  {
    k != MWC && (k == SWC || k == l) && ShErr(t.kids[k], rest, bad)
  }

  lemma {:induction false} ShLegalNoErr(t: ShTree, levels: Path)
    ensures !ShErr(t, levels, false)
    decreases levels
  {
    if levels != [] {
      forall k | k in t.kids { ShLegalNoErr(t.kids[k], levels[1..]); }
    }
  }

  /** After any run the groups that hand over a member are those with a member left whose
      filter covers the topic. */
  lemma SharedDelivery(ops: seq<ShOp>, name: Topic, group: Group, tag: Tag)
    requires !Parse(name).bad
    ensures !ShErr(ShRun(ops), Parse(name).levels, Parse(name).bad)
    ensures ShDue(ShRun(ops), [], Parse(name).levels, Parse(name).slash, group, tag) <==>
      && Covers(tag.0, Parse(name).levels, Parse(name).slash)
      && (group == [] || tag.1 == group)
      && exists v :: (tag.0, tag.1, v) in ShFlatRun(ops)
  {
    var t, p := ShRun(ops), Parse(name);
    ShLegalNoErr(t, p.levels);
    ShRunRepresents(ops);
    assert tag.0[0..] == tag.0;
    var s := In(OwnAt(t, tag.0, map[]), tag.1);
    if s != [] {
      assert MemberAt(t, tag.0, tag.1, s[0].0) == Some(s[0].1);
      assert (tag.0, tag.1, s[0].0) in ShFlatRun(ops);
    } else {
      forall v ensures (tag.0, tag.1, v) !in ShFlatRun(ops) {
        assert MemberAt(t, tag.0, tag.1, v) == None;
      }
    }
  }
}
