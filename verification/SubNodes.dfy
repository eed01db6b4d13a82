/** The nodes of the subscription tree, updated in place, proved against SubTrie. */
module SubNodes {
  import opened Common
  import opened TopicLevels
  import opened TopicTree
  import opened SubTrie

  /** The parallel slices of a node, or of a result, as one list. */
  function Zip(subs: seq<Subscriber>, qos: seq<Sub>): (s: Slots)
    requires |subs| == |qos|
    ensures |s| == |subs| && forall i :: 0 <= i < |s| ==> s[i] == (subs[i], qos[i])
  {
    seq(|subs|, i requires 0 <= i < |subs| => (subs[i], qos[i]))
  }

  /** Upsert, seen by a scan that stops at the first match. */
  lemma {:induction false} UpsertAt(s: Slots, i: nat, who: Subscriber, opts: Sub)
    requires i <= |s| && (forall j :: 0 <= j < i ==> s[j].0 != who) && (i < |s| ==> s[i].0 == who)
    ensures Upsert(s, who, opts) == if i < |s| then s[i := (who, opts)] else s + [(who, opts)]
  {
    if i > 0 {
      UpsertAt(s[1..], i - 1, who, opts);
      assert s == [s[0]] + s[1..];
    }
  }

  lemma {:induction false} DropAt(s: Slots, i: nat, who: Subscriber)
    requires i <= |s| && (forall j :: 0 <= j < i ==> s[j].0 != who) && (i < |s| ==> s[i].0 == who)
    ensures Drop(s, who) == if i < |s| then Some(s[..i] + s[i + 1..]) else None
  {
    if i > 0 {
      DropAt(s[1..], i - 1, who);
      if i < |s| { assert s[..i] + s[i + 1..] == [s[0]] + (s[1..][..i - 1] + s[1..][i..]); }
    } else if s != [] {
      assert s[..0] + s[1..] == s[1..];
    }
  }

  lemma OwnHitsStep(s: Slots, pre: Path, i: nat)
    requires i < |s|
    ensures OwnHits(s[..i + 1], pre) == OwnHits(s[..i], pre) + multiset{(pre, s[i].0, s[i].1)}
  {
    assert s[..i + 1][..i] == s[..i];
  }

  lemma OwnHitsFrom(s: Slots, pre: Path)
    ensures OwnHits(s[..0], pre) == multiset{} && s[..|s|] == s
  {
  }

  /** The two slices a publisher hands to smatch; `hits` records where each element came from. */
  class Matches {
    var subs: seq<Subscriber>
    var qoss: seq<Sub>
    ghost var hits: seq<Hit>

    /** Element i is the delivery of hit i at the published QoS. */
    ghost predicate Valid(qos: byte)
      reads this
    {
      && |subs| == |qoss| == |hits|
      && forall i :: 0 <= i < |hits| ==> subs[i] == hits[i].1 && qoss[i] == Deliver(qos, hits[i].2)
    }

    /** The options handed out are those granted, at the lower of the two QoS levels. */
    lemma LowerQos(qos: byte)
      requires Valid(qos)
      ensures forall i :: 0 <= i < |hits| ==>
        subs[i] == hits[i].1 && qoss[i] == hits[i].2.(qos := if qos <= hits[i].2.qos then qos else hits[i].2.qos)
    {
    }

    constructor ()
      ensures forall qos :: Valid(qos)
      ensures subs == [] && qoss == [] && hits == []
    {
      subs, qoss, hits := [], [], [];
    }

    method Append(who: Subscriber, opts: Sub, ghost hit: Hit)
      modifies this
      ensures subs == old(subs) + [who] && qoss == old(qoss) + [opts] && hits == old(hits) + [hit]
    {
      subs, qoss, hits := subs + [who], qoss + [opts], hits + [hit];
    }
  }

  class SNode {
    var subs: seq<Subscriber>
    var qos: seq<Sub>
    var snodes: map<Level, SNode>

    ghost var Repr: set<object>
    ghost var tree: STree  // the abstract value

    ghost predicate Valid()
      reads this, Repr
      decreases Repr
    {
      && this in Repr
      && |subs| == |qos| && tree.own == Zip(subs, qos)
      && tree.kids.Keys == snodes.Keys
      && (forall l :: l in snodes ==> ChildValid(l))
      && (forall k, l :: k in snodes && l in snodes && k != l ==> snodes[k].Repr !! snodes[l].Repr)
    }

    ghost predicate ChildValid(l: Level)
      requires l in snodes && tree.kids.Keys == snodes.Keys
      reads this, Repr
      decreases Repr, 0
    {
      var n := snodes[l];
      n in Repr && n.Repr <= Repr && this !in n.Repr && this in Repr && n.Valid() && n.tree == tree.kids[l]
    }

    constructor ()
      ensures Valid() && fresh(Repr) && tree == Fresh
    {
      subs, qos, snodes := [], [], map[];
      Repr, tree := {this}, Fresh;
    }

    /** Changing what the node itself keeps leaves its children alone. */
    twostate lemma ChildrenKept()
      requires old(Valid()) && snodes == old(snodes) && Repr == old(Repr) && tree.kids == old(tree.kids)
      requires forall o :: o in Repr && o != this ==> unchanged(o)
      requires |subs| == |qos| && tree.own == Zip(subs, qos)
      ensures Valid()
    {
      forall l | l in snodes ensures ChildValid(l) {
        assert old(ChildValid(l));
      }
    }

    method InsertHere(opts: Sub, sub: Subscriber)
      requires Valid()
      modifies this`subs, this`qos, this`tree
      ensures Valid() && tree == old(tree).(own := Upsert(old(tree).own, sub, opts))
    {
      ghost var s := tree.own;
      var i := 0;
      while i < |subs| && subs[i] != sub
        invariant i <= |subs| && forall j :: 0 <= j < i ==> subs[j] != sub
      {
        i := i + 1;
      }
      UpsertAt(s, i, sub, opts);
      if i < |subs| {
        qos := qos[i := opts];
      } else {
        subs, qos := subs + [sub], qos + [opts];
      }
      tree := tree.(own := Upsert(s, sub, opts));
      assert tree.own == Zip(subs, qos);
      ChildrenKept();
    }

    method SInsert(opts: Sub, sub: Subscriber) returns (err: bool)
      requires Valid()
      modifies Repr
      ensures Valid() && fresh(Repr - old(Repr))
      ensures err == Parse(opts.topic).bad
      ensures tree == Subscribed(old(tree), Parse(opts.topic), sub, opts.(topic := []))
      decreases |opts.topic|, 1
    {
      if |opts.topic| == 0 {
        InsertHere(opts, sub);
        return false;
      }
      var r := NextTopicLevel(opts.topic);
      ParseStep(opts.topic);
      if r.Err? {
        return true;
      }
      err := InsertBelow(r.value.0, Rest(r.value.1), opts, sub);
    }

    /** The rest of SInsert, once the child to visit is known. */
    method InsertBelow(level: Level, rem: Topic, opts: Sub, sub: Subscriber) returns (err: bool)
      requires Valid() && |rem| < |opts.topic|
      requires Parse(opts.topic).levels == [level] + Parse(rem).levels && Parse(opts.topic).bad == Parse(rem).bad
      modifies Repr
      ensures Valid() && fresh(Repr - old(Repr))
      ensures err == Parse(opts.topic).bad
      ensures tree == Subscribed(old(tree), Parse(opts.topic), sub, opts.(topic := []))
      decreases |rem|, 2
    {
      hide Parse, Graft, Zip, ChildValid;
      var n, touched := Child(level);
      err := n.SInsert(opts.(topic := rem), sub);
      GraftStep(old(tree), level, Parse(rem).levels, Parse(rem).bad, [], UpsertFn(sub, opts.(topic := [])));
      SiblingsKept(level, n, touched);
      PutChild(level, n);
    }

    /** The child at a level, a new one if there is none yet. */
    method Child(level: Level) returns (n: SNode, ghost touched: set<object>)
      requires Valid()
      ensures n.Valid() && n.tree == Kid(tree, level, []) && this !in n.Repr
      ensures touched == (if level in snodes then snodes[level].Repr else {}) && fresh(n.Repr - touched) && touched <= Repr
    {
      touched := {};
      KnownChild(level);
      if level in snodes {
        n, touched := snodes[level], snodes[level].Repr;
      } else {
        n := new SNode();
      }
    }

    method RemoveHere(sub: Option<Subscriber>) returns (err: bool)
      requires Valid()
      modifies this`subs, this`qos, this`tree
      ensures Valid() && (err <==> DropFn(sub)(old(tree).own) == None)
      ensures if err then unchanged(this) else tree == old(tree).(own := DropFn(sub)(old(tree).own).value)
    {
      ghost var s := tree.own;
      if sub == None {
        subs, qos := [], [];
      } else {
        var i := 0;
        while i < |subs| && subs[i] != sub.value
          invariant i <= |subs| && forall j :: 0 <= j < i ==> subs[j] != sub.value
        {
          i := i + 1;
        }
        DropAt(s, i, sub.value);
        if i == |subs| {
          return true;
        }
        subs, qos := subs[..i] + subs[i + 1..], qos[..i] + qos[i + 1..];
      }
      tree := tree.(own := DropFn(sub)(s).value);
      assert tree.own == Zip(subs, qos);
      ChildrenKept();
      return false;
    }

    method SRemove(topic: Topic, sub: Option<Subscriber>) returns (err: bool)
      requires Valid()
      modifies Repr
      ensures Valid() && Repr == old(Repr)
      ensures err <==> Unsubscribed(old(tree), Parse(topic), sub) == None
      ensures if err then unchanged(old(Repr)) else tree == Unsubscribed(old(tree), Parse(topic), sub).value
      decreases |topic|, 1
    {
      if |topic| == 0 {
        err := RemoveHere(sub);
        return;
      }
      var r := NextTopicLevel(topic);
      ParseStep(topic);
      if r.Err? || r.value.0 !in snodes {
        return true;
      }
      err := RemoveBelow(topic, r.value.0, Rest(r.value.1), sub);
    }

    /** The rest of SRemove, once the child to visit is known. */
    method RemoveBelow(ghost topic: Topic, level: Level, rem: Topic, sub: Option<Subscriber>) returns (err: bool)
      requires Valid() && level in snodes
      requires Parse(topic).levels == [level] + Parse(rem).levels && Parse(topic).bad == Parse(rem).bad
      modifies Repr
      ensures Valid() && Repr == old(Repr)
      ensures err <==> Unsubscribed(old(tree), Parse(topic), sub) == None
      ensures if err then unchanged(old(Repr)) else tree == Unsubscribed(old(tree), Parse(topic), sub).value
      decreases |rem|, 2
    {
      hide Parse, Cut, Zip, ChildValid;
      var n := snodes[level];
      ghost var touched := n.Repr;
      KnownChild(level);
      err := n.SRemove(rem, sub);
      CutStep(old(tree), level, Parse(rem).levels, Parse(rem).bad, DropFn(sub), Vacant());
      if !err {
        SiblingsKept(level, n, touched);
        Prune(level, n);
      }
    }

    /** Keep the child just visited only if it still holds something. */
    method Prune(level: Level, n: SNode)
      requires Apart(level, n) && n.Valid() && this !in n.Repr && n.Repr <= Repr && level in snodes && snodes[level] == n
      modifies this`snodes, this`tree, this`Repr
      ensures Valid() && Repr == old(Repr)
      ensures tree == old(tree).(kids := if n.tree.kids == map[] && n.tree.own == []
                                         then old(tree.kids) - {level} else old(tree.kids)[level := n.tree])
    {
      assert n.tree.kids == map[] <==> n.snodes == map[] by {
        assert n.tree.kids.Keys == n.snodes.Keys;
        assert n.snodes == map[] <==> n.snodes.Keys == {};
        assert n.tree.kids == map[] <==> n.tree.kids.Keys == {};
      }
      if |n.subs| == 0 && n.snodes == map[] {
        DropChild(level, n);
      } else {
        PutChild(level, n);
        assert Repr == old(Repr);
      }
    }

    /** Every child but the one at `level` is in order, apart from the others and from `n`. */
    ghost predicate Apart(level: Level, n: SNode)
      reads this, Repr, n
    {
      && this in Repr && tree.kids.Keys == snodes.Keys
      && |subs| == |qos| && tree.own == Zip(subs, qos)
      && (forall l :: l in snodes && l != level ==> ChildValid(l) && snodes[l].Repr !! n.Repr)
      && (forall k, l :: k in snodes && l in snodes && k != l && k != level && l != level ==> snodes[k].Repr !! snodes[l].Repr)
    }

    /** Work below one child leaves its siblings alone. */
    twostate lemma SiblingsKept(new level: Level, new n: SNode, new touched: set<object>)
      requires old(Valid())
      requires Repr == old(Repr) && snodes == old(snodes) && tree == old(tree) && subs == old(subs) && qos == old(qos)
      requires touched == if level in snodes then old(snodes[level].Repr) else {}
      requires forall o :: o in Repr && o !in touched ==> unchanged(o)
      requires fresh(n.Repr - touched)
      ensures Apart(level, n)
    {
      forall l | l in snodes && l != level
        ensures ChildValid(l) && snodes[l].Repr !! n.Repr && snodes[l].Repr == old(snodes[l].Repr)
      {
        assert old(ChildValid(l));
        var c := snodes[l];
        assert old(snodes[l].Valid());
        assert c in old(c.Repr);
        if level in snodes { assert old(c.Repr) !! old(snodes[level].Repr); }
        assert unchanged(c);
      }
    }

    method DropChild(level: Level, n: SNode)
      requires Apart(level, n)
      modifies this`snodes, this`tree
      ensures Valid() && tree == old(tree).(kids := old(tree.kids) - {level})
    {
      snodes, tree := snodes - {level}, tree.(kids := tree.kids - {level});
      forall l | l in snodes ensures ChildValid(l) {
        assert old(ChildValid(l));
      }
    }

    /** A change of the node itself leaves a child it keeps as it is. */
    twostate lemma OtherStays(new l: Level)
      requires old(snodes.Keys == tree.kids.Keys) && snodes.Keys == tree.kids.Keys && l in snodes && l in old(snodes) && old(ChildValid(l))
      requires snodes[l] == old(snodes[l]) && tree.kids[l] == old(tree.kids[l]) && old(Repr) <= Repr
      requires forall o :: o in old(Repr) && o != this ==> unchanged(o)
      ensures ChildValid(l) && snodes[l].Repr == old(snodes[l].Repr)
    {
    }

    /** What a caller needs to know of the children. */
    lemma KnownChild(l: Level)
      requires Valid()
      ensures this in Repr && (l in snodes <==> l in tree.kids)
      ensures l in snodes ==> var n := snodes[l]; n in Repr && n.Repr < Repr && this !in n.Repr && n.Valid() && n.tree == tree.kids[l]
    {
      if l in snodes { assert ChildValid(l); }
    }

    lemma KnownKeys()
      requires Valid()
      ensures snodes.Keys == tree.kids.Keys
    {
    }

    /** All children in order make the node so. */
    lemma Assembled(level: Level)
      requires level in snodes && Apart(level, snodes[level])
      requires var n := snodes[level]; n.Valid() && n.Repr <= Repr && this !in n.Repr && n.tree == tree.kids[level]
      ensures Valid()
    {
      assert ChildValid(level);
    }

    method PutChild(level: Level, n: SNode)
      requires Apart(level, n) && n.Valid() && this !in n.Repr
      modifies this`snodes, this`tree, this`Repr
      ensures Valid() && Repr == old(Repr) + n.Repr && tree == old(tree).(kids := old(tree.kids)[level := n.tree])
    {
      hide ChildValid;
      snodes, tree, Repr := snodes[level := n], tree.(kids := tree.kids[level := n.tree]), Repr + n.Repr;
      forall l | l in snodes && l != level ensures ChildValid(l) && snodes[l].Repr == old(snodes[l].Repr) {
        OtherStays(l);
      }
      Assembled(level);
    }

    lemma OwnIs()
      requires Valid()
      ensures |tree.own| == |subs| == |qos| && forall i :: 0 <= i < |subs| ==> tree.own[i] == (subs[i], qos[i])
    {
    }

    method MatchQos(qos: byte, out: Matches, ghost pre: Path)
      requires Valid() && out !in Repr && out.Valid(qos)
      modifies out
      ensures out.Valid(qos) && multiset(out.hits) == old(multiset(out.hits)) + OwnHits(tree.own, pre)
      ensures forall i :: 0 <= i < |out.hits| ==>
        && out.subs[i] == out.hits[i].1
        && out.qoss[i] == out.hits[i].2.(qos := if qos <= out.hits[i].2.qos then qos else out.hits[i].2.qos)
    {
      hide Valid, ChildValid, Zip, OwnHits;
      OwnIs();
      ghost var s := tree.own;
      OwnHitsFrom(s, pre);
      for i := 0 to |subs|
        invariant out.Valid(qos) && multiset(out.hits) == old(multiset(out.hits)) + OwnHits(s[..i], pre)
      {
        OwnHitsStep(s, pre, i);
        HandOut(i, qos, out, pre);
      }
      out.LowerQos(qos);
    }

    method HandOut(i: nat, qos: byte, out: Matches, ghost pre: Path)
      requires i < |subs| == |this.qos| && out.Valid(qos)
      modifies out
      ensures out.Valid(qos) && out.hits == old(out.hits) + [(pre, subs[i], this.qos[i])]
    {
      var o := this.qos[i];
      var given := if qos <= o.qos
        then Sub(o.topic, qos, o.noLocal, o.retainAsPublished, o.retainHandling, o.subIdentifier)
        else o;
      out.Append(subs[i], given, (pre, subs[i], o));
    }

    method MatchLeaf(level: Level, qos: byte, out: Matches, ghost pre: Path)
      requires Valid() && out !in Repr && out.Valid(qos)
      modifies out
      ensures out.Valid(qos) && multiset(out.hits) == old(multiset(out.hits)) + LeafHits(tree, pre, level)
    {
      hide Valid, ChildValid;
      KnownChild(level);
      if level in snodes {
        snodes[level].MatchQos(qos, out, pre + [level]);
      }
    }

    /** The order in which the children are visited is not determined. */
    method SMatch(topic: Topic, qos: byte, out: Matches, ghost pre: Path) returns (err: bool)
      requires Valid() && out !in Repr && out.Valid(qos)
      modifies out
      ensures err <==> Match(tree, pre, Parse(topic)) == None
      ensures out.Valid(qos)
      ensures !err ==> multiset(out.hits) == old(multiset(out.hits)) + Match(tree, pre, Parse(topic)).value
      ensures forall i :: 0 <= i < |out.hits| ==>
        && out.subs[i] == out.hits[i].1
        && out.qoss[i] == out.hits[i].2.(qos := if qos <= out.hits[i].2.qos then qos else out.hits[i].2.qos)
      decreases |topic|, 2
    {
      if |topic| == 0 {
        MatchQos(qos, out, pre);
        MatchLeaf(MWC, qos, out, pre);
        MatchLeaf(SWC, qos, out, pre);
        out.LowerQos(qos);
        return false;
      }
      var r := NextTopicLevel(topic);
      ParseStep(topic);
      if r.Err? {
        out.LowerQos(qos);
        return true;
      }
      err := MatchBelow(r.value.0, r.value.1, topic, qos, out, pre);
      out.LowerQos(qos);
    }

    /** The loop of SMatch over the children. */
    method MatchBelow(level: Level, rem: Option<Topic>, ghost topic: Topic, qos: byte, out: Matches, ghost pre: Path)
      returns (err: bool)
      requires Valid() && out !in Repr && out.Valid(qos)
      requires topic != [] && Next(topic) == Ok((level, rem)) && Parse(topic).levels != [] && Parse(topic).levels[0] == level
      modifies out
      ensures err <==> Match(tree, pre, Parse(topic)) == None
      ensures out.Valid(qos)
      ensures !err ==> multiset(out.hits) == old(multiset(out.hits)) + Match(tree, pre, Parse(topic)).value
      decreases |topic|, 1
    {
      hide Valid, ChildValid, Parse, Next, Match, Gathered, Visit;
      KnownKeys();
      ghost var base, rest := multiset(out.hits), Parse(topic).(levels := Parse(topic).levels[1..]);
      ghost var sofar := multiset{};
      MatchGathers(tree, pre, Parse(topic));
      var todo := snodes.Keys;
      while todo != {}
        invariant todo <= snodes.Keys && out.Valid(qos)
        invariant Gathered(tree, pre, level, rest, todo) == Some(sofar)
        invariant multiset(out.hits) == base + sofar
      {
        var k :| k in todo;
        GatherStep(tree, pre, level, rest, todo, k);
        var e := VisitChild(k, level, rem, topic, qos, out, pre);
        if e {
          return true;
        }
        todo := todo - {k};
        sofar := sofar + Visit(tree, pre, level, rest, k).value;
      }
      return false;
    }

    /** The loop body of SMatch. */
    method VisitChild(k: Level, level: Level, rem: Option<Topic>, ghost topic: Topic, qos: byte, out: Matches, ghost pre: Path)
      returns (err: bool)
      requires Valid() && out !in Repr && out.Valid(qos) && k in snodes
      requires topic != [] && Next(topic) == Ok((level, rem))
      modifies out
      ensures var rest := Parse(topic).(levels := Parse(topic).levels[1..]);
        && (err <==> Visit(tree, pre, level, rest, k) == None)
        && (!err ==> multiset(out.hits) == old(multiset(out.hits)) + Visit(tree, pre, level, rest, k).value)
      ensures out.Valid(qos)
      decreases |topic|, 0
    {
      hide Valid, ChildValid, Parse, Next;
      ParseStep(topic);
      ParseEmpty();
      KnownChild(k);
      var n := snodes[k];
      if k == MWC {
        n.MatchQos(qos, out, pre + [k]);
      } else if k == SWC || k == level {
        if rem.Some? {
          err := n.SMatch(rem.value, qos, out, pre + [k]);
          return;
        }
        n.MatchQos(qos, out, pre + [k]);
        n.MatchLeaf(MWC, qos, out, pre + [k]);
      }
      return false;
    }
  }
}
