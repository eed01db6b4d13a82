/** The nodes of the retained-message tree, updated in place, proved against RetainTrie. */
module RetainNodes {
  import opened Common
  import opened TopicLevels
  import opened TopicTree
  import opened Header
  import P = Publish
  import opened PublishMessage
  import opened RetainMessage
  import opened RetainTrie

  /** The slice a query appends to; `hits` records where each message came from. */
  class Found {
    var msgs: seq<Held>
    ghost var hits: seq<RHit>

    ghost predicate Valid()
      reads this
    {
      |msgs| == |hits| && forall i :: 0 <= i < |hits| ==> msgs[i] == hits[i].1
    }

    constructor ()
      ensures Valid() && msgs == [] && hits == []
    {
      msgs, hits := [], [];
    }

    method Append(m: Held, ghost hit: RHit)
      requires Valid() && hit.1 == m
      modifies this
      ensures Valid() && msgs == old(msgs) + [m] && hits == old(hits) + [hit]
    {
      msgs, hits := msgs + [m], hits + [hit];
    }
  }

  ghost predicate Carries(pub: PublishMessage)
    reads pub, pub.head
  {
    pub.Valid() && MType(pub.head.mtypeflags) == PUBLISH && P.BodyLen(pub.View()) <= MAX_REMAINING
  }

  lemma ReadySize(m: P.Msg, next: uint16)
    ensures P.BodyLen(Ready(m, next)) == P.BodyLen(m)
  {
  }

  class RNode {
    var msg: Option<Held>
    var rnodes: map<Level, RNode>

    ghost var Repr: set<object>
    ghost var tree: RTree

    ghost predicate Valid()
      reads this, Repr
      decreases Repr
    {
      && this in Repr
      && tree.own == msg
      && tree.kids.Keys == rnodes.Keys
      && (forall l :: l in rnodes ==> ChildValid(l))
      && (forall k, l :: k in rnodes && l in rnodes && k != l ==> rnodes[k].Repr !! rnodes[l].Repr)
    }

    ghost predicate ChildValid(l: Level)
      requires l in rnodes && tree.kids.Keys == rnodes.Keys
      reads this, Repr
      decreases Repr, 0
    {
      var n := rnodes[l];
      n in Repr && n.Repr <= Repr && this !in n.Repr && this in Repr && n.Valid() && n.tree == tree.kids[l]
    }

    constructor ()
      ensures Valid() && fresh(Repr) && tree == Bare
    {
      msg, rnodes := None, map[];
      Repr, tree := {this}, Bare;
    }

    twostate lemma ChildrenKept()
      requires old(Valid()) && rnodes == old(rnodes) && Repr == old(Repr) && tree.kids == old(tree.kids)
      requires forall o :: o in Repr && o != this ==> unchanged(o)
      requires tree.own == msg
      ensures Valid()
    {
      forall l | l in rnodes ensures ChildValid(l) {
        assert old(ChildValid(l));
      }
    }

    /** Every child but the one at `level` is in order, apart from the others and from `n`. */
    ghost predicate Apart(level: Level, n: RNode)
      reads this, Repr, n
    {
      && this in Repr && tree.own == msg && tree.kids.Keys == rnodes.Keys
      && (forall l :: l in rnodes && l != level ==> ChildValid(l) && rnodes[l].Repr !! n.Repr)
      && (forall k, l :: k in rnodes && l in rnodes && k != l && k != level && l != level ==> rnodes[k].Repr !! rnodes[l].Repr)
    }

    /** Work below one child leaves its siblings alone. */
    twostate lemma SiblingsKept(new level: Level, new n: RNode, new touched: set<object>)
      requires old(Valid())
      requires Repr == old(Repr) && rnodes == old(rnodes) && tree == old(tree) && msg == old(msg)
      requires touched == if level in rnodes then old(rnodes[level].Repr) else {}
      requires forall o :: o in Repr && o !in touched ==> unchanged(o)
      requires fresh(n.Repr - touched)
      ensures Apart(level, n)
    {
      forall l | l in rnodes && l != level
        ensures ChildValid(l) && rnodes[l].Repr !! n.Repr && rnodes[l].Repr == old(rnodes[l].Repr)
      {
        assert old(ChildValid(l));
        var c := rnodes[l];
        assert old(rnodes[l].Valid());
        assert c in old(c.Repr);
        if level in rnodes { assert old(c.Repr) !! old(rnodes[level].Repr); }
        assert unchanged(c);
      }
    }

    /** A change of the node itself leaves a child it keeps as it is. */
    twostate lemma OtherStays(new l: Level)
      requires old(rnodes.Keys == tree.kids.Keys) && rnodes.Keys == tree.kids.Keys && l in rnodes && l in old(rnodes) && old(ChildValid(l))
      requires rnodes[l] == old(rnodes[l]) && tree.kids[l] == old(tree.kids[l]) && old(Repr) <= Repr
      requires forall o :: o in old(Repr) && o != this ==> unchanged(o)
      ensures ChildValid(l) && rnodes[l].Repr == old(rnodes[l].Repr)
    {
    }

    /** What a caller needs to know of the children. */
    lemma KnownChild(l: Level)
      requires Valid()
      ensures this in Repr && (l in rnodes <==> l in tree.kids)
      ensures l in rnodes ==> var n := rnodes[l]; n in Repr && n.Repr < Repr && this !in n.Repr && n.Valid() && n.tree == tree.kids[l]
    {
      if l in rnodes { assert ChildValid(l); }
    }

    lemma KnownKeys()
      requires Valid()
      ensures rnodes.Keys == tree.kids.Keys
    {
    }

    /** All children in order make the node so. */
    lemma Assembled(level: Level)
      requires level in rnodes && Apart(level, rnodes[level])
      requires var n := rnodes[level]; n.Valid() && n.Repr <= Repr && this !in n.Repr && n.tree == tree.kids[level]
      ensures Valid()
    {
      assert ChildValid(level);
    }

    method PutChild(level: Level, n: RNode)
      requires Apart(level, n) && n.Valid() && this !in n.Repr
      modifies this`rnodes, this`tree, this`Repr
      ensures Valid() && Repr == old(Repr) + n.Repr && tree == old(tree).(kids := old(tree.kids)[level := n.tree])
    {
      hide ChildValid;
      rnodes, tree, Repr := rnodes[level := n], tree.(kids := tree.kids[level := n.tree]), Repr + n.Repr;
      forall l | l in rnodes && l != level ensures ChildValid(l) && rnodes[l].Repr == old(rnodes[l].Repr) {
        OtherStays(l);
      }
      Assembled(level);
    }

    method DropChild(level: Level, n: RNode)
      requires Apart(level, n)
      modifies this`rnodes, this`tree
      ensures Valid() && tree == old(tree).(kids := old(tree.kids) - {level})
    {
      rnodes, tree := rnodes - {level}, tree.(kids := tree.kids - {level});
      forall l | l in rnodes ensures ChildValid(l) {
        assert old(ChildValid(l));
      }
    }

    /** A child left without children is dropped, whatever message it holds. */
    method Prune(level: Level, n: RNode)
      requires Apart(level, n) && n.Valid() && this !in n.Repr && n.Repr <= Repr && level in rnodes && rnodes[level] == n
      modifies this`rnodes, this`tree, this`Repr
      ensures Valid() && Repr == old(Repr)
      ensures tree == old(tree).(kids := if n.tree.kids == map[] then old(tree.kids) - {level} else old(tree.kids)[level := n.tree])
    {
      hide ChildValid;
      assert n.tree.kids == map[] <==> n.rnodes == map[] by {
        assert n.tree.kids.Keys == n.rnodes.Keys;
        assert n.rnodes == map[] <==> n.rnodes.Keys == {};
        assert n.tree.kids == map[] <==> n.tree.kids.Keys == {};
      }
      if n.rnodes == map[] {
        DropChild(level, n);
      } else {
        PutChild(level, n);
        assert Repr == old(Repr);
      }
    }

    /** Retain: an empty payload is a removal. The database is asked first, and if it fails
        (dbFails) the tree is left alone. */
    method Retain(pub: PublishMessage, next: uint16, dbFails: bool) returns (err: bool, ghost op: Op)
      requires Valid() && pub !in Repr && pub.head !in Repr && Carries(pub)
      modifies Repr, pub`propertiesLen, pub.head`remlen, pub.head`packetId
      ensures Valid() && fresh(Repr - old(Repr)) && Carries(pub)
      ensures op.msg == pub.View() && (pub.View() == old(pub.View()) || pub.View() == Ready(old(pub.View()), next))
      ensures dbFails ==> err && unchanged(old(Repr)) && unchanged(pub)
      ensures !dbFails ==> tree == Step(old(tree), op) && err == StepErr(old(tree), op)
    {
      op := Op.Retain(pub.View(), [], P.FRESH);
      if dbFails {
        return true, op;
      }
      if |pub.payload| == 0 {
        err := RRemove(pub.topic);
      } else {
        ghost var junk, spoilt;
        err, junk, spoilt := RInsert(pub.topic, pub, next);
        op := Op.Retain(pub.View(), junk, spoilt);
      }
    }

    /** pub holds a packet that can be counted. Its encoder may give it a packet identifier. */
    method RInsert(topic: Topic, pub: PublishMessage, next: uint16) returns (err: bool, ghost junk: seq<byte>, ghost spoilt: Held)
      requires Valid() && pub !in Repr && pub.head !in Repr && Carries(pub)
      modifies Repr, pub`propertiesLen, pub.head`remlen, pub.head`packetId
      ensures Valid() && fresh(Repr - old(Repr)) && Carries(pub)
      ensures pub.View() == old(pub.View()) || pub.View() == Ready(old(pub.View()), next)
      ensures err == RetainErr(old(tree), Parse(topic), pub.View(), junk, spoilt)
      ensures tree == Retained(old(tree), Parse(topic), pub.View(), junk, spoilt)
      decreases |topic|, 1
    {
      hide Kept, P.Refusal, P.BodyLen, Ready;
      if |topic| == 0 {
        err, junk, spoilt := TakeIn(pub, next);
        AlwaysHolds(old(tree.own), pub.View(), junk, spoilt);
        return;
      }
      var r := NextTopicLevel(topic);
      ParseStep(topic);
      if r.Err? {
        return true, [], P.FRESH;
      }
      err, junk, spoilt := InsertBelow(topic, r.value.0, Rest(r.value.1), pub, next);
    }

    /** The rest of RInsert, once the child to visit is known. */
    method InsertBelow(ghost topic: Topic, level: Level, rem: Topic, pub: PublishMessage, next: uint16)
      returns (err: bool, ghost junk: seq<byte>, ghost spoilt: Held)
      requires Valid() && pub !in Repr && pub.head !in Repr && Carries(pub)
      requires Parse(topic).levels == [level] + Parse(rem).levels && Parse(topic).bad == Parse(rem).bad
      modifies Repr, pub`propertiesLen, pub.head`remlen, pub.head`packetId
      ensures Valid() && fresh(Repr - old(Repr)) && Carries(pub)
      ensures pub.View() == old(pub.View()) || pub.View() == Ready(old(pub.View()), next)
      ensures err == RetainErr(old(tree), Parse(topic), pub.View(), junk, spoilt)
      ensures tree == Retained(old(tree), Parse(topic), pub.View(), junk, spoilt)
      decreases |rem|, 2
    {
      hide Kept, P.Refusal, P.BodyLen, Ready, Parse, Graft, ChildValid;
      var n, touched := Child(level);
      err, junk, spoilt := n.RInsert(rem, pub, next);
      GraftStep(old(tree), level, Parse(rem).levels, Stops(Parse(rem), pub.View()), None, KeepFn(pub.View(), junk, spoilt));
      SiblingsKept(level, n, touched);
      PutChild(level, n);
    }

    /** The child at a level, a new one if there is none yet. */
    method Child(level: Level) returns (n: RNode, ghost touched: set<object>)
      requires Valid()
      ensures n.Valid() && n.tree == Kid(tree, level, None) && this !in n.Repr
      ensures touched == (if level in rnodes then rnodes[level].Repr else {}) && fresh(n.Repr - touched) && touched <= Repr
    {
      touched := {};
      if level in rnodes {
        n, touched := rnodes[level], rnodes[level].Repr;
        KnownChild(level);
      } else {
        n := new RNode();
      }
    }

    /** The node itself takes the message in. */
    method TakeIn(pub: PublishMessage, next: uint16) returns (err: bool, ghost junk: seq<byte>, ghost spoilt: Held)
      requires Valid() && pub !in Repr && pub.head !in Repr && Carries(pub)
      modifies this`msg, this`tree, pub`propertiesLen, pub.head`remlen, pub.head`packetId
      ensures Valid() && Carries(pub)
      ensures pub.View() == old(pub.View()) || pub.View() == Ready(old(pub.View()), next)
      ensures Upshot(tree.own, err) == Kept(old(tree.own), pub.View(), junk, spoilt)
      ensures tree == old(tree).(own := Kept(old(tree.own), pub.View(), junk, spoilt).held)
    {
      hide Kept, P.Refusal, P.BodyLen;
      ReadySize(pub.View(), next);
      msg, err, junk, spoilt := Absorb(msg, pub, next);
      tree := tree.(own := msg);
      ChildrenKept();
    }

    method RRemove(topic: Topic) returns (err: bool)
      requires Valid()
      modifies Repr
      ensures Valid() && Repr == old(Repr)
      ensures err <==> Erased(old(tree), Parse(topic)) == None
      ensures if err then unchanged(old(Repr)) else tree == Erased(old(tree), Parse(topic)).value
      decreases |topic|, 1
    {
      if |topic| == 0 {
        msg := None;
        tree := tree.(own := None);
        ChildrenKept();
        return false;
      }
      var r := NextTopicLevel(topic);
      ParseStep(topic);
      if r.Err? || r.value.0 !in rnodes {
        return true;
      }
      err := RemoveBelow(topic, r.value.0, Rest(r.value.1));
    }

    /** The rest of RRemove, once the child to visit is known. */
    method RemoveBelow(ghost topic: Topic, level: Level, rem: Topic) returns (err: bool)
      requires Valid() && level in rnodes
      requires Parse(topic).levels == [level] + Parse(rem).levels && Parse(topic).bad == Parse(rem).bad
      modifies Repr
      ensures Valid() && Repr == old(Repr)
      ensures err <==> Erased(old(tree), Parse(topic)) == None
      ensures if err then unchanged(old(Repr)) else tree == Erased(old(tree), Parse(topic)).value
      decreases |rem|, 2
    {
      hide Parse, Cut, ChildValid;
      var n := rnodes[level];
      ghost var touched := n.Repr;
      KnownChild(level);
      err := n.RRemove(rem);
      CutStep(old(tree), level, Parse(rem).levels, Parse(rem).bad, ClearFn(), Any());
      if !err {
        SiblingsKept(level, n, touched);
        Prune(level, n);
      }
    }

    /** The whole subtree, each stored message once, children in any order. */
    method AllRetained(out: Found, ghost pre: Path)
      requires Valid() && out !in Repr && out.Valid()
      modifies out
      ensures out.Valid()
      ensures forall h: RHit :: multiset(out.hits)[h] ==
                multiset(old(out.hits))[h] + if RDue(tree, pre, Everything, h) then 1 else 0
      decreases Repr
    {
      if msg.Some? {
        out.Append(msg.value, (pre, msg.value));
      }
      ChildrenRetained(out, pre);
      forall h: RHit { RDueCases(tree, pre, [], h); }
    }

    method ChildrenRetained(out: Found, ghost pre: Path)
      requires Valid() && out !in Repr && out.Valid()
      modifies out
      ensures out.Valid()
      ensures forall h: RHit :: multiset(out.hits)[h] ==
                multiset(old(out.hits))[h] + if DueBelow(tree, pre, Everything, {}, h) then 1 else 0
      decreases Repr, 0
    {
      hide Valid, ChildValid, DueBelow, RDue;
      KnownKeys();
      forall h: RHit { NothingBelow(tree, pre, Everything, h); }
      var todo := rnodes.Keys;
      while todo != {}
        invariant todo <= rnodes.Keys && out.Valid()
        invariant forall h: RHit ::
                    multiset(out.hits)[h] == multiset(old(out.hits))[h] + if DueBelow(tree, pre, Everything, todo, h) then 1 else 0
      {
        var k :| k in todo;
        KnownChild(k);
        rnodes[k].AllRetained(out, pre + [k]);
        forall h: RHit { DueBelowStep(tree, pre, Everything, todo, k, h); }
        todo := todo - {k};
      }
    }

    method RMatch(topic: Topic, out: Found, ghost pre: Path) returns (err: bool)
      requires Valid() && out !in Repr && out.Valid()
      modifies out
      ensures out.Valid()
      ensures err <==> RErr(tree, Parse(topic).levels, Parse(topic).bad)
      ensures !err ==>
        forall h: RHit :: multiset(out.hits)[h] == multiset(old(out.hits))[h] + if RDue(tree, pre, Parse(topic).levels, h) then 1 else 0
      decreases |topic|, 1
    {
      hide ChildValid, Parse, RDue, DueBelow, RErr;
      ParseEmpty();
      RErrCases(tree, Parse(topic).levels, Parse(topic).bad);
      forall h: RHit { RDueCases(tree, pre, Parse(topic).levels, h); }
      if |topic| == 0 {
        if msg.Some? {
          out.Append(msg.value, (pre, msg.value));
        }
        return false;
      }
      var r := NextTopicLevel(topic);
      ParseStep(topic);
      if r.Err? {
        return true;
      }
      var level, rem := r.value.0, Rest(r.value.1);
      err := false;
      if level == MWC {
        AllRetained(out, pre);
      } else if level == SWC {
        err := MatchChildren(rem, out, pre);
      } else if level in rnodes {
        KnownChild(level);
        err := rnodes[level].RMatch(rem, out, pre + [level]);
      }
    }

    /** The '+' case: every child in turn, in any order. */
    method MatchChildren(rem: Topic, out: Found, ghost pre: Path) returns (err: bool)
      requires Valid() && out !in Repr && out.Valid()
      modifies out
      ensures out.Valid()
      ensures err <==> exists k :: k in tree.kids && RErr(tree.kids[k], Parse(rem).levels, Parse(rem).bad)
      ensures !err ==>
        forall h: RHit :: multiset(out.hits)[h] == multiset(old(out.hits))[h] + if DueBelow(tree, pre, Parse(rem).levels, {}, h) then 1 else 0
      decreases |rem|, 2
    {
      hide Valid, ChildValid, Parse, RErr, DueBelow;
      KnownKeys();
      ghost var rest := Parse(rem).levels;
      forall h: RHit { NothingBelow(tree, pre, rest, h); }
      var todo := rnodes.Keys;
      while todo != {}
        invariant todo <= rnodes.Keys && out.Valid()
        invariant forall k :: k in rnodes && k !in todo ==> !RErr(tree.kids[k], rest, Parse(rem).bad)
        invariant forall h: RHit :: multiset(out.hits)[h] ==
                    multiset(old(out.hits))[h] + if DueBelow(tree, pre, rest, todo, h) then 1 else 0
      {
        var k :| k in todo;
        KnownChild(k);
        var e := rnodes[k].RMatch(rem, out, pre + [k]);
        if e {
          return true;
        }
        forall h: RHit { DueBelowStep(tree, pre, rest, todo, k, h); }
        todo := todo - {k};
      }
      return false;
    }
  }
}
