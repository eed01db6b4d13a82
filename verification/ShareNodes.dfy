/** The nodes of the shared-subscription tree, updated in place, proved against ShareTrie. */
module ShareNodes {
  import opened Common
  import opened TopicLevels
  import opened TopicTree
  import opened SubTrie
  import opened ShareTrie

  /** The two slices a publisher hands to smatch. `tags` records which group each element
      speaks for, `grants` which member it is and with what granted QoS. */
  class Picks {
    var subs: seq<Subscriber>
    var qoss: seq<byte>
    ghost var tags: seq<Tag>
    ghost var grants: seq<(Subscriber, byte)>

    ghost predicate Valid(qos: byte)
      reads this
    {
      && |subs| == |qoss| == |tags| == |grants|
      && forall i :: 0 <= i < |subs| ==> subs[i] == grants[i].0 && qoss[i] == Min(qos, grants[i].1)
    }

    /** The QoS handed out is the lower of the published and the granted one. */
    lemma LowerQos(qos: byte)
      requires Valid(qos)
      ensures forall i :: 0 <= i < |grants| ==>
        subs[i] == grants[i].0 && qoss[i] == if qos <= grants[i].1 then qos else grants[i].1
    {
    }

    constructor ()
      ensures forall qos :: Valid(qos)
      ensures subs == [] && qoss == [] && tags == [] && grants == []
    {
      subs, qoss, tags, grants := [], [], [], [];
    }

    method Append(who: Subscriber, qos: byte, ghost tag: Tag, ghost granted: byte)
      modifies this
      ensures subs == old(subs) + [who] && qoss == old(qoss) + [qos]
      ensures tags == old(tags) + [tag] && grants == old(grants) + [(who, granted)]
    {
      subs, qoss, tags, grants := subs + [who], qoss + [qos], tags + [tag], grants + [(who, granted)];
    }
  }

  ghost predicate IsMember(t: ShTree, pre: Path, tag: Tag, x: (Subscriber, byte)) {
    pre <= tag.0 && x in In(OwnAt(t, tag.0[|pre|..], map[]), tag.1)
  }

  /** The lists have only been appended to, by members of the groups they are tagged with. */
  ghost predicate Grew(tags0: seq<Tag>, grants0: seq<(Subscriber, byte)>, tags1: seq<Tag>, grants1: seq<(Subscriber, byte)>,
                       t: ShTree, pre: Path)
  {
    && tags0 <= tags1 && grants0 <= grants1 && |tags0| == |grants0| && |tags1| == |grants1|
    && forall i :: |tags0| <= i < |tags1| ==> IsMember(t, pre, tags1[i], grants1[i])
  }

  lemma GrewNone(tags: seq<Tag>, grants: seq<(Subscriber, byte)>, t: ShTree, pre: Path)
    requires |tags| == |grants|
    ensures Grew(tags, grants, tags, grants, t, pre)
  {
  }

  lemma GrewMore(tags0: seq<Tag>, grants0: seq<(Subscriber, byte)>, tags1: seq<Tag>, grants1: seq<(Subscriber, byte)>,
                 tags2: seq<Tag>, grants2: seq<(Subscriber, byte)>, t: ShTree, pre: Path)
    requires Grew(tags0, grants0, tags1, grants1, t, pre) && Grew(tags1, grants1, tags2, grants2, t, pre)
    ensures Grew(tags0, grants0, tags2, grants2, t, pre)
  {
  }

  lemma GrewBelow(tags0: seq<Tag>, grants0: seq<(Subscriber, byte)>, tags1: seq<Tag>, grants1: seq<(Subscriber, byte)>,
                  t: ShTree, pre: Path, k: Level)
    requires k in t.kids && Grew(tags0, grants0, tags1, grants1, t.kids[k], pre + [k])
    ensures Grew(tags0, grants0, tags1, grants1, t, pre)
  {
  }

  lemma {:induction false} EnlistAt(s: Members, i: nat, who: Subscriber, qos: byte)
    requires i <= |s| && (forall j :: 0 <= j < i ==> s[j].0 != who) && (i < |s| ==> s[i].0 == who)
    ensures Enlist(s, who, qos) == if i < |s| then s[i := (who, qos)] else s + [(who, qos)]
  {
    if i > 0 {
      EnlistAt(s[1..], i - 1, who, qos);
      assert s == [s[0]] + s[1..];
    }
  }

  lemma {:induction false} DismissAt(s: Members, i: nat, who: Subscriber)
    requires i <= |s| && (forall j :: 0 <= j < i ==> s[j].0 != who) && (i < |s| ==> s[i].0 == who)
    ensures Dismiss(s, who) == if i < |s| then Some(s[..i] + s[i + 1..]) else None
  {
    if i > 0 {
      DismissAt(s[1..], i - 1, who);
      if i < |s| { assert s[..i] + s[i + 1..] == [s[0]] + (s[1..][..i - 1] + s[1..][i..]); }
    } else if s != [] {
      assert s[..0] + s[1..] == s[1..];
    }
  }

  class ShNode {
    var shares: Shares
    var snodes: map<Level, ShNode>

    ghost var Repr: set<object>
    ghost var tree: ShTree

    ghost predicate Valid()
      reads this, Repr
      decreases Repr
    {
      && this in Repr
      && tree.own == shares
      && tree.kids.Keys == snodes.Keys
      && (forall l :: l in snodes ==> ChildValid(l))
      && (forall k, l :: k in snodes && l in snodes && k != l ==> snodes[k].Repr !! snodes[l].Repr)
    }

    ghost predicate ChildValid(l: Level)
      requires l in snodes && tree.kids.Keys == snodes.Keys
      reads this, Repr
      decreases Repr, 0
    {
      var n := snodes[l];
      n in Repr && n.Repr <= Repr && this !in n.Repr && this in Repr && n.Valid() && n.tree == tree.kids[l]
    }

    constructor ()
      ensures Valid() && fresh(Repr) && tree == NoShares
    {
      shares, snodes := map[], map[];
      Repr, tree := {this}, NoShares;
    }

    twostate lemma ChildrenKept()
      requires old(Valid()) && snodes == old(snodes) && Repr == old(Repr) && tree.kids == old(tree.kids)
      requires forall o :: o in Repr && o != this ==> unchanged(o)
      requires tree.own == shares
      ensures Valid()
    {
      forall l | l in snodes ensures ChildValid(l) {
        assert old(ChildValid(l));
      }
    }

    /** Every child but the one at `level` is in order, apart from the others and from `n`. */
    ghost predicate Apart(level: Level, n: ShNode)
      reads this, Repr, n
    {
      && this in Repr && tree.own == shares && tree.kids.Keys == snodes.Keys
      && (forall l :: l in snodes && l != level ==> ChildValid(l) && snodes[l].Repr !! n.Repr)
      && (forall k, l :: k in snodes && l in snodes && k != l && k != level && l != level ==> snodes[k].Repr !! snodes[l].Repr)
    }

    /** Work below one child leaves its siblings alone. */
    twostate lemma SiblingsKept(new level: Level, new n: ShNode, new touched: set<object>)
      requires old(Valid())
      requires Repr == old(Repr) && snodes == old(snodes) && tree == old(tree) && shares == old(shares)
      requires touched == if level in snodes then old(snodes[level].Repr) else {}
      requires forall o :: o in Repr && o !in touched ==> unchanged(o)
      requires fresh(n.Repr - touched)
      ensures Apart(level, n)
    {
      forall l | l in snodes && l != level
        ensures ChildValid(l) && snodes[l].Repr !! n.Repr && snodes[l].Repr == old(snodes[l].Repr)
      {
        assert old(ChildValid(l));
        var c := snodes[l];
        assert old(snodes[l].Valid());
        assert c in old(c.Repr);
        if level in snodes { assert old(c.Repr) !! old(snodes[level].Repr); }
        assert unchanged(c);
      }
    }

    /** A change of the node itself leaves a child it keeps as it is. */
    twostate lemma OtherStays(new l: Level)
      requires old(snodes.Keys == tree.kids.Keys) && snodes.Keys == tree.kids.Keys && l in snodes && l in old(snodes) && old(ChildValid(l))
      requires snodes[l] == old(snodes[l]) && tree.kids[l] == old(tree.kids[l]) && old(Repr) <= Repr
      requires forall o :: o in old(Repr) && o != this ==> unchanged(o)
      ensures ChildValid(l) && snodes[l].Repr == old(snodes[l].Repr)
    {
    }

    /** What a caller needs to know of the children. */
    lemma KnownChild(l: Level)
      requires Valid()
      ensures this in Repr && (l in snodes <==> l in tree.kids)
      ensures l in snodes ==> var n := snodes[l]; n in Repr && n.Repr < Repr && this !in n.Repr && n.Valid() && n.tree == tree.kids[l]
    {
      if l in snodes { assert ChildValid(l); }
    }

    lemma KnownKeys()
      requires Valid()
      ensures snodes.Keys == tree.kids.Keys
    {
    }

    /** All children in order make the node so. */
    lemma Assembled(level: Level)
      requires level in snodes && Apart(level, snodes[level])
      requires var n := snodes[level]; n.Valid() && n.Repr <= Repr && this !in n.Repr && n.tree == tree.kids[level]
      ensures Valid()
    {
      assert ChildValid(level);
    }

    method PutChild(level: Level, n: ShNode)
      requires Apart(level, n) && n.Valid() && this !in n.Repr
      modifies this`snodes, this`tree, this`Repr
      ensures Valid() && Repr == old(Repr) + n.Repr && tree == old(tree).(kids := old(tree.kids)[level := n.tree])
    {
      hide ChildValid;
      snodes, tree, Repr := snodes[level := n], tree.(kids := tree.kids[level := n.tree]), Repr + n.Repr;
      forall l | l in snodes && l != level ensures ChildValid(l) && snodes[l].Repr == old(snodes[l].Repr) {
        OtherStays(l);
      }
      Assembled(level);
    }

    /** The flag loop over the child's groups. */
    method AllEmpty() returns (tag: bool)
      requires Valid()
      ensures tag <==> Deserted()(tree.own)
    {
      var todo := shares.Keys;
      while todo != {}
        invariant todo <= shares.Keys
        invariant forall g :: g in shares && g !in todo ==> shares[g] == []
      {
        var g :| g in todo;
        if |shares[g]| != 0 {
          return false;
        }
        todo := todo - {g};
      }
      return true;
    }

    method DropChild(level: Level, n: ShNode)
      requires Apart(level, n)
      modifies this`snodes, this`tree
      ensures Valid() && tree == old(tree).(kids := old(tree.kids) - {level})
    {
      snodes, tree := snodes - {level}, tree.(kids := tree.kids - {level});
      forall l | l in snodes ensures ChildValid(l) {
        assert old(ChildValid(l));
      }
    }

    /** A child without children and without members is dropped. */
    method Prune(level: Level, n: ShNode)
      requires Apart(level, n) && n.Valid() && this !in n.Repr && n.Repr <= Repr && level in snodes && snodes[level] == n
      modifies this`snodes, this`tree, this`Repr
      ensures Valid() && Repr == old(Repr)
      ensures tree == old(tree).(kids := if n.tree.kids == map[] && Deserted()(n.tree.own)
                                         then old(tree.kids) - {level} else old(tree.kids)[level := n.tree])
    {
      hide ChildValid, Deserted;
      assert n.tree.kids == map[] <==> n.snodes == map[] by {
        assert n.tree.kids.Keys == n.snodes.Keys;
        assert n.snodes == map[] <==> n.snodes.Keys == {};
        assert n.tree.kids == map[] <==> n.tree.kids.Keys == {};
      }
      var tag := n.AllEmpty();
      if tag && n.snodes == map[] {
        DropChild(level, n);
      } else {
        PutChild(level, n);
        assert Repr == old(Repr);
      }
    }

    method InsertHere(g: Group, sub: Subscriber, qos: byte)
      requires Valid()
      modifies this`shares, this`tree
      ensures Valid() && tree == old(tree).(own := JoinFn(g, sub, qos)(old(tree).own))
    {
      if g in shares {
        var v := shares[g];
        var i := 0;
        while i < |v| && v[i].0 != sub
          invariant i <= |v| && forall j :: 0 <= j < i ==> v[j].0 != sub
        {
          i := i + 1;
        }
        EnlistAt(v, i, sub, qos);
        shares := shares[g := if i < |v| then v[i := (sub, qos)] else v + [(sub, qos)]];
      } else {
        shares := shares[g := [(sub, qos)]];
      }
      tree := tree.(own := shares);
      ChildrenKept();
    }

    method SInsert(shareName: Group, topic: Topic, qos: byte, sub: Subscriber) returns (err: bool)
      requires Valid()
      modifies Repr
      ensures Valid() && fresh(Repr - old(Repr))
      ensures err == Parse(topic).bad
      ensures tree == Joined(old(tree), Parse(topic), shareName, sub, qos)
      decreases |topic|, 1
    {
      if |topic| == 0 {
        InsertHere(shareName, sub, qos);
        return false;
      }
      var r := NextTopicLevel(topic);
      ParseStep(topic);
      if r.Err? {
        return true;
      }
      err := InsertBelow(topic, r.value.0, Rest(r.value.1), shareName, qos, sub);
    }

    /** The rest of SInsert, once the child to visit is known. */
    method InsertBelow(ghost topic: Topic, level: Level, rem: Topic, shareName: Group, qos: byte, sub: Subscriber) returns (err: bool)
      requires Valid()
      requires Parse(topic).levels == [level] + Parse(rem).levels && Parse(topic).bad == Parse(rem).bad
      modifies Repr
      ensures Valid() && fresh(Repr - old(Repr))
      ensures err == Parse(topic).bad
      ensures tree == Joined(old(tree), Parse(topic), shareName, sub, qos)
      decreases |rem|, 2
    {
      hide Parse, Graft, ChildValid;
      var n, touched := Child(level);
      err := n.SInsert(shareName, rem, qos, sub);
      GraftStep(old(tree), level, Parse(rem).levels, Parse(rem).bad, map[], JoinFn(shareName, sub, qos));
      SiblingsKept(level, n, touched);
      PutChild(level, n);
    }

    /** The child at a level, a new one if there is none yet. */
    method Child(level: Level) returns (n: ShNode, ghost touched: set<object>)
      requires Valid()
      ensures n.Valid() && n.tree == Kid(tree, level, map[]) && this !in n.Repr
      ensures touched == (if level in snodes then snodes[level].Repr else {}) && fresh(n.Repr - touched) && touched <= Repr
    {
      touched := {};
      KnownChild(level);
      if level in snodes {
        n, touched := snodes[level], snodes[level].Repr;
      } else {
        n := new ShNode();
      }
    }

    method RemoveHere(g: Group, sub: Option<Subscriber>) returns (err: bool)
      requires Valid()
      modifies this`shares, this`tree
      ensures Valid() && (err <==> LeaveFn(g, sub)(old(tree).own) == None)
      ensures if err then unchanged(this) else tree == old(tree).(own := LeaveFn(g, sub)(old(tree).own).value)
    {
      if sub == None {
        shares := if |g| == 0 then map[] else shares - {g};
      } else {
        if g !in shares {
          return true;
        }
        var v := shares[g];
        var i := 0;
        while i < |v| && v[i].0 != sub.value
          invariant i <= |v| && forall j :: 0 <= j < i ==> v[j].0 != sub.value
        {
          i := i + 1;
        }
        DismissAt(v, i, sub.value);
        if i == |v| {
          return true;
        }
        shares := shares[g := v[..i] + v[i + 1..]];
      }
      tree := tree.(own := shares);
      ChildrenKept();
      return false;
    }

    method SRemove(topic: Topic, shareName: Group, sub: Option<Subscriber>) returns (err: bool)
      requires Valid()
      modifies Repr
      ensures Valid() && Repr == old(Repr)
      ensures err <==> Left(old(tree), Parse(topic), shareName, sub) == None
      ensures if err then unchanged(old(Repr)) else tree == Left(old(tree), Parse(topic), shareName, sub).value
      decreases |topic|, 1
    {
      if |topic| == 0 {
        err := RemoveHere(shareName, sub);
        return;
      }
      var r := NextTopicLevel(topic);
      ParseStep(topic);
      if r.Err? || r.value.0 !in snodes {
        return true;
      }
      err := RemoveBelow(topic, r.value.0, Rest(r.value.1), shareName, sub);
    }

    /** The rest of SRemove, once the child to visit is known. */
    method RemoveBelow(ghost topic: Topic, level: Level, rem: Topic, shareName: Group, sub: Option<Subscriber>) returns (err: bool)
      requires Valid() && level in snodes
      requires Parse(topic).levels == [level] + Parse(rem).levels && Parse(topic).bad == Parse(rem).bad
      modifies Repr
      ensures Valid() && Repr == old(Repr)
      ensures err <==> Left(old(tree), Parse(topic), shareName, sub) == None
      ensures if err then unchanged(old(Repr)) else tree == Left(old(tree), Parse(topic), shareName, sub).value
      decreases |rem|, 2
    {
      hide Parse, Cut, ChildValid, Deserted, LeaveFn;
      var n := snodes[level];
      ghost var touched := n.Repr;
      KnownChild(level);
      err := n.SRemove(rem, shareName, sub);
      CutStep(old(tree), level, Parse(rem).levels, Parse(rem).bad, LeaveFn(shareName, sub), Deserted());
      if !err {
        SiblingsKept(level, n, touched);
        Prune(level, n);
      }
    }

    /** One member of a group, whichever the generator draws. */
    method PickOne(g: Group, qos: byte, out: Picks, ghost pre: Path)
      requires Valid() && out !in Repr && out.Valid(qos) && g in shares && shares[g] != []
      modifies out
      ensures out.Valid(qos) && out.tags == old(out.tags) + [(pre, g)] && Grew(old(out.tags), old(out.grants), out.tags, out.grants, tree, pre)
    {
      var v := shares[g];
      var i :| 0 <= i < |v|;
      var granted := v[i].1;
      out.Append(v[i].0, if qos <= granted then qos else granted, (pre, g), granted);
      assert pre[|pre|..] == [];
      assert v[i] in In(OwnAt(tree, [], map[]), g);
    }

    method MatchQos(qos: byte, out: Picks, shareName: Group, ghost pre: Path)
      requires Valid() && out !in Repr && out.Valid(qos)
      modifies out
      ensures out.Valid(qos) && Grew(old(out.tags), old(out.grants), out.tags, out.grants, tree, pre)
      ensures forall tag: Tag :: multiset(out.tags)[tag] ==
                multiset(old(out.tags))[tag] + if tag.0 == pre && Eligible(tree.own, shareName, tag.1) then 1 else 0
    {
      hide ChildValid, Grew;
      GrewNone(out.tags, out.grants, tree, pre);
      if |shareName| == 0 {
        var todo := shares.Keys;
        while todo != {}
          invariant todo <= shares.Keys && out.Valid(qos)
          invariant Grew(old(out.tags), old(out.grants), out.tags, out.grants, tree, pre)
          invariant forall tag: Tag :: multiset(out.tags)[tag] == multiset(old(out.tags))[tag] +
                      if tag.0 == pre && Eligible(tree.own, shareName, tag.1) && tag.1 !in todo then 1 else 0
        {
          var g :| g in todo;
          todo := todo - {g};
          if |shares[g]| != 0 {
            ghost var tags1, grants1 := out.tags, out.grants;
            PickOne(g, qos, out, pre);
            GrewMore(old(out.tags), old(out.grants), tags1, grants1, out.tags, out.grants, tree, pre);
          }
        }
      } else if shareName in shares && |shares[shareName]| != 0 {
        PickOne(shareName, qos, out, pre);
      }
    }

    method MatchLeaf(level: Level, qos: byte, out: Picks, shareName: Group, ghost pre: Path)
      requires Valid() && out !in Repr && out.Valid(qos)
      modifies out
      ensures out.Valid(qos) && Grew(old(out.tags), old(out.grants), out.tags, out.grants, tree, pre)
      ensures forall tag: Tag :: multiset(out.tags)[tag] ==
                multiset(old(out.tags))[tag] + if ShLeaf(tree, pre, level, shareName, tag) then 1 else 0
    {
      hide Valid, ChildValid, Grew;
      KnownChild(level);
      GrewNone(out.tags, out.grants, tree, pre);
      if level in snodes {
        snodes[level].MatchQos(qos, out, shareName, pre + [level]);
        GrewBelow(old(out.tags), old(out.grants), out.tags, out.grants, tree, pre, level);
      }
    }

    /** The order in which the children are visited, and the members drawn, are not determined. */
    method SMatch(topic: Topic, shareName: Group, qos: byte, out: Picks, ghost pre: Path) returns (err: bool)
      requires Valid() && out !in Repr && out.Valid(qos)
      modifies out
      ensures err <==> ShErr(tree, Parse(topic).levels, Parse(topic).bad)
      ensures out.Valid(qos) && Grew(old(out.tags), old(out.grants), out.tags, out.grants, tree, pre)
      ensures !err ==>
        forall tag: Tag :: multiset(out.tags)[tag] == multiset(old(out.tags))[tag] + if ShDue(tree, pre, Parse(topic).levels, Parse(topic).slash, shareName, tag) then 1 else 0
      ensures forall i :: 0 <= i < |out.grants| ==>
        out.subs[i] == out.grants[i].0 && out.qoss[i] == if qos <= out.grants[i].1 then qos else out.grants[i].1
      decreases |topic|, 3
    {
      hide Valid, ChildValid, Parse, Grew;
      ParseEmpty();
      GrewNone(out.tags, out.grants, tree, pre);
      if |topic| == 0 {
        MatchEnd(qos, out, shareName, pre);
        ghost var tags1, grants1 := out.tags, out.grants;
        MatchLeaf(SWC, qos, out, shareName, pre);
        GrewMore(old(out.tags), old(out.grants), tags1, grants1, out.tags, out.grants, tree, pre);
        forall tag: Tag { ShDueSlash(tree, pre, shareName, tag); }
        out.LowerQos(qos);
        return false;
      }
      var r := NextTopicLevel(topic);
      ParseStep(topic);
      if r.Err? {
        out.LowerQos(qos);
        return true;
      }
      var level, rem := r.value.0, r.value.1;
      ghost var p := Parse(Rest(rem));
      forall tag: Tag { ShDueBelow(tree, pre, level, p.levels, p.slash && rem.Some?, shareName, tag); }
      assert ([level] + p.levels)[1..] == p.levels;
      err := MatchBelow(level, rem, p, shareName, qos, out, pre);
      out.LowerQos(qos);
    }

    /** The loop of SMatch over the children. */
    method MatchBelow(level: Level, rem: Option<Topic>, ghost p: Parsed, shareName: Group, qos: byte, out: Picks, ghost pre: Path)
      returns (err: bool)
      requires Valid() && out !in Repr && out.Valid(qos) && p == Parse(Rest(rem))
      modifies out
      ensures out.Valid(qos) && Grew(old(out.tags), old(out.grants), out.tags, out.grants, tree, pre)
      ensures err <==> exists k :: k in tree.kids && ShErrUnder(tree, level, p.levels, p.bad, k)
      ensures !err ==> Tallied(multiset(old(out.tags)), multiset(out.tags), tree, pre, level,
                               p.levels, p.slash && rem.Some?, shareName, {})
      decreases |Rest(rem)|, 5
    {
      hide Valid, ChildValid, Parse, ShErrUnder, Grew;
      KnownKeys();
      GrewNone(out.tags, out.grants, tree, pre);
      ghost var tags0, grants0 := out.tags, out.grants;
      ghost var tags1, grants1 := tags0, grants0;
      ghost var slash := p.slash && rem.Some?;
      var todo := snodes.Keys;
      while todo != {}
        invariant todo <= snodes.Keys && out.Valid(qos)
        invariant tags1 == out.tags && grants1 == out.grants && Grew(tags0, grants0, tags1, grants1, tree, pre)
        invariant forall k :: k in snodes && k !in todo ==> !ShErrUnder(tree, level, p.levels, p.bad, k)
        invariant Tallied(multiset(tags0), multiset(tags1), tree, pre, level, p.levels, slash, shareName, todo)
      {
        var k :| k in todo;
        var e := VisitChild(k, level, rem, p, shareName, qos, out, pre);
        GrewMore(tags0, grants0, tags1, grants1, out.tags, out.grants, tree, pre);
        if e {
          return true;
        }
        TallyStep(multiset(tags0), multiset(tags1), multiset(out.tags), tree, pre, level, p.levels, slash, shareName, todo, k);
        todo, tags1, grants1 := todo - {k}, out.tags, out.grants;
      }
      return false;
    }

    /** The loop body of SMatch. */
    method VisitChild(k: Level, level: Level, rem: Option<Topic>, ghost p: Parsed, shareName: Group, qos: byte, out: Picks, ghost pre: Path)
      returns (err: bool)
      requires Valid() && out !in Repr && out.Valid(qos) && k in snodes && p == Parse(Rest(rem))
      modifies out
      ensures out.Valid(qos) && Grew(old(out.tags), old(out.grants), out.tags, out.grants, tree, pre)
      ensures k in tree.kids && (err <==> ShErrUnder(tree, level, p.levels, p.bad, k))
      ensures !err ==>
        forall tag: Tag :: multiset(out.tags)[tag] == multiset(old(out.tags))[tag] +
          if ShVisit(tree, pre, level, p.levels, p.slash && rem.Some?, shareName, k, tag) then 1 else 0
      decreases |Rest(rem)|, 4
    {
      hide Valid, ChildValid, Parse, Grew;
      KnownChild(k);
      ParseEmpty();
      GrewNone(out.tags, out.grants, tree, pre);
      if k == MWC {
        MatchLeaf(k, qos, out, shareName, pre);
        return false;
      } else if k == SWC || k == level {
        ghost var tags0, grants0 := out.tags, out.grants;
        if rem.Some? {
          err := snodes[k].SMatch(rem.value, shareName, qos, out, pre + [k]);
        } else {
          snodes[k].MatchEnd(qos, out, shareName, pre + [k]);
          err := false;
        }
        GrewBelow(tags0, grants0, out.tags, out.grants, tree, pre, k);
      } else {
        return false;
      }
    }

    /** The last level of a topic that does not end in a separator: the node and its "#". */
    method MatchEnd(qos: byte, out: Picks, shareName: Group, ghost pre: Path)
      requires Valid() && out !in Repr && out.Valid(qos)
      modifies out
      ensures out.Valid(qos) && Grew(old(out.tags), old(out.grants), out.tags, out.grants, tree, pre)
      ensures forall tag: Tag :: multiset(out.tags)[tag] ==
                multiset(old(out.tags))[tag] + if ShDue(tree, pre, [], false, shareName, tag) then 1 else 0
    {
      hide Valid, ChildValid, Grew;
      MatchQos(qos, out, shareName, pre);
      ghost var tags1, grants1 := out.tags, out.grants;
      MatchLeaf(MWC, qos, out, shareName, pre);
      GrewMore(old(out.tags), old(out.grants), tags1, grants1, out.tags, out.grants, tree, pre);
      forall tag: Tag { ShDueAtEnd(tree, pre, false, shareName, tag); }
    }
  }
}
