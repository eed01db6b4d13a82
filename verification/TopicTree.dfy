/** Level trees as values: what the three tries of the broker (subscriptions, shared
    subscriptions, retained messages) compute, whatever they keep at a node. */
module TopicTree {
  import opened Common
  import opened TopicLevels

  type Path = seq<Level>

  datatype Tree<P> = Node(own: P, kids: map<Level, Tree<P>>)

  function Leafless<P>(own: P): Tree<P> {
    Node(own, map[])
  }

  function Kid<P>(t: Tree<P>, l: Level, empty: P): Tree<P> {
    if l in t.kids then t.kids[l] else Leafless(empty)
  }

  predicate HasNode<P>(t: Tree<P>, path: Path) {
    path == [] || (path[0] in t.kids && HasNode(t.kids[path[0]], path[1..]))
  }

  /** What is kept at a path, `empty` if the path has no node. */
  function OwnAt<P>(t: Tree<P>, path: Path, empty: P): P {
    if path == [] then t.own
    else if path[0] in t.kids then OwnAt(t.kids[path[0]], path[1..], empty)
    else empty
  }

  /** Insertion: walk the levels, creating the missing nodes, and update the last one -
      unless the rest of the topic turns out malformed. */
  function Graft<P>(t: Tree<P>, levels: Path, bad: bool, empty: P, f: P -> P): Tree<P>
    decreases levels
  {
    if levels == [] then (if bad then t else t.(own := f(t.own)))
    else
      var l := levels[0];
      t.(kids := t.kids[l := Graft(Kid(t, l, empty), levels[1..], bad, empty, f)])
  }

  /** Removal: fail if the walk leaves the tree or `f` refuses, else update the node and
      drop, on the way back, a child that is dead and has no children. */
  function Cut<P>(t: Tree<P>, levels: Path, bad: bool, f: P -> Option<P>, dead: P -> bool): Option<Tree<P>>
    decreases levels
  {
    if levels == [] then
      if bad then None
      else match f(t.own)
        case None => None
        case Some(own) => Some(t.(own := own))
    else
      var l := levels[0];
      if l !in t.kids then None
      else match Cut(t.kids[l], levels[1..], bad, f, dead)
        case None => None
        case Some(kid) =>
          Some(t.(kids := if kid.kids == map[] && dead(kid.own) then t.kids - {l} else t.kids[l := kid]))
  }

  /** Graft, one level at a time. */
  lemma GraftStep<P>(t: Tree<P>, l: Level, rest: Path, bad: bool, empty: P, f: P -> P)
    ensures Graft(t, [l] + rest, bad, empty, f) == t.(kids := t.kids[l := Graft(Kid(t, l, empty), rest, bad, empty, f)])
  {
  }

  /** Cut, one level at a time. */
  lemma CutStep<P>(t: Tree<P>, l: Level, rest: Path, bad: bool, f: P -> Option<P>, dead: P -> bool)
    requires l in t.kids
    ensures match Cut(t.kids[l], rest, bad, f, dead)
      case None => Cut(t, [l] + rest, bad, f, dead) == None
      case Some(kid) => Cut(t, [l] + rest, bad, f, dead) == Some(t.(kids :=
        if kid.kids == map[] && dead(kid.own) then t.kids - {l} else t.kids[l := kid]))
  {
  }

  /** Every node below the root leads to one that is not dead. */
  ghost predicate Live<P>(t: Tree<P>, dead: P -> bool) {
    forall l :: l in t.kids ==>
      (t.kids[l].kids != map[] || !dead(t.kids[l].own)) && Live(t.kids[l], dead)
  }

  lemma {:induction false} OwnAtGraft<P>(t: Tree<P>, levels: Path, bad: bool, empty: P, f: P -> P, q: Path)
    ensures OwnAt(Graft(t, levels, bad, empty, f), q, empty)
         == if q == levels && !bad then f(OwnAt(t, q, empty)) else OwnAt(t, q, empty)
    decreases levels
  {
    if levels != [] && q != [] {
      var l := levels[0];
      if q[0] == l {
        var kid := Kid(t, l, empty);
        OwnAtGraft(kid, levels[1..], bad, empty, f, q[1..]);
        assert q == [l] + q[1..] && levels == [l] + levels[1..];
        if l !in t.kids { assert OwnAt(kid, q[1..], empty) == empty; }
      }
    }
  }

  /** The nodes after an insertion. */
  lemma {:induction false} HasNodeGraft<P>(t: Tree<P>, levels: Path, bad: bool, empty: P, f: P -> P, q: Path)
    ensures HasNode(Graft(t, levels, bad, empty, f), q) <==> HasNode(t, q) || q <= levels
    decreases levels
  {
    if levels != [] && q != [] {
      var l := levels[0];
      if q[0] == l {
        HasNodeGraft(Kid(t, l, empty), levels[1..], bad, empty, f, q[1..]);
        assert q <= levels <==> q[1..] <= levels[1..] by {
          assert q == [l] + q[1..] && levels == [l] + levels[1..];
        }
      }
    }
  }

  /** A walk that leaves the tree finds nothing to cut. */
  lemma {:induction false} CutFails<P>(t: Tree<P>, levels: Path, bad: bool, empty: P, f: P -> Option<P>, dead: P -> bool)
    ensures Cut(t, levels, bad, f, dead) == None
       <==> bad || !HasNode(t, levels) || f(OwnAt(t, levels, empty)) == None
    decreases levels
  {
    if levels != [] && levels[0] in t.kids {
      CutFails(t.kids[levels[0]], levels[1..], bad, empty, f, dead);
    }
  }

  /** A cut changes what is kept at its own path only; where a node has been dropped,
      something dead was kept. */
  lemma {:induction false} OwnAtCut<P>(t: Tree<P>, levels: Path, bad: bool, empty: P, f: P -> Option<P>, dead: P -> bool, q: Path)
    requires Cut(t, levels, bad, f, dead).Some?
    ensures var t' := Cut(t, levels, bad, f, dead).value;
      var own := OwnAt(t, q, empty);
      var now := if q == levels && f(own).Some? then f(own).value else own;
      && (q == levels ==> f(own).Some?)
      && (OwnAt(t', q, empty) == now || (q != [] && q <= levels && dead(now) && OwnAt(t', q, empty) == empty))
    decreases levels
  {
    if levels != [] && q != [] && q[0] == levels[0] {
      OwnAtCut(t.kids[q[0]], levels[1..], bad, empty, f, dead, q[1..]);
      assert q == [q[0]] + q[1..] && levels == [q[0]] + levels[1..];
      var kid := Cut(t.kids[q[0]], levels[1..], bad, f, dead).value;
      if kid.kids == map[] && dead(kid.own) && q[1..] != [] {
        assert OwnAt(kid, q[1..], empty) == empty;
      }
    }
  }

  lemma {:induction false} CutKeepsLive<P>(t: Tree<P>, levels: Path, bad: bool, f: P -> Option<P>, dead: P -> bool)
    requires Live(t, dead) && Cut(t, levels, bad, f, dead).Some?
    ensures Live(Cut(t, levels, bad, f, dead).value, dead)
    decreases levels
  {
    if levels != [] {
      CutKeepsLive(t.kids[levels[0]], levels[1..], bad, f, dead);
    }
  }

  ghost predicate LiveKid<P>(kid: Tree<P>, dead: P -> bool) {
    (kid.kids != map[] || !dead(kid.own)) && Live(kid, dead)
  }

  /** Putting a child in place: the other children stay in order. */
  lemma PutLive<P>(t: Tree<P>, l: Level, kid: Tree<P>, dead: P -> bool)
    requires Live(t, dead)
    ensures Live(t.(kids := t.kids[l := kid]), dead) <==> LiveKid(kid, dead)
  {
    var t' := t.(kids := t.kids[l := kid]);
    assert t'.kids[l] == kid && forall k :: k in t'.kids && k != l ==> k in t.kids && t'.kids[k] == t.kids[k];
  }

  /** An insertion leaves no dead node behind exactly when the topic is well formed or its
      good levels already had a node. */
  lemma {:induction false} GraftLive<P>(t: Tree<P>, levels: Path, bad: bool, empty: P, f: P -> P, dead: P -> bool)
    requires Live(t, dead) && dead(empty) && (bad || forall own :: !dead(f(own)))
    ensures Live(Graft(t, levels, bad, empty, f), dead) <==> !bad || HasNode(t, levels)
    decreases levels
  {
    if levels != [] {
      var l := levels[0];
      var kid := Kid(t, l, empty);
      GraftLive(kid, levels[1..], bad, empty, f, dead);
      GraftRoot(kid, levels[1..], bad, empty, f);
      PutLive(t, l, Graft(kid, levels[1..], bad, empty, f), dead);
      if l !in t.kids && bad && levels[1..] != [] {
        assert !HasNode(kid, levels[1..]);
      }
    }
  }

  lemma GraftRoot<P>(t: Tree<P>, levels: Path, bad: bool, empty: P, f: P -> P)
    ensures var t' := Graft(t, levels, bad, empty, f);
      if levels == [] then t' == (if bad then t else t.(own := f(t.own)))
      else t'.own == t.own && levels[0] in t'.kids
  {
  }

  /** In a tree without dead ends, a tree that is not itself dead keeps something somewhere. */
  lemma {:induction false} LiveHasContent<P>(t: Tree<P>, dead: P -> bool, empty: P) returns (path: Path)
    requires Live(t, dead) && (t.kids != map[] || !dead(t.own))
    ensures HasNode(t, path) && !dead(OwnAt(t, path, empty))
    decreases t
  {
    if !dead(t.own) {
      path := [];
    } else {
      var l :| l in t.kids;
      var rest := LiveHasContent(t.kids[l], dead, empty);
      path := [l] + rest;
      assert path[1..] == rest;
    }
  }
}
