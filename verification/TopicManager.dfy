/** The topic manager: which tree a subscription or a publish goes to. */
module TopicManager {
  import opened Common
  import opened TopicLevels
  import opened SubTrie
  import opened SubNodes
  import opened ShareTrie
  import opened ShareNodes

  const SYS_PREFIX: Topic := [36, 115, 121, 115, 47]             // "$sys/"
  const SHARE_PREFIX: Topic := [36, 115, 104, 97, 114, 101, 47]  // "$share/"

  datatype Route = ToSys(rest: Topic) | ToShare(name: Group, filter: Topic) | Plain | Malformed

  /** The share name may not be empty nor hold '/', '+' or '#'. */
  predicate ShareName(name: Group) {
    name != [] && SEP !in name && CROSS !in name && HASH !in name
  }

  ghost predicate SplitsAs(topic: Topic, name: Group, filter: Topic) {
    ShareName(name) && topic == SHARE_PREFIX + name + [SEP] + filter
  }

  /** The scan for the end of the share name: where it ends, or None if it has none. */
  method ScanShareName(topic: Topic) returns (index: Option<nat>)
    requires SHARE_PREFIX <= topic
    ensures index.Some? ==> NameEnds(topic, index.value)
    ensures index == None ==> forall n: nat :: !NameEnds(topic, n)
  {
    var i := |SHARE_PREFIX|;
    while i < |topic|
      invariant |SHARE_PREFIX| <= i <= |topic|
      invariant forall j :: |SHARE_PREFIX| <= j < i ==> topic[j] !in {SEP, CROSS, HASH}
    {
      if topic[i] == SEP {
        return if i == |SHARE_PREFIX| then None else Some(i);
      } else if topic[i] == CROSS || topic[i] == HASH {
        return None;
      }
      i := i + 1;
    }
    return None;
  }

  /** Sorting a filter by its prefix. */
  method Dispatch(topic: Topic) returns (r: Route)
    ensures r.ToSys? <==> SYS_PREFIX <= topic
    ensures r.ToSys? ==> topic == SYS_PREFIX + r.rest
    ensures r.Plain? <==> !(SYS_PREFIX <= topic) && !(SHARE_PREFIX <= topic)
    ensures r.ToShare? ==> SplitsAs(topic, r.name, r.filter) && r.filter != []
    ensures r.ToShare? ==> r.name != [] && forall c :: c in r.name ==> c !in {'/' as int, '+' as int, '#' as int}
    ensures r.Malformed? ==> SHARE_PREFIX <= topic && forall name, filter :: SplitsAs(topic, name, filter) ==> filter == []
  {
    if SYS_PREFIX <= topic {
      return ToSys(topic[|SYS_PREFIX|..]);
    }
    if !(SHARE_PREFIX <= topic) {
      return Plain;
    }
    var index := ScanShareName(topic);
    forall name, filter | SplitsAs(topic, name, filter)
      ensures index == Some(|SHARE_PREFIX| + |name|)
    {
      ShareNameEnds(topic, name, filter);
    }
    if index.Some? && |topic| >= 2 + index.value {
      r := ToShare(topic[|SHARE_PREFIX|..index.value], topic[index.value + 1..]);
      assert topic == SHARE_PREFIX + r.name + [SEP] + r.filter;
    } else {
      r := Malformed;
    }
  }

  /** The first separator, '+' or '#' behind the prefix is a separator at n, and n is not the start. */
  ghost predicate NameEnds(topic: Topic, n: nat) {
    && |SHARE_PREFIX| < n < |topic| && topic[n] == SEP
    && forall j :: |SHARE_PREFIX| <= j < n ==> topic[j] !in {SEP, CROSS, HASH}
  }

  lemma ShareNameEnds(topic: Topic, name: Group, filter: Topic)
    requires SplitsAs(topic, name, filter)
    ensures NameEnds(topic, |SHARE_PREFIX| + |name|)
  {
  }

  datatype Answer = Granted(qos: byte) | Refused | AskSys(rest: Topic)

  const MAX_QOS: byte := 2

  class MemTopic {
    var sroot: SNode
    var share: ShNode

    ghost predicate Valid()
      reads this, sroot, sroot.Repr, share, share.Repr
    {
      sroot.Valid() && share.Valid() && sroot.Repr !! share.Repr && this !in sroot.Repr && this !in share.Repr
    }

    constructor ()
      ensures Valid() && fresh(sroot.Repr) && fresh(share.Repr)
      ensures sroot.tree == Fresh && share.tree == NoShares
    {
      sroot := new SNode();
      share := new ShNode();
    }

    /** A subscription lands in one tree and leaves the other alone; a refused one is an
        invalid QoS, a nil subscriber or a malformed filter. */
    method Subscribe(subs: Sub, sub: Option<Subscriber>) returns (a: Answer)
      requires Valid()
      modifies sroot.Repr, share.Repr
      ensures Valid()
      ensures a.Granted? ==> a.qos == subs.qos <= MAX_QOS && sub.Some?
      ensures subs.qos > MAX_QOS || sub == None ==> a == Refused && unchanged(old(sroot.Repr)) && unchanged(old(share.Repr))
      ensures SYS_PREFIX <= subs.topic && subs.qos <= MAX_QOS && sub.Some? ==>
                a == AskSys(subs.topic[5..]) && sroot.tree == old(sroot.tree) && share.tree == old(share.tree)
      ensures SHARE_PREFIX <= subs.topic ==> sroot.tree == old(sroot.tree)
      ensures SHARE_PREFIX <= subs.topic && (forall name, filter :: SplitsAs(subs.topic, name, filter) ==> filter == []) ==>
                a == Refused && share.tree == old(share.tree)
      ensures forall name, filter | SplitsAs(subs.topic, name, filter) && filter != [] && subs.qos <= MAX_QOS && sub.Some? ::
                share.tree == Joined(old(share.tree), Parse(filter), name, sub.value, subs.qos) && (a.Granted? <==> !Parse(filter).bad)
      ensures !(SYS_PREFIX <= subs.topic) && !(SHARE_PREFIX <= subs.topic) && subs.qos <= MAX_QOS && sub.Some? ==>
                && sroot.tree == Subscribed(old(sroot.tree), Parse(subs.topic), sub.value, subs.(topic := []))
                && share.tree == old(share.tree) && (a.Granted? <==> !Parse(subs.topic).bad)
    {
      if subs.qos > MAX_QOS || sub == None {
        return Refused;
      }
      var r := Dispatch(subs.topic);
      assert SYS_PREFIX[2] != SHARE_PREFIX[2];
      match r
      case ToSys(rest) =>
        return AskSys(rest);
      case Malformed =>
        return Refused;
      case ToShare(name, filter) =>
        forall n, f | SplitsAs(subs.topic, n, f)
          ensures n == name && f == filter
        {
          OneShareName(subs.topic, n, f, name, filter);
        }
        var err := share.SInsert(name, filter, subs.qos, sub.value);
        return if err then Refused else Granted(subs.qos);
      case Plain =>
        var err := sroot.SInsert(subs, sub.value);
        return if err then Refused else Granted(subs.qos);
    }

    /** A removal fails when there is nothing to remove, and then changes nothing. */
    method Unsubscribe(topic: Topic, sub: Option<Subscriber>) returns (a: Answer)
      requires Valid()
      modifies sroot.Repr, share.Repr
      ensures Valid()
      ensures a == Refused ==> unchanged(old(sroot.Repr)) && unchanged(old(share.Repr))
      ensures if SYS_PREFIX <= topic then a == AskSys(topic[5..]) else !a.AskSys?
      ensures a.AskSys? || SHARE_PREFIX <= topic ==> sroot.tree == old(sroot.tree)
      ensures a.AskSys? ==> share.tree == old(share.tree)
      ensures SHARE_PREFIX <= topic && (forall name, filter :: SplitsAs(topic, name, filter) ==> filter == []) ==> a == Refused
      ensures forall name, filter | SplitsAs(topic, name, filter) && filter != [] ::
                var left := Left(old(share.tree), Parse(filter), name, sub);
                share.tree == (if left.Some? then left.value else old(share.tree)) && (a == Refused <==> left == None)
      ensures !(SYS_PREFIX <= topic) && !(SHARE_PREFIX <= topic) ==>
                var left := Unsubscribed(old(sroot.tree), Parse(topic), sub);
                && share.tree == old(share.tree)
                && sroot.tree == (if left.Some? then left.value else old(sroot.tree)) && (a == Refused <==> left == None)
    {
      hide Unsubscribed, Left, Parse;
      var r := Dispatch(topic);
      assert SYS_PREFIX[2] != SHARE_PREFIX[2];
      match r
      case ToSys(rest) =>
        return AskSys(rest);
      case ToShare(name, filter) =>
        forall n, f | SplitsAs(topic, n, f)
          ensures n == name && f == filter
        {
          OneShareName(topic, n, f, name, filter);
        }
        var err := share.SRemove(filter, name, sub);
        return if err then Refused else Granted(0);
      case Malformed =>
        // a malformed share falls through to the plain tree, where '$' stops it
        var err := sroot.SRemove(topic, sub);
        SysTopicRefused(topic);
        NothingToRemove(old(sroot.tree), Parse(topic), sub);
        assert err;
        return Refused;
      case Plain =>
        var err := sroot.SRemove(topic, sub);
        return if err then Refused else Granted(0);
    }

    /** A publish asks for one member per group (of the named share, or of all), for the plain
        subscriptions, or for both; a topic starting with '$' is for the server alone. */
    method Subscribers(topic: Topic, qos: byte, svc: bool, shareName: Group, onlyShare: bool)
      returns (a: Answer, plain: Matches, picks: Picks)
      requires Valid()
      ensures fresh(plain) && fresh(picks) && Valid() && plain.Valid(qos) && picks.Valid(qos)
      ensures qos > MAX_QOS || (!svc && topic != [] && topic[0] == SYS) ==> a == Refused && plain.hits == [] && picks.tags == []
      ensures svc && qos <= MAX_QOS ==>
        a == (if SYS_PREFIX <= topic then AskSys(topic[5..]) else Refused) && plain.hits == [] && picks.tags == []
      ensures a.Granted? ==> !svc && qos <= MAX_QOS
      ensures a.Granted? ==>
        if onlyShare then plain.hits == []
        else Match(sroot.tree, [], Parse(topic)) == Some(multiset(plain.hits))
      ensures a.Granted? ==>
        if onlyShare || shareName != [] then
          && Grew([], [], picks.tags, picks.grants, share.tree, [])
          && forall tag: Tag :: multiset(picks.tags)[tag] ==
               if ShDue(share.tree, [], Parse(topic).levels, Parse(topic).slash, shareName, tag) then 1 else 0
        else picks.tags == []
      ensures !svc && qos <= MAX_QOS && !(topic != [] && topic[0] == SYS) && !Parse(topic).bad ==> a.Granted?
      ensures forall i :: 0 <= i < |plain.hits| ==>
        && plain.subs[i] == plain.hits[i].1
        && plain.qoss[i] == plain.hits[i].2.(qos := if qos <= plain.hits[i].2.qos then qos else plain.hits[i].2.qos)
      ensures forall i :: 0 <= i < |picks.grants| ==>
        picks.subs[i] == picks.grants[i].0 && picks.qoss[i] == if qos <= picks.grants[i].1 then qos else picks.grants[i].1
    {
      a := Refused;
      plain := new Matches();
      picks := new Picks();
      if qos > MAX_QOS || (!svc && |topic| > 0 && topic[0] == SYS) {
        return;
      }
      if svc {
        if SYS_PREFIX <= topic { a := AskSys(topic[|SYS_PREFIX|..]); }
        return;
      }
      if |shareName| > 0 || onlyShare {
        var err;
        err, picks := SharedMatch(topic, shareName, qos);
        if err || onlyShare {
          a := if err then Refused else Granted(qos);
          return;
        }
      }
      var err;
      err, plain := PlainMatch(topic, qos);
      a := if err then Refused else Granted(qos);
    }

    method SharedMatch(topic: Topic, shareName: Group, qos: byte) returns (err: bool, picks: Picks)
      requires Valid()
      ensures fresh(picks) && picks.Valid(qos)
      ensures !Parse(topic).bad ==> !err
      ensures !err ==> Grew([], [], picks.tags, picks.grants, share.tree, [])
      ensures !err ==>
        forall tag: Tag :: multiset(picks.tags)[tag] ==
          if ShDue(share.tree, [], Parse(topic).levels, Parse(topic).slash, shareName, tag) then 1 else 0
      ensures forall i :: 0 <= i < |picks.grants| ==>
        picks.subs[i] == picks.grants[i].0 && picks.qoss[i] == if qos <= picks.grants[i].1 then qos else picks.grants[i].1
    {
      picks := new Picks();
      err := share.SMatch(topic, shareName, qos, picks, []);
      if !Parse(topic).bad { ShLegalNoErr(share.tree, Parse(topic).levels); }
    }

    method PlainMatch(topic: Topic, qos: byte) returns (err: bool, plain: Matches)
      requires Valid()
      ensures fresh(plain) && plain.Valid(qos)
      ensures !Parse(topic).bad ==> !err
      ensures !err ==> Match(sroot.tree, [], Parse(topic)) == Some(multiset(plain.hits))
      ensures forall i :: 0 <= i < |plain.hits| ==>
        && plain.subs[i] == plain.hits[i].1
        && plain.qoss[i] == plain.hits[i].2.(qos := if qos <= plain.hits[i].2.qos then qos else plain.hits[i].2.qos)
    {
      plain := new Matches();
      err := sroot.SMatch(topic, qos, plain, []);
      if !Parse(topic).bad { MatchSucceeds(sroot.tree, [], Parse(topic)); }
      if !err { assert multiset(plain.hits) == Match(sroot.tree, [], Parse(topic)).value; }
    }
  }

  lemma NothingToRemove(t: STree, p: Parsed, sub: Option<Subscriber>)
    requires p.bad && p.levels == []
    ensures Unsubscribed(t, p, sub) == None
  {
  }

  /** A shared filter splits in one way only. */
  lemma OneShareName(topic: Topic, n: Group, f: Topic, m: Group, g: Topic)
    requires SplitsAs(topic, n, f) && SplitsAs(topic, m, g)
    ensures n == m && f == g
  {
    ShareNameEnds(topic, n, f);
    ShareNameEnds(topic, m, g);
    var p := |SHARE_PREFIX|;
    assert n == topic[p..p + |n|] && m == topic[p..p + |m|];
    assert f == topic[p + |n| + 1..] && g == topic[p + |m| + 1..];
  }

  /** No tree accepts a topic whose first level starts with '$'. */
  lemma SysTopicRefused(topic: Topic)
    requires topic != [] && topic[0] == SYS
    ensures Parse(topic).bad && Parse(topic).levels == []
  {
  }
}
