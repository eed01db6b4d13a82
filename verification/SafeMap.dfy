/** The two-generation map: deletions wear out the old generation, which is then folded
    into the new one. To its users it is one plain map. */
module SafeMap {
  import opened Common

  const COPY_THRESHOLD := 1000
  const MAX_DELETION := 10000

  class SafeMap<K(==), V(==)> {
    var deletionOld: nat
    var deletionNew: nat
    var dirtyOld: map<K, V>
    var dirtyNew: map<K, V>

    /** No key lives in both generations. */
    ghost predicate Valid()
      reads this
    {
      dirtyOld.Keys !! dirtyNew.Keys
    }

    ghost function Contents(): map<K, V>
      reads this
    {
      dirtyOld + dirtyNew
    }

    constructor ()
      ensures Valid() && Contents() == map[]
    {
      deletionOld, deletionNew, dirtyOld, dirtyNew := 0, 0, map[], map[];
    }

    /** Copies one generation into the other, entry by entry. */
    static method Fold(from: map<K, V>, into: map<K, V>) returns (r: map<K, V>)
      requires from.Keys !! into.Keys
      ensures r == into + from
    {
      r := into;
      var todo := from.Keys;
      while todo != {}
        invariant todo <= from.Keys
        invariant r == into + (from - todo)
      {
        var k :| k in todo;
        FoldStep(from, into, todo, k);
        r := r[k := from[k]];
        todo := todo - {k};
      }
      assert from - {} == from;
    }

    method Del(key: K) returns (was: Option<V>)
      requires Valid()
      modifies this
      ensures Valid() && Contents() == old(Contents()) - {key}
      ensures was == if key in old(Contents()) then Some(old(Contents())[key]) else None
      // a worn generation that has become small has been folded away
      ensures deletionNew < 10000 || |dirtyNew| >= 1000
      ensures deletionOld < 10000 || |dirtyOld| >= 1000 || dirtyNew == map[]
    {
      was := Remove(key);
      if deletionOld >= MAX_DELETION && |dirtyOld| < COPY_THRESHOLD {
        RetireOld();
      }
      if deletionNew >= MAX_DELETION && |dirtyNew| < COPY_THRESHOLD {
        RetireNew();
      }
    }

    /** Takes the key out of the generation it lives in. */
    method Remove(key: K) returns (was: Option<V>)
      requires Valid()
      modifies this
      ensures Valid() && Contents() == old(Contents()) - {key}
      ensures was == if key in old(Contents()) then Some(old(Contents())[key]) else None
      ensures deletionOld + deletionNew == old(deletionOld + deletionNew) + if was.Some? then 1 else 0
    {
      RemoveFromSum(dirtyOld, dirtyNew, key);
      was := None;
      if key in dirtyOld {
        was := Some(dirtyOld[key]);
        dirtyOld, deletionOld := dirtyOld - {key}, deletionOld + 1;
      } else if key in dirtyNew {
        was := Some(dirtyNew[key]);
        dirtyNew, deletionNew := dirtyNew - {key}, deletionNew + 1;
      }
    }

    /** What is left of the old generation joins the new one, which becomes the old one. */
    method RetireOld()
      requires Valid()
      modifies this
      ensures Valid() && Contents() == old(Contents()) && dirtyNew == map[]
      ensures deletionOld == old(deletionNew) && deletionNew == 0
    {
      var both := Fold(dirtyOld, dirtyNew);
      SumCommutes(dirtyOld, dirtyNew);
      dirtyOld, dirtyNew := both, map[];
      deletionOld, deletionNew := deletionNew, 0;
      assert both + map[] == both;
    }

    method RetireNew()
      requires Valid()
      modifies this
      ensures Valid() && Contents() == old(Contents()) && dirtyNew == map[]
      ensures deletionOld == old(deletionOld) && deletionNew == 0
    {
      var both := Fold(dirtyNew, dirtyOld);
      dirtyOld, dirtyNew, deletionNew := both, map[], 0;
      assert both + map[] == both;
    }

    method Get(key: K) returns (v: Option<V>)
      requires Valid()
      ensures v == if key in Contents() then Some(Contents()[key]) else None
    {
      if key in dirtyOld {
        return Some(dirtyOld[key]);
      }
      return if key in dirtyNew then Some(dirtyNew[key]) else None;
    }

    method Set(key: K, value: V)
      requires Valid()
      modifies this
      ensures Valid() && Contents() == old(Contents())[key := value]
      ensures key in (if old(deletionOld) <= 10000 then dirtyOld else dirtyNew)
    {
      if deletionOld <= MAX_DELETION {
        if key in dirtyNew {
          dirtyNew := dirtyNew - {key};
          deletionNew := deletionNew + 1;
        }
        dirtyOld := dirtyOld[key := value];
      } else {
        if key in dirtyOld {
          dirtyOld := dirtyOld - {key};
          deletionOld := deletionOld + 1;
        }
        dirtyNew := dirtyNew[key := value];
      }
      assert Contents() == old(Contents())[key := value];
    }

    method GetOrSet(key: K, value: V) returns (v: V, found: bool)
      requires Valid()
      modifies this
      ensures Valid() && found == (key in old(Contents()))
      ensures v == if found then old(Contents())[key] else value
      ensures Contents() == if found then old(Contents()) else old(Contents())[key := value]
    {
      var seen := Get(key);
      if seen.Some? {
        return seen.value, true;
      }
      Set(key, value);
      return value, false;
    }

    method Size() returns (n: nat)
      requires Valid()
      ensures n == |Contents()|
    {
      SumSize(dirtyOld, dirtyNew);
      return |dirtyOld| + |dirtyNew|;
    }

    /** Visits the entries in any order until `stop` objects: no key twice, and all of them
        if it never does. */
    method Range(stop: (K, V) -> bool) returns (seen: seq<(K, V)>, stopped: bool)
      requires Valid()
      ensures Visits(Contents(), seen, stopped, stop)
      ensures !stopped ==> forall k :: k in Contents() ==> (k, Contents()[k]) in seen
    {
      seen, stopped := RangeOver(dirtyOld, stop);
      if stopped {
        return;
      }
      var more;
      more, stopped := RangeOver(dirtyNew, stop);
      JoinVisits(dirtyOld, dirtyNew, seen, more, stopped, stop);
      seen := seen + more;
    }

    static method RangeOver(m: map<K, V>, stop: (K, V) -> bool) returns (seen: seq<(K, V)>, stopped: bool)
      ensures Visits(m, seen, stopped, stop)
      ensures !stopped ==> forall k :: k in m ==> (k, m[k]) in seen
    {
      seen := [];
      var todo := m.Keys;
      while todo != {}
        invariant todo <= m.Keys
        invariant Visits(m, seen, false, stop)
        invariant forall k :: k in m ==> (k in todo <==> (k, m[k]) !in seen)
      {
        var k :| k in todo;
        todo := todo - {k};
        seen := seen + [(k, m[k])];
        if stop(k, m[k]) {
          return seen, true;
        }
      }
      return seen, false;
    }
  }

  /** Entries of the map, no key twice, the visitor objecting at the last one if at any. */
  ghost predicate Visits<K, V>(m: map<K, V>, seen: seq<(K, V)>, stopped: bool, stop: (K, V) -> bool) {
    && (forall i :: 0 <= i < |seen| ==> seen[i].0 in m && m[seen[i].0] == seen[i].1)
    && (forall i, j :: 0 <= i < j < |seen| ==> seen[i].0 != seen[j].0)
    && (stopped ==> |seen| > 0)
    && (forall i :: 0 <= i < |seen| ==> (stop(seen[i].0, seen[i].1) <==> stopped && i == |seen| - 1))
  }

  lemma JoinVisits<K, V>(a: map<K, V>, b: map<K, V>, s: seq<(K, V)>, t: seq<(K, V)>, stopped: bool, stop: (K, V) -> bool)
    requires a.Keys !! b.Keys && Visits(a, s, false, stop) && Visits(b, t, stopped, stop)
    ensures Visits(a + b, s + t, stopped, stop)
  {
  }

  lemma FoldStep<K, V>(from: map<K, V>, into: map<K, V>, todo: set<K>, k: K)
    requires k in todo && k in from && todo <= from.Keys
    ensures (into + (from - todo))[k := from[k]] == into + (from - (todo - {k}))
  {
  }

  lemma RemoveFromSum<K, V>(a: map<K, V>, b: map<K, V>, k: K)
    requires a.Keys !! b.Keys
    ensures (a + b) - {k} == if k in a then (a - {k}) + b else if k in b then a + (b - {k}) else a + b
  {
  }

  lemma SumCommutes<K, V>(a: map<K, V>, b: map<K, V>)
    requires a.Keys !! b.Keys
    ensures a + b == b + a
  {
  }

  lemma SumSize<K, V>(a: map<K, V>, b: map<K, V>)
    requires a.Keys !! b.Keys
    ensures |a + b| == |a| + |b|
  {
  }

  // ----- whole runs -----

  /** One plain map under the same calls. */
  datatype Call<K, V> = CallDel(key: K) | CallSet(skey: K, value: V) | CallGetOrSet(gkey: K, default: V)

  function Plain<K, V>(m: map<K, V>, c: Call<K, V>): map<K, V> {
    match c
    case CallDel(k) => m - {k}
    case CallSet(k, v) => m[k := v]
    case CallGetOrSet(k, v) => if k in m then m else m[k := v]
  }

  function PlainRun<K, V>(cs: seq<Call<K, V>>): map<K, V> {
    if cs == [] then map[] else Plain(PlainRun(cs[..|cs| - 1]), cs[|cs| - 1])
  }

  /** Any sequence of calls leaves the two generations standing for what one plain map would hold. */
  method RunCalls<K(==), V(==)>(cs: seq<Call<K, V>>) returns (m: SafeMap<K, V>)
    ensures fresh(m) && m.Valid() && m.Contents() == PlainRun(cs)
  {
    m := new SafeMap();
    for i := 0 to |cs|
      invariant fresh(m) && m.Valid() && m.Contents() == PlainRun(cs[..i])
    {
      assert cs[..i + 1][..i] == cs[..i];
      match cs[i]
      case CallDel(k) => var _ := m.Del(k);
      case CallSet(k, v) => m.Set(k, v);
      case CallGetOrSet(k, v) => var _, _ := m.GetOrSet(k, v);
    }
    assert cs[..|cs|] == cs;
  }
}
