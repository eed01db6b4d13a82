/** Cutting topics into levels, and the matching relation of section 4.7 of
    MQTT Version 5.0 stated independently of the trie. */
module TopicLevels {
  import opened Common

  type Topic = seq<byte>
  type Level = seq<byte>

  const SEP: byte := 47   // '/'
  const HASH: byte := 35  // '#'
  const CROSS: byte := 43 // '+'
  const SYS: byte := 36   // '$'

  const MWC: Level := [HASH]
  const SWC: Level := [CROSS]

  datatype TopicError = BadTopic

  // ----- one level -----

  /** The position of the first separator, or the length if there is none. */
  function FirstSep(t: Topic): (n: nat)
    ensures n <= |t| && SEP !in t[..n] && (n < |t| ==> t[n] == SEP)
  {
    if t == [] || t[0] == SEP then 0
    else
      var n := 1 + FirstSep(t[1..]);
      assert t[..n] == [t[0]] + t[1..][..n - 1];
      n
  }

  /** What the scanner tolerates as one level. A wildcard must open the level and,
      unless a '$' follows it, be all of it; '#' must be the last level. */
  predicate LevelOk(l: Level, last: bool) {
    l == [] ||
    (&& l[0] != SYS
     && HASH !in l[1..] && CROSS !in l[1..]
     && (l[0] in {HASH, CROSS} && |l| > 1 ==> l[1] == SYS)
     && (l == MWC ==> last))
  }

  /** The next level and what is left; None is Go's nil remainder, Some([]) the
      empty slice after a trailing separator. */
  function Next(t: Topic): Result<(Level, Option<Topic>), TopicError> {
    var n := FirstSep(t);
    if !LevelOk(t[..n], n == |t|) then Err(BadTopic)
    else if n == |t| then Ok((t, None))
    else Ok((if n == 0 then SWC else t[..n], Some(t[n + 1..])))
  }

  datatype ScanState = CHR | ONEWC | MULTIWC | SYSTEM

  method NextTopicLevel(topic: Topic) returns (r: Result<(Level, Option<Topic>), TopicError>)
    ensures r == Next(topic)
  {
    var s := CHR;
    ghost var n := FirstSep(topic);
    for i := 0 to |topic|
      invariant i <= n
      invariant i >= 1 ==> topic[0] != SYS
      invariant forall j :: 1 <= j < i ==> topic[j] != HASH && topic[j] != CROSS
      invariant s == MULTIWC <==> i == 1 && topic[0] == HASH
      invariant s == ONEWC <==> i == 1 && topic[0] == CROSS
      invariant i >= 2 && topic[0] in {HASH, CROSS} ==> topic[1] == SYS
    {
      var c := topic[i];
      if i < n { assert topic[i] in topic[..n] && topic[i] != SEP; }
      if c == SEP {
        assert i == n;
        if s == MULTIWC {
          assert topic[..n] == MWC;
          return Err(BadTopic);
        }
        if i == 0 {
          return Ok((SWC, Some(topic[i + 1..])));
        }
        assert topic[..i][0] == topic[0];
        return Ok((topic[..i], Some(topic[i + 1..])));
      }
      assert i < n && topic[..n][i] == c;
      if c == HASH {
        if i != 0 {
          assert topic[..n][1..][i - 1] == HASH;
          return Err(BadTopic);
        }
        s := MULTIWC;
      } else if c == CROSS {
        if i != 0 {
          assert topic[..n][1..][i - 1] == CROSS;
          return Err(BadTopic);
        }
        s := ONEWC;
      } else if c == SYS {
        if i == 0 {
          return Err(BadTopic);
        }
        s := SYSTEM;
      } else {
        if s == MULTIWC || s == ONEWC {
          assert topic[..n][1] == c && topic[..n][0] == topic[0];
          return Err(BadTopic);
        }
        s := CHR;
      }
    }
    assert topic[..n] == topic;
    return Ok((topic, None));
  }

  // ----- all levels -----

  /** The levels met before the topic ends or turns out malformed. `slash` tells that it
      ended right after a separator (or was empty), which the match treats specially. */
  datatype Parsed = Parsed(levels: seq<Level>, bad: bool, slash: bool)

  function Parse(t: Topic): Parsed
    decreases |t|
  {
    if t == [] then Parsed([], false, true)
    else match Next(t)
      case Err(_) => Parsed([], true, false)
      case Ok((l, None)) => Parsed([l], false, false)
      case Ok((l, Some(rem))) =>
        var p := Parse(rem);
        p.(levels := [l] + p.levels)
  }

  /** What Go passes on for a remainder: nil and empty slices both have length 0. */
  function Rest(rem: Option<Topic>): Topic {
    match rem case None => [] case Some(t) => t
  }

  lemma ParseEmpty()
    ensures Parse([]) == Parsed([], false, true)
  {
  }

  /** Parse, one scanned level at a time. */
  lemma ParseStep(t: Topic)
    requires t != []
    ensures match Next(t)
      case Err(_) => Parse(t) == Parsed([], true, false)
      case Ok((l, rem)) =>
        var p := Parse(Rest(rem));
        && |Rest(rem)| < |t|
        && Parse(t) == Parsed([l] + p.levels, p.bad, p.slash && rem.Some?)
        && Parse(t).levels[0] == l && Parse(t).levels[1..] == p.levels
  {
  }

  /** The plain split at separators, empty levels included. */
  function Split(t: Topic): (ls: seq<Level>)
    ensures ls != [] && forall l :: l in ls ==> SEP !in l
    decreases |t|
  {
    var n := FirstSep(t);
    if n == |t| then [t] else [t[..n]] + Split(t[n + 1..])
  }

  function Join(ls: seq<Level>): Topic
    requires ls != []
  {
    if |ls| == 1 then ls[0] else ls[0] + [SEP] + Join(ls[1..])
  }

  /** How the trie stores a split topic: an empty level becomes "+", an empty last one vanishes. */
  function Norm(ls: seq<Level>): seq<Level>
    requires ls != []
  {
    if |ls| == 1 then (if ls[0] == [] then [] else ls)
    else [if ls[0] == [] then SWC else ls[0]] + Norm(ls[1..])
  }

  predicate Legal(ls: seq<Level>) {
    forall i :: 0 <= i < |ls| ==> LevelOk(ls[i], i == |ls| - 1)
  }

  predicate EndsEmpty(ls: seq<Level>)
    requires ls != []
  {
    ls[|ls| - 1] == []
  }

  lemma LegalCons(l: Level, rest: seq<Level>)
    requires rest != []
    ensures Legal([l] + rest) <==> LevelOk(l, false) && Legal(rest)
    ensures Norm([l] + rest) == [if l == [] then SWC else l] + Norm(rest) && (EndsEmpty([l] + rest) <==> EndsEmpty(rest))
  {
    hide LevelOk;
    var ls := [l] + rest;
    assert ls[1..] == rest;
    if Legal(ls) {
      assert LevelOk(ls[0], false);
      forall i | 0 <= i < |rest| ensures LevelOk(rest[i], i == |rest| - 1) {
        assert LevelOk(ls[i + 1], i + 1 == |rest|);
      }
    }
    if LevelOk(l, false) && Legal(rest) {
      forall i | 0 <= i < |ls| ensures LevelOk(ls[i], i == |ls| - 1) {
        if i > 0 { assert ls[i] == rest[i - 1]; }
      }
    }
  }

  lemma LegalOne(l: Level)
    ensures Legal([l]) <==> LevelOk(l, true)
  {
    hide LevelOk;
    assert Legal([l]) ==> LevelOk([l][0], true);
  }

  /** Split and parse, by the first separator. */
  lemma SplitFirst(t: Topic)
    ensures var n := FirstSep(t);
      Split(t) == if n == |t| then [t] else [t[..n]] + Split(t[n + 1..])
  {
    hide FirstSep;
  }

  lemma ParseFirst(t: Topic)
    ensures var n := FirstSep(t);
      if t == [] then Parse(t) == Parsed([], false, true)
      else if !LevelOk(t[..n], n == |t|) then Parse(t) == Parsed([], true, false)
      else if n == |t| then Parse(t) == Parsed([t], false, false)
      else
        var p := Parse(t[n + 1..]);
        Parse(t) == Parsed([if n == 0 then SWC else t[..n]] + p.levels, p.bad, p.slash)
  {
    hide LevelOk, FirstSep;
  }

  lemma EmptyOk()
    ensures LevelOk([], true)
  {
  }

  /** The scanner accepts a topic exactly when each level of its split is tolerable, and
      then walks the normalised split. */
  lemma {:induction false} ParseIsNormalisedSplit(t: Topic)
    ensures !Parse(t).bad <==> Legal(Split(t))
    ensures !Parse(t).bad ==> Parse(t).levels == Norm(Split(t)) && (Parse(t).slash <==> EndsEmpty(Split(t)))
    decreases |t|
  {
    hide Parse, Split, Legal, LevelOk, FirstSep;
    var n := FirstSep(t);
    ParseFirst(t);
    SplitFirst(t);
    if n < |t| {
      ParseIsNormalisedSplit(t[n + 1..]);
      LegalCons(t[..n], Split(t[n + 1..]));
    } else {
      assert t[..|t|] == t;
      EmptyOk();
      LegalOne(t);
    }
  }

  lemma {:induction false} SplitJoin(ls: seq<Level>)
    requires ls != [] && forall l :: l in ls ==> SEP !in l
    ensures Split(Join(ls)) == ls
  {
    hide Split, FirstSep;
    var t := Join(ls);
    if |ls| == 1 {
      assert ls[0] in ls && t[..|t|] == ls[0];
      FirstSepAt(t, |t|);
      SplitFirst(t);
      assert ls == [t];
    } else {
      assert ls[0] in ls;
      var n := |ls[0]|;
      assert t[..n] == ls[0] && t[n + 1..] == Join(ls[1..]);
      FirstSepAt(t, n);
      SplitFirst(t);
      SplitJoin(ls[1..]);
      assert ls == [ls[0]] + ls[1..];
    }
  }

  lemma FirstSepAt(t: Topic, n: nat)
    requires n <= |t| && SEP !in t[..n] && (n < |t| ==> t[n] == SEP)
    ensures FirstSep(t) == n
  {
  }

  // ----- matching -----

  /** What the trie computes: does a stored path receive a publish walked as `levels`? */
  predicate Covers(path: seq<Level>, levels: seq<Level>, slash: bool) {
    if path == [] then levels == []
    else if path[0] == MWC then |path| == 1
    else if levels == [] then slash && path == [SWC]
    else (path[0] == SWC || path[0] == levels[0]) && Covers(path[1..], levels[1..], slash)
  }

  /** Section 4.7.1: "#" (35) stands for its parent and any number of levels below it, "+" (43) for
      exactly one level. */
  predicate Matches(filter: seq<Level>, name: seq<Level>)
    requires filter != []
  {
    var k := |filter| - 1;
    if filter[k] == [35] then
      |name| >= k && forall i :: 0 <= i < k ==> filter[i] == [43] || filter[i] == name[i]
    else
      |name| == |filter| && forall i :: 0 <= i < |filter| ==> filter[i] == [43] || filter[i] == name[i]
  }

  predicate PlainLevel(l: Level) {
    HASH !in l && CROSS !in l
  }

  predicate NoSys(ls: seq<Level>) {
    forall l :: l in ls ==> l == [] || l[0] != SYS
  }

  /** A topic name of section 4.7 whose levels do not start with '$'. */
  predicate IsName(ls: seq<Level>) {
    ls != [] && NoSys(ls) && forall l :: l in ls ==> PlainLevel(l) && SEP !in l
  }

  /** A topic filter of section 4.7 whose levels do not start with '$'. */
  predicate IsFilter(ls: seq<Level>) {
    && ls != [] && NoSys(ls)
    && forall i :: 0 <= i < |ls| ==>
         SEP !in ls[i] && (PlainLevel(ls[i]) || ls[i] == SWC || (ls[i] == MWC && i == |ls| - 1))
  }

  /** A level that section 4.7 allows in a filter. */
  predicate FilterLevel(l: Level, last: bool) {
    PlainLevel(l) || l == SWC || (l == MWC && last)
  }

  /** A wildcard with '$' and more behind it: "+$x". */
  predicate MixedLevel(l: Level) {
    |l| >= 2 && l[0] in {HASH, CROSS} && l[1] == SYS && PlainLevel(l[1..])
  }

  /** What the scanner accepts, against what section 4.7 allows: it refuses every level that
      starts with '$', and takes a wildcard that is followed by '$' for an ordinary level. */
  lemma LegalExactly(ls: seq<Level>)
    ensures Legal(ls) <==> NoSys(ls) && forall i :: 0 <= i < |ls| ==> FilterLevel(ls[i], i == |ls| - 1) || MixedLevel(ls[i])
  {
    forall i | 0 <= i < |ls|
      ensures LevelOk(ls[i], i == |ls| - 1) <==>
        (ls[i] == [] || ls[i][0] != SYS) && (FilterLevel(ls[i], i == |ls| - 1) || MixedLevel(ls[i]))
    {
      LevelExactly(ls[i], i == |ls| - 1);
    }
    if NoSys(ls) {
      assert forall i :: 0 <= i < |ls| ==> ls[i] in ls;
    }
  }

  lemma LevelExactly(l: Level, last: bool)
    ensures LevelOk(l, last) <==> (l == [] || l[0] != SYS) && (FilterLevel(l, last) || MixedLevel(l))
  {
    if l != [] {
      assert l == [l[0]] + l[1..];
      assert PlainLevel(l) <==> l[0] !in {HASH, CROSS} && PlainLevel(l[1..]);
    }
  }

  predicate NoEmpty(ls: seq<Level>) {
    [] !in ls
  }

  /** The relation the broker's trie computes between a filter and a name. */
  predicate TrieMatches(filter: seq<Level>, name: seq<Level>)
    requires filter != [] && name != []
  {
    Covers(Norm(filter), Norm(name), EndsEmpty(name))
  }

  lemma FilterIsLegal(ls: seq<Level>)
    requires IsFilter(ls) || IsName(ls)
    ensures Legal(ls)
  {
  }

  lemma {:induction false} NormIsIdentity(ls: seq<Level>)
    requires ls != [] && NoEmpty(ls)
    ensures Norm(ls) == ls
  {
    assert ls[0] in ls;
    if |ls| > 1 {
      NormIsIdentity(ls[1..]);
      assert ls == [ls[0]] + ls[1..];
    }
  }

  /** On a filter without empty levels and a name not ending in a separator, the trie
      relation is the one of section 4.7. */
  lemma {:induction false} TrieMatchesStandard(filter: seq<Level>, name: seq<Level>)
    requires IsFilter(filter) && NoEmpty(filter) && IsName(name) && !EndsEmpty(name)
    ensures TrieMatches(filter, name) <==> Matches(filter, name)
  {
    NormIsIdentity(filter);
    CoversStandard(filter, name);
  }

  lemma {:induction false} CoversStandard(filter: seq<Level>, name: seq<Level>)
    requires IsFilter(filter) && NoEmpty(filter) && IsName(name) && !EndsEmpty(name)
    ensures Covers(filter, Norm(name), false) <==> Matches(filter, name)
  {
    var f, l := filter[0], name[0];
    assert f in filter && l in name;
    if f == MWC {
      assert |filter| == 1;
    } else {
      var fs, ls := filter[1..], name[1..];
      assert f == SWC || f == (if l == [] then SWC else l) <==> f == SWC || f == l;
      if fs == [] || ls == [] {
        MatchesEdge(filter, name);
        if ls != [] { NormNonEmpty(ls); }
        if fs != [] { assert fs[0] == filter[1]; }
      } else {
        TailFilter(filter);
        TailName(name);
        CoversStandard(fs, ls);
        MatchesStep(filter, name);
      }
    }
  }

  lemma NormNonEmpty(ls: seq<Level>)
    requires ls != [] && !EndsEmpty(ls)
    ensures Norm(ls) != []
  {
  }

  lemma MatchesEdge(filter: seq<Level>, name: seq<Level>)
    requires IsFilter(filter) && filter[0] != MWC && name != []
    requires |filter| == 1 || |name| == 1
    ensures Matches(filter, name) <==>
      (filter[0] == SWC || filter[0] == name[0]) &&
      (if |filter| == 1 then |name| == 1 else filter[1..] == [MWC])
  {
  }

  lemma MatchesStep(filter: seq<Level>, name: seq<Level>)
    requires |filter| > 1 && |name| > 1
    ensures Matches(filter, name) <==>
      (filter[0] == SWC || filter[0] == name[0]) && Matches(filter[1..], name[1..])
  {
  }

  lemma TailFilter(ls: seq<Level>)
    requires IsFilter(ls) && |ls| > 1
    ensures IsFilter(ls[1..]) && (NoEmpty(ls) ==> NoEmpty(ls[1..]))
  {
  }

  lemma TailName(ls: seq<Level>)
    requires IsName(ls) && |ls| > 1
    ensures IsName(ls[1..]) && EndsEmpty(ls) == EndsEmpty(ls[1..])
  {
  }

  /** The same on the bytes the broker receives. */
  lemma TopicsMatchedStandardly(filter: Topic, name: Topic)
    requires IsFilter(Split(filter)) && NoEmpty(Split(filter))
    requires IsName(Split(name)) && !EndsEmpty(Split(name))
    ensures var f, n := Parse(filter), Parse(name);
      !f.bad && !n.bad && (Covers(f.levels, n.levels, n.slash) <==> Matches(Split(filter), Split(name)))
  {
    FilterIsLegal(Split(filter));
    FilterIsLegal(Split(name));
    ParseIsNormalisedSplit(filter);
    ParseIsNormalisedSplit(name);
    TrieMatchesStandard(Split(filter), Split(name));
  }

  // ----- where the trie departs from section 4.7 -----

  /** A name is matched as section 4.7 asks by every well-behaved filter exactly when it
      does not end in a separator. */
  lemma NameMatchedStandardly(name: seq<Level>)
    requires IsName(name) && name != [[]]
    ensures (forall f | IsFilter(f) && NoEmpty(f) :: TrieMatches(f, name) <==> Matches(f, name))
            <==> !EndsEmpty(name)
  {
    if !EndsEmpty(name) {
      forall f | IsFilter(f) && NoEmpty(f) ensures TrieMatches(f, name) <==> Matches(f, name) {
        TrieMatchesStandard(f, name);
      }
    } else {
      // the name without its last separator, taken as a filter
      var f := Norm(name);
      NormFilter(name);
      NormIsIdentity(f);
      CoversItself(f, true);
      assert !Matches(f, name);
    }
  }

  lemma {:induction false} NormFilter(name: seq<Level>)
    requires IsName(name) && |name| > 1
    ensures IsFilter(Norm(name)) && NoEmpty(Norm(name)) && MWC !in Norm(name)
    ensures |Norm(name)| == if EndsEmpty(name) then |name| - 1 else |name|
  {
    var h := if name[0] == [] then SWC else name[0];
    assert name[0] in name;
    assert HASH in MWC;
    if |name| > 2 {
      TailName(name);
      NormFilter(name[1..]);
    } else {
      assert name[1] in name;
    }
    var n := Norm(name);
    assert n == [h] + Norm(name[1..]);
    assert SEP !in h && (PlainLevel(h) || h == SWC);
    forall i | 0 <= i < |n|
      ensures SEP !in n[i] && (PlainLevel(n[i]) || n[i] == SWC || (n[i] == MWC && i == |n| - 1))
    {
      if i > 0 { assert n[i] == Norm(name[1..])[i - 1]; }
    }
  }

  lemma {:induction false} CoversItself(ls: seq<Level>, slash: bool)
    requires MWC !in ls
    ensures Covers(ls, ls, slash)
  {
    if ls != [] { CoversItself(ls[1..], slash); }
  }

  /** A filter matches every ordinary name as section 4.7 asks exactly when it has no empty level. */
  lemma FilterMatchesStandardly(filter: seq<Level>)
    requires IsFilter(filter) && filter != [[]]
    ensures (forall n | IsName(n) && !EndsEmpty(n) :: TrieMatches(filter, n) <==> Matches(filter, n))
            <==> NoEmpty(filter)
  {
    if NoEmpty(filter) {
      forall n | IsName(n) && !EndsEmpty(n) ensures TrieMatches(filter, n) <==> Matches(filter, n) {
        TrieMatchesStandard(filter, n);
      }
    } else {
      var n := Witness(filter);
      WitnessCovered(filter);
      assert TrieMatches(filter, n) && !Matches(filter, n);
    }
  }

  /** What a name has where the filter has f. */
  function Stand(f: Level): Level {
    if f == [] || f == SWC then [120] else f
  }

  /** A name covered by the stored form of the filter: "x" for every level that is not plain. */
  function Witness(filter: seq<Level>): (n: seq<Level>)
    requires filter != []
    ensures n != []
  {
    var l := Stand(filter[0]);
    if filter[0] == MWC then [[120]]
    else if |filter| == 1 then [l]
    else if filter[1..] == [[]] then [l]
    else [l] + Witness(filter[1..])
  }

  lemma FirstOfFilter(filter: seq<Level>)
    requires IsFilter(filter) && |filter| > 1
    ensures var f, l := filter[0], Stand(filter[0]);
      && f != MWC && (f == [] || f == SWC || f == l)
      && PlainLevel(l) && SEP !in l && l != [] && l[0] != SYS
    ensures filter == [filter[0]] + filter[1..]
    ensures filter[1..] != [[]] ==> Witness(filter) == [Stand(filter[0])] + Witness(filter[1..])
  {
    assert filter[0] in filter;
  }

  lemma WitnessOfOne(f: Level)
    requires IsFilter([f]) && f != []
    ensures var m := Witness([f]); IsName(m) && NoEmpty(m) && Covers(Norm([f]), m, false)
  {
    assert [f][0] in [f];
  }

  /** "f/" is covered by its first level alone. */
  lemma WitnessOfSlash(f: Level)
    requires IsFilter([f, []])
    ensures var filter, n := [f, []], Witness([f, []]);
      IsName(n) && NoEmpty(n) && Covers(Norm(filter), n, false) && !Matches(filter, n)
  {
    var filter: seq<Level> := [f, []];
    assert filter[0] in filter && filter[1..] == [[]];
    assert Witness(filter) == [Stand(f)];
    assert Norm(filter) == [if f == [] then SWC else f] + Norm([[]]) == [if f == [] then SWC else f];
    assert filter[1] != MWC;
  }

  /** One more level in front. */
  lemma WitnessLonger(filter: seq<Level>)
    requires IsFilter(filter) && |filter| > 1 && filter[1..] != [[]]
    requires var m := Witness(filter[1..]); IsName(m) && NoEmpty(m) && Covers(Norm(filter[1..]), m, false)
    ensures var n := Witness(filter);
      IsName(n) && NoEmpty(n) && Covers(Norm(filter), n, false)
  {
    hide Matches, Covers, Norm, Witness, IsName, IsFilter, NoEmpty, Stand, PlainLevel;
    FirstOfFilter(filter);
    NameCons(Stand(filter[0]), Witness(filter[1..]));
    CoversCons(filter[0], filter[1..], Stand(filter[0]), Witness(filter[1..]));
  }

  lemma MismatchLonger(filter: seq<Level>)
    requires IsFilter(filter) && |filter| > 1 && filter[1..] != [[]] && !NoEmpty(filter)
    requires |filter| > 2 && !NoEmpty(filter[1..]) ==> !Matches(filter[1..], Witness(filter[1..]))
    ensures !Matches(filter, Witness(filter))
  {
    hide Witness, IsFilter, PlainLevel;
    FirstOfFilter(filter);
    var n := Witness(filter);
    assert n[0] == Stand(filter[0]) && n[1..] == Witness(filter[1..]);
    if filter[0] != [] {
      assert [] in filter[1..];
      assert |filter| > 2;
      MatchesStep(filter, n);
    }
  }

  lemma {:induction false} WitnessCovered(filter: seq<Level>)
    requires IsFilter(filter) && |filter| > 1
    ensures var n := Witness(filter);
      IsName(n) && NoEmpty(n) && Covers(Norm(filter), n, false) && Norm(n) == n && !EndsEmpty(n)
    ensures !NoEmpty(filter) ==> !Matches(filter, Witness(filter))
  {
    hide Witness, Matches, Covers;
    TailFilter(filter);
    if filter[1..] == [[]] {
      assert filter == [filter[0], []];
      WitnessOfSlash(filter[0]);
    } else {
      if |filter| > 2 {
        WitnessCovered(filter[1..]);
      } else {
        assert filter[1..] == [filter[1]];
        WitnessOfOne(filter[1]);
      }
      WitnessLonger(filter);
      if !NoEmpty(filter) { MismatchLonger(filter); }
    }
    var n := Witness(filter);
    NormIsIdentity(n);
    assert n[|n| - 1] in n;
  }

  lemma NameCons(l: Level, m: seq<Level>)
    requires IsName(m) && NoEmpty(m) && PlainLevel(l) && SEP !in l && l != [] && l[0] != SYS
    ensures IsName([l] + m) && NoEmpty([l] + m)
  {
    assert forall x :: x in [l] + m ==> x == l || x in m;
  }

  lemma CoversCons(f: Level, rest: seq<Level>, l: Level, m: seq<Level>)
    requires rest != [] && f != MWC && (f == [] || f == SWC || f == l)
    requires Covers(Norm(rest), m, false)
    ensures Covers(Norm([f] + rest), [l] + m, false)
  {
    hide Covers;
    var h := if f == [] then SWC else f;
    assert ([f] + rest)[1..] == rest;
    assert Norm([f] + rest) == [h] + Norm(rest);
    CoversFirst(h, Norm(rest), l, m);
  }

  lemma CoversFirst(h: Level, rest: seq<Level>, l: Level, m: seq<Level>)
    requires h != MWC && (h == SWC || h == l) && Covers(rest, m, false)
    ensures Covers([h] + rest, [l] + m, false)
  {
    assert ([h] + rest)[1..] == rest && ([l] + m)[1..] == m;
  }
}
