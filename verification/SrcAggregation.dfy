/** Replacing the sources of a destination by label combinations, with the flow ids that justify each. */
module SrcAggregation {
  import opened Paths
  import opened LabelText
  import opened Labels
  import opened LabelCounts

  datatype Src = Src(namespace: string, podName: string, matchLabels: string)

  /** A destination, one text for all its fields. */
  type Dst = string

  datatype FirstKey = FirstKey(src: Src, dst: Dst)
  datatype SecondKey = SecondKey(name: string, dst: Dst)

  type FirstMap = map<FirstKey, seq<int>>
  type SecondMap = map<SecondKey, seq<int>>

  ghost predicate FirstHas(m: FirstMap, src: Src, dst: Dst, id: int) {
    FirstKey(src, dst) in m && id in m[FirstKey(src, dst)]
  }

  ghost predicate SecondHas(m: SecondMap, name: string, dst: Dst, id: int) {
    SecondKey(name, dst) in m && id in m[SecondKey(name, dst)]
  }

  /** The ids by source and destination, and by output label and destination. */
  class FlowTracker {
    var first: FirstMap
    var second: SecondMap

    constructor ()
      ensures first == map[] && second == map[]
    {
      first, second := map[], map[];
    }

    method TrackFirst(src: Src, dst: Dst, flowID: int)
      modifies this`first
      ensures forall s, d, id :: FirstHas(first, s, d, id) <==>
        FirstHas(old(first), s, d, id) || (s == src && d == dst && id == flowID)
    {
      var key := FirstKey(src, dst);
      if key !in first {
        first := first[key := [flowID]];
      } else if flowID !in first[key] {
        first := first[key := first[key] + [flowID]];
      }
    }

    /** Adds the ids of the source to those of the label. */
    method TrackSecond(name: string, src: Src, dst: Dst)
      modifies this`second
      ensures forall n, d, id :: SecondHas(second, n, d, id) <==>
        SecondHas(old(second), n, d, id) || (n == name && d == dst && FirstHas(first, src, dst, id))
    {
      var ids := if FirstKey(src, dst) in first then first[FirstKey(src, dst)] else [];
      var key := SecondKey(name, dst);
      if key !in second {
        second := second[key := ids];
      } else {
        var flowIDs := second[key];
        for i := 0 to |ids|
          invariant key in second && second == old(second)[key := flowIDs]
          invariant forall id :: id in flowIDs <==> id in old(second)[key] || id in ids[..i]
        {
          assert ids[..i + 1] == ids[..i] + [ids[i]];
          if ids[i] !in flowIDs {
            flowIDs := flowIDs + [ids[i]];
            second := second[key := flowIDs];
          }
        }
        assert ids[..|ids|] == ids;
      }
    }
  }

  // ================================================================ removing a source

  ghost predicate AtMostOnce(srcs: seq<Src>, s: Src) {
    forall i, j :: 0 <= i < j < |srcs| ==> !(srcs[i] == s && srcs[j] == s)
  }

  /** The list without one occurrence of the element. */
  ghost predicate IsWithout(srcs: seq<Src>, remove: Src, cp: seq<Src>) {
    if remove !in srcs then cp == srcs
    else exists i :: 0 <= i < |srcs| && srcs[i] == remove && cp == srcs[..i] + srcs[i + 1..]
  }

  /** Removes an element that is not repeated. */
  method RemoveSrc(srcs: seq<Src>, remove: Src) returns (cp: seq<Src>)
    requires AtMostOnce(srcs, remove)
    ensures IsWithout(srcs, remove, cp)
  {
    hide *;
    cp := srcs;
    ghost var hit := -1;
    NoneRemoved(srcs, remove);
    for i := 0 to |srcs|
      invariant Removed(srcs, remove, i, hit, cp)
    {
      RemoveStep(srcs, remove, i, hit, cp);
      if srcs[i] == remove {
        if i == |srcs| - 1 {
          cp := cp[..|srcs| - 1];
        } else {
          cp := cp[..i] + cp[i + 1..];
        }
        hit := i;
      }
    }
    RemovedAt(srcs, remove, hit, cp);
  }

  /** The scan has dealt with the first i elements and removed the one at hit, if any. */
  ghost predicate Removed(srcs: seq<Src>, remove: Src, i: nat, hit: int, cp: seq<Src>) {
    && -1 <= hit < i <= |srcs|
    && (forall k :: 0 <= k < i && k != hit ==> srcs[k] != remove)
    && if hit == -1 then cp == srcs else srcs[hit] == remove && cp == srcs[..hit] + srcs[hit + 1..]
  }

  lemma NoneRemoved(srcs: seq<Src>, remove: Src)
    ensures Removed(srcs, remove, 0, -1, srcs)
  {
  }

  lemma RemoveStep(srcs: seq<Src>, remove: Src, i: nat, hit: int, cp: seq<Src>)
    requires Removed(srcs, remove, i, hit, cp) && i < |srcs| && AtMostOnce(srcs, remove)
    ensures srcs[i] != remove ==> Removed(srcs, remove, i + 1, hit, cp)
    ensures srcs[i] == remove ==>
      cp == srcs && Removed(srcs, remove, i + 1, i, if i == |srcs| - 1 then cp[..i] else cp[..i] + cp[i + 1..])
  {
    if srcs[i] == remove {
      assert hit == -1;
      if i == |srcs| - 1 { assert srcs[i + 1..] == [] && cp[..i] == srcs[..i] + srcs[i + 1..]; }
    }
  }

  lemma RemovedAt(srcs: seq<Src>, remove: Src, hit: int, cp: seq<Src>)
    requires Removed(srcs, remove, |srcs|, hit, cp)
    ensures IsWithout(srcs, remove, cp)
  {
    if remove in srcs {
      var k :| 0 <= k < |srcs| && srcs[k] == remove;
      assert k == hit;
    }
  }

  /** Of a list without repetitions exactly that element goes. */
  lemma RemovedExactly(srcs: seq<Src>, remove: Src, cp: seq<Src>)
    requires NoDuplicates(srcs) && IsWithout(srcs, remove, cp)
    ensures NoDuplicates(cp) && forall s :: s in cp <==> s in srcs && s != remove
  {
    if remove in srcs {
      var i :| 0 <= i < |srcs| && srcs[i] == remove && cp == srcs[..i] + srcs[i + 1..];
      RemovedOne(srcs, i);
    }
  }

  lemma RemovedOne(srcs: seq<Src>, i: nat)
    requires NoDuplicates(srcs) && i < |srcs|
    ensures NoDuplicates(srcs[..i] + srcs[i + 1..])
    ensures forall s :: s in srcs[..i] + srcs[i + 1..] <==> s in srcs && s != srcs[i]
  {
    var r := srcs[..i] + srcs[i + 1..];
    assert forall k :: 0 <= k < |r| ==> r[k] == srcs[if k < i then k else k + 1];
    forall s | s in srcs && s != srcs[i] ensures s in r {
      var k :| 0 <= k < |srcs| && srcs[k] == s;
      assert r[if k < i then k else k - 1] == s;
    }
  }

  // ================================================================ absorbing sources

  ghost predicate Contains(name: string, src: Src) {
    Subseq(Split(name), Split(src.matchLabels))
  }

  /** The sources of a destination are split between those given to an output label they contain
      and those that remain. */
  ghost predicate Splits(all: seq<Src>, remaining: seq<Src>, given: map<Src, string>) {
    && NoDuplicates(remaining)
    && (forall s :: s in all <==> s in remaining || s in given)
    && (forall s :: s in given ==> s !in remaining && Contains(given[s], s))
  }

  /** The output labels are those given. */
  ghost predicate OutputsAre(outs: seq<string>, given: map<Src, string>) {
    && (forall s :: s in given ==> given[s] in outs)
    && forall x :: x in outs ==> exists s :: s in given && given[s] == x
  }

  /** Each label's ids are those it had and the ids of the sources it absorbed. */
  ghost predicate Tracks(first: FirstMap, before: SecondMap, after: SecondMap, dst: Dst, given: map<Src, string>) {
    forall n, d, id :: SecondHas(after, n, d, id) <==>
      SecondHas(before, n, d, id) || (d == dst && Absorbs(first, dst, given, n, id))
  }

  ghost predicate Absorbs(first: FirstMap, dst: Dst, given: map<Src, string>, n: string, id: int) {
    exists s :: s in given && given[s] == n && FirstHas(first, s, dst, id)
  }

  lemma AbsorbStep(first: FirstMap, before: SecondMap, mid: SecondMap, after: SecondMap, dst: Dst,
                   given: map<Src, string>, src: Src, name: string)
    requires Tracks(first, before, mid, dst, given) && src !in given
    requires forall n, d, id :: SecondHas(after, n, d, id) <==>
      SecondHas(mid, n, d, id) || (n == name && d == dst && FirstHas(first, src, dst, id))
    ensures Tracks(first, before, after, dst, given[src := name])
  {
    var given' := given[src := name];
    hide FirstHas, SecondHas;
    forall n, id ensures Absorbs(first, dst, given', n, id) <==>
      Absorbs(first, dst, given, n, id) || (n == name && FirstHas(first, src, dst, id))
    {
      if Absorbs(first, dst, given, n, id) {
        var s :| s in given && given[s] == n && FirstHas(first, s, dst, id);
        assert s in given' && given'[s] == n;
      }
      if n == name && FirstHas(first, src, dst, id) { assert src in given' && given'[src] == n; }
    }
    hide Absorbs;
    forall n, d, id
      ensures SecondHas(after, n, d, id) <==>
        SecondHas(before, n, d, id) || (d == dst && Absorbs(first, dst, given', n, id))
    {
      assert SecondHas(mid, n, d, id) <==>
        SecondHas(before, n, d, id) || (d == dst && Absorbs(first, dst, given, n, id));
    }
  }

  lemma OutputStep(outs: seq<string>, given: map<Src, string>, src: Src, name: string, outs': seq<string>)
    requires OutputsAre(outs, given) && src !in given
    requires forall x :: x in outs' <==> x in outs || x == name
    ensures OutputsAre(outs', given[src := name])
  {
    var given' := given[src := name];
    forall x | x in outs' ensures exists s :: s in given' && given'[s] == x {
      if x == name {
        assert given'[src] == x;
      } else {
        var s :| s in given && given[s] == x;
        assert given'[s] == x;
      }
    }
  }

  /** Gives the sources that contain the combination to it. */
  method AbsorbInto(name: string, srcs0: seq<Src>, dst: Dst, tracker: FlowTracker, outs0: seq<string>,
                    ghost all: seq<Src>, ghost given0: map<Src, string>, ghost start: SecondMap)
      returns (srcs: seq<Src>, outs: seq<string>, ghost given: map<Src, string>)
    requires Splits(all, srcs0, given0) && OutputsAre(outs0, given0)
    requires Tracks(tracker.first, start, tracker.second, dst, given0)
    modifies tracker`second
    ensures Splits(all, srcs, given) && OutputsAre(outs, given)
    ensures Tracks(tracker.first, start, tracker.second, dst, given)
    ensures forall s :: s in given0 ==> s in given && given[s] == given0[s]
    ensures forall s :: s in srcs ==> s in srcs0 && !Contains(name, s)
    ensures forall s :: s in given && s !in given0 ==> given[s] == name && s in srcs0
  {
    hide Tracks, OutputsAre, SecondHas, FirstHas;
    srcs, outs, given := srcs0, outs0, given0;
    for i := 0 to |srcs0|
      invariant forall s :: s in given && s !in given0 ==> given[s] == name && s in srcs0
      invariant Splits(all, srcs, given) && OutputsAre(outs, given)
      invariant Tracks(tracker.first, start, tracker.second, dst, given)
      invariant forall s :: s in given0 ==> s in given && given[s] == given0[s]
      invariant forall k :: i <= k < |srcs0| ==> srcs0[k] in srcs
      invariant forall s :: s in srcs ==> s in srcs0
      invariant forall k :: 0 <= k < i ==> srcs0[k] in srcs ==> !Contains(name, srcs0[k])
    {
      var src := srcs0[i];
      var contained := ContainLabel(name, src.matchLabels);
      if contained {
        srcs, outs := AbsorbOne(name, src, srcs, dst, tracker, outs, all, given, start);
        given := given[src := name];
      }
    }
  }

  method AbsorbOne(name: string, src: Src, srcs0: seq<Src>, dst: Dst, tracker: FlowTracker, outs0: seq<string>,
                   ghost all: seq<Src>, ghost given: map<Src, string>, ghost start: SecondMap)
      returns (srcs: seq<Src>, outs: seq<string>)
    requires Splits(all, srcs0, given) && OutputsAre(outs0, given) && src in srcs0 && Contains(name, src)
    requires Tracks(tracker.first, start, tracker.second, dst, given)
    modifies tracker`second
    ensures Splits(all, srcs, given[src := name]) && OutputsAre(outs, given[src := name])
    ensures Tracks(tracker.first, start, tracker.second, dst, given[src := name])
    ensures forall s :: s in srcs <==> s in srcs0 && s != src
  {
    hide Tracks, OutputsAre, SecondHas, FirstHas, Contains;
    ghost var mid := tracker.second;
    tracker.TrackSecond(name, src, dst);
    AbsorbStep(tracker.first, start, mid, tracker.second, dst, given, src, name);
    srcs := RemoveSrc(srcs0, src);
    RemovedExactly(srcs0, src, srcs);
    outs := outs0;
    if name !in outs {
      outs := outs + [name];
    }
    OutputStep(outs0, given, src, name, outs);
  }

  /** Outputs the sources that no combination absorbed by their own labels. */
  method OutputRest(srcs: seq<Src>, dst: Dst, tracker: FlowTracker, outs0: seq<string>,
                    ghost all: seq<Src>, ghost given0: map<Src, string>, ghost start: SecondMap)
      returns (outs: seq<string>, ghost given: map<Src, string>)
    requires Splits(all, srcs, given0) && OutputsAre(outs0, given0)
    requires Tracks(tracker.first, start, tracker.second, dst, given0)
    modifies tracker`second
    ensures Splits(all, [], given) && OutputsAre(outs, given)
    ensures Tracks(tracker.first, start, tracker.second, dst, given)
    ensures forall s :: s in given0 ==> s in given && given[s] == given0[s]
    ensures forall s :: s in given && s !in given0 ==> given[s] == s.matchLabels && s in srcs
  {
    hide Tracks, OutputsAre, SecondHas, FirstHas, Contains;
    outs, given := outs0, given0;
    for i := 0 to |srcs|
      invariant forall s :: s in given0 ==> s in given && given[s] == given0[s]
      invariant forall s :: s in given && s !in given0 ==> given[s] == s.matchLabels && s in srcs
      invariant Splits(all, srcs[i..], given) && OutputsAre(outs, given)
      invariant Tracks(tracker.first, start, tracker.second, dst, given)
    {
      var src := srcs[i];
      ghost var mid := tracker.second;
      assert srcs[i..] == [src] + srcs[i + 1..];
      tracker.TrackSecond(src.matchLabels, src, dst);
      AbsorbStep(tracker.first, start, mid, tracker.second, dst, given, src, src.matchLabels);
      OutputStep(outs, given, src, src.matchLabels, outs + [src.matchLabels]);
      ContainsItself(src);
      outs, given := outs + [src.matchLabels], given[src := src.matchLabels];
    }
    assert srcs[|srcs|..] == [];
  }

  lemma ContainsItself(src: Src)
    ensures Contains(src.matchLabels, src)
  {
    AtAll(Split(src.matchLabels));
  }

  lemma {:induction false} AtAll(s: seq<string>)
    ensures At(s, Indices(|s|)) == s
  {
    if s != [] {
      var last := |s| - 1;
      AtAll(s[..last]);
      AtSame(s[..last], Indices(|s|), Indices(last));
    }
  }

  /** The first n combinations have had their turn: no remaining source contains one that is counted twice, and
      a given source is under the first such one that it contains. */
  ghost predicate Turns(counts: seq<LabelCount>, n: nat, remaining: seq<Src>, given: map<Src, string>) {
    && n <= |counts|
    && (forall s :: s in remaining ==> ContainsNone(counts, n, s))
    && forall s :: s in given ==> exists k :: 0 <= k < n && FirstFor(counts, k, s, given[s])
  }

  ghost predicate ContainsNone(counts: seq<LabelCount>, n: nat, s: Src) {
    forall k :: 0 <= k < n && k < |counts| && counts[k].count >= 2.0 ==> !Contains(counts[k].name, s)
  }

  ghost predicate FirstFor(counts: seq<LabelCount>, k: nat, s: Src, name: string) {
    k < |counts| && counts[k].name == name && counts[k].count >= 2.0 && Contains(name, s) && ContainsNone(counts, k, s)
  }

  /** Every source is under the first listed combination, counted at least twice, that it contains, or, if it
      contains none, under its own labels. */
  ghost predicate FirstFit(counts: seq<LabelCount>, given: map<Src, string>) {
    forall s :: s in given ==>
      || (exists k :: 0 <= k < |counts| && FirstFor(counts, k, s, given[s]))
      || (given[s] == s.matchLabels && ContainsNone(counts, |counts|, s))
  }

  /** The combinations of the sources by descending weight. */
  ghost predicate RankedOf(srcs: seq<Src>, counts: seq<LabelCount>) {
    (forall s :: s in srcs ==> SortedLabels(s.matchLabels)) ==>
      exists m, labels :: |labels| == |srcs| && (forall i :: 0 <= i < |srcs| ==> labels[i] == srcs[i].matchLabels)
                          && CountsSupport(m, labels) && Ranked(m, counts)
  }

  lemma TurnTaken(counts: seq<LabelCount>, n: nat, before: seq<Src>, after: seq<Src>,
                  given0: map<Src, string>, given: map<Src, string>)
    requires n < |counts| && Turns(counts, n, before, given0) && counts[n].count >= 2.0
    requires forall s :: s in given0 ==> s in given && given[s] == given0[s]
    requires forall s :: s in after ==> s in before && !Contains(counts[n].name, s)
    requires forall s :: s in given && s !in given0 ==>
      given[s] == counts[n].name && s in before && Contains(counts[n].name, s)
    ensures Turns(counts, n + 1, after, given)
  {
    hide Contains;
    forall s | s in given ensures exists k :: 0 <= k < n + 1 && FirstFor(counts, k, s, given[s]) {
      if s in given0 {
        var k :| 0 <= k < n && FirstFor(counts, k, s, given0[s]);
        assert FirstFor(counts, k, s, given[s]);
      } else {
        assert FirstFor(counts, n, s, given[s]);
      }
    }
  }

  lemma TurnSkipped(counts: seq<LabelCount>, n: nat, srcs: seq<Src>, given: map<Src, string>)
    requires n < |counts| && Turns(counts, n, srcs, given) && counts[n].count < 2.0
    ensures Turns(counts, n + 1, srcs, given)
  {
    hide FirstFor;
  }

  lemma AllTurnsTaken(counts: seq<LabelCount>, srcs: seq<Src>, given0: map<Src, string>, given: map<Src, string>)
    requires Turns(counts, |counts|, srcs, given0)
    requires forall s :: s in given0 ==> s in given && given[s] == given0[s]
    requires forall s :: s in given && s !in given0 ==> given[s] == s.matchLabels && s in srcs
    ensures FirstFit(counts, given)
  {
    hide FirstFor, ContainsNone;
    forall s | s in given && s in given0 ensures exists k :: 0 <= k < |counts| && FirstFor(counts, k, s, given[s]) {
      var k :| 0 <= k < |counts| && FirstFor(counts, k, s, given0[s]);
      assert FirstFor(counts, k, s, given[s]);
    }
  }

  lemma NoTurns(counts: seq<LabelCount>, srcs: seq<Src>)
    ensures Turns(counts, 0, srcs, map[])
  {
  }

  lemma GivenContains(all: seq<Src>, remaining: seq<Src>, given: map<Src, string>)
    requires Splits(all, remaining, given)
    ensures forall s :: s in given ==> Contains(given[s], s)
  {
  }

  /** Aggregates the sources of one destination. Every source ends up under exactly one output label,
      which it contains, and each label gets exactly the flow ids of its sources. At level 1 these are its own
      labels, at level 3 the first combination by weight. The second-level test is a parameter. */
  method AggregateSrcs(srcs0: seq<Src>, dst: Dst, level: int, passes: (string, seq<Src>) -> bool, tracker: FlowTracker)
      returns (outs: seq<string>, ghost given: map<Src, string>, ghost counts: seq<LabelCount>)
    requires NoDuplicates(srcs0)
    modifies tracker`second
    ensures Splits(srcs0, [], given) && OutputsAre(outs, given)
    ensures Tracks(tracker.first, old(tracker.second), tracker.second, dst, given)
    ensures level < 2 ==> forall s :: s in given ==> given[s] == s.matchLabels
    ensures level > 2 ==> FirstFit(counts, given) && RankedOf(srcs0, counts)
  {
    hide Tracks, OutputsAre, Splits, Turns, FirstFit, RankedOf, Contains;
    var srcs := srcs0;
    outs, given, counts := [], map[], [];
    NoneAbsorbed(srcs, tracker.first, tracker.second, dst);
    if level >= 2 {
      var countPerLabels := RankLabels(srcs);
      counts := countPerLabels;
      NoTurns(counts, srcs);
      for i := 0 to |countPerLabels|
        invariant Splits(srcs0, srcs, given) && OutputsAre(outs, given)
        invariant Tracks(tracker.first, old(tracker.second), tracker.second, dst, given)
        invariant level > 2 ==> Turns(counts, i, srcs, given)
      {
        if countPerLabels[i].count >= 2.0 {
          var aggregatedLabel := countPerLabels[i].name;
          if level == 2 && !passes(aggregatedLabel, srcs) {
            continue;
          }
          ghost var before, given0 := srcs, given;
          srcs, outs, given := AbsorbInto(aggregatedLabel, srcs, dst, tracker, outs, srcs0, given, old(tracker.second));
          GivenContains(srcs0, srcs, given);
          if level > 2 { TurnTaken(counts, i, before, srcs, given0, given); }
        } else if level > 2 {
          TurnSkipped(counts, i, srcs, given);
        }
      }
    }
    ghost var given0 := given;
    outs, given := OutputRest(srcs, dst, tracker, outs, srcs0, given, old(tracker.second));
    if level > 2 { AllTurnsTaken(counts, srcs, given0, given); }
  }

  /** Counts the combinations of the labels of all sources and lists them by descending weight. */
  method RankLabels(srcs: seq<Src>) returns (countPerLabels: seq<LabelCount>)
    ensures RankedOf(srcs, countPerLabels)
  {
    hide SortedLabels, CountsSupport, Ranked;
    var matchLabels := LabelsOf(srcs);
    var labelCountMap := CountSources(matchLabels);
    countPerLabels := DescendingLabelCountMap(labelCountMap);
    assert forall i :: 0 <= i < |srcs| ==> srcs[i] in srcs;
  }

  method LabelsOf(srcs: seq<Src>) returns (labels: seq<string>)
    ensures |labels| == |srcs| && forall i :: 0 <= i < |srcs| ==> labels[i] == srcs[i].matchLabels
  {
    labels := [];
    for i := 0 to |srcs|
      invariant |labels| == i && forall k :: 0 <= k < i ==> labels[k] == srcs[k].matchLabels
    {
      labels := labels + [srcs[i].matchLabels];
    }
  }

  lemma NoneAbsorbed(srcs: seq<Src>, first: FirstMap, second: SecondMap, dst: Dst)
    requires NoDuplicates(srcs)
    ensures Splits(srcs, srcs, map[]) && OutputsAre([], map[]) && Tracks(first, second, second, dst, map[])
  {
  }

  // ================================================================ all destinations

  /** What the aggregation gives for one destination. */
  ghost predicate Aggregated(srcs: seq<Src>, outs: seq<string>, given: map<Src, string>) {
    Splits(srcs, [], given) && OutputsAre(outs, given)
  }

  /** Each label's ids for a destination in the map are those it had and those of its sources there. */
  ghost predicate TracksAll(first: FirstMap, before: SecondMap, after: SecondMap, given: map<Dst, map<Src, string>>) {
    forall n, d, id :: SecondHas(after, n, d, id) <==>
      SecondHas(before, n, d, id) || (d in given && Absorbs(first, d, given[d], n, id))
  }

  lemma TracksOneMore(first: FirstMap, before: SecondMap, mid: SecondMap, after: SecondMap,
                      given: map<Dst, map<Src, string>>, dst: Dst, one: map<Src, string>)
    requires TracksAll(first, before, mid, given) && dst !in given && Tracks(first, mid, after, dst, one)
    ensures TracksAll(first, before, after, given[dst := one])
  {
    hide SecondHas, Absorbs;
    forall n, d, id
      ensures SecondHas(after, n, d, id) <==>
        SecondHas(before, n, d, id) || (d in given[dst := one] && Absorbs(first, d, given[dst := one][d], n, id))
    {
      assert SecondHas(mid, n, d, id) <==>
        SecondHas(before, n, d, id) || (d in given && Absorbs(first, d, given[d], n, id));
      assert SecondHas(after, n, d, id) <==> SecondHas(mid, n, d, id) || (d == dst && Absorbs(first, dst, one, n, id));
    }
  }

  /** Every source of a destination is under exactly one output label, and contains it; every output label
      has a source. */
  ghost predicate Partitioned(srcs: seq<Src>, outs: seq<string>, given: map<Src, string>) {
    && given.Keys == (set s | s in srcs)
    && (forall s :: s in srcs ==> given[s] in outs && Subseq(Split(given[s]), Split(s.matchLabels)))
    && forall x :: x in outs ==> exists s :: s in srcs && given[s] == x
  }

  /** Which label a source is under: at level 1 its own, at level 3 the first by weight that is counted at least
      twice and that it contains, if there is one. */
  ghost predicate ByLevel(level: int, srcs: seq<Src>, given: map<Src, string>) {
    && (level < 2 ==> forall s :: s in given ==> given[s] == s.matchLabels)
    && (level > 2 ==> exists counts :: FirstFit(counts, given) && RankedOf(srcs, counts))
  }

  lemma ChosenByLevel(level: int, srcs: seq<Src>, given: map<Src, string>, counts: seq<LabelCount>)
    requires level < 2 ==> forall s :: s in given ==> given[s] == s.matchLabels
    requires level > 2 ==> FirstFit(counts, given) && RankedOf(srcs, counts)
    ensures ByLevel(level, srcs, given)
  {
    hide FirstFit, RankedOf;
  }

  /** A label's flow ids for a destination are exactly the ids of the sources it absorbed there. */
  ghost predicate IdsOfAbsorbed(first: FirstMap, after: SecondMap, given: map<Dst, map<Src, string>>) {
    forall n, d, id :: SecondHas(after, n, d, id) <==>
      d in given && exists s :: s in given[d] && given[d][s] == n && FirstHas(first, s, d, id)
  }

  /** What the aggregation promises for one destination. */
  ghost predicate Done(level: int, srcs: seq<Src>, outs: seq<string>, given: map<Src, string>) {
    Partitioned(srcs, outs, given) && ByLevel(level, srcs, given)
  }

  method AggregateOne(srcs: seq<Src>, dst: Dst, level: int, passes: (string, seq<Src>) -> bool, tracker: FlowTracker)
      returns (outs: seq<string>, ghost given: map<Src, string>)
    requires NoDuplicates(srcs)
    modifies tracker`second
    ensures Done(level, srcs, outs, given)
    ensures Tracks(tracker.first, old(tracker.second), tracker.second, dst, given)
  {
    hide Tracks, Aggregated, Partitioned, ByLevel, FirstFit, RankedOf;
    ghost var counts;
    outs, given, counts := AggregateSrcs(srcs, dst, level, passes, tracker);
    ChosenByLevel(level, srcs, given, counts);
    BothParts(srcs, outs, given);
    SourcesArePartitioned(srcs, outs, given);
  }

  /** Aggregates the sources of every destination, in the order of the hash map: they are partitioned by
      output labels, and starting from an empty second tracker the flow ids of every label are exact. */
  method AggregateSrcByLabel(labeledSrcsPerDst: map<Dst, seq<Src>>, level: int, passes: (string, seq<Src>) -> bool,
                             tracker: FlowTracker)
      returns (aggregatedSrcsPerDst: map<Dst, seq<string>>, ghost given: map<Dst, map<Src, string>>)
    requires forall d :: d in labeledSrcsPerDst ==> NoDuplicates(labeledSrcsPerDst[d])
    modifies tracker`second
    ensures aggregatedSrcsPerDst.Keys == given.Keys == labeledSrcsPerDst.Keys
    ensures forall d :: d in labeledSrcsPerDst ==> Done(level, labeledSrcsPerDst[d], aggregatedSrcsPerDst[d], given[d])
    ensures TracksAll(tracker.first, old(tracker.second), tracker.second, given)
    ensures old(tracker.second) == map[] ==> IdsOfAbsorbed(tracker.first, tracker.second, given)
  {
    hide Tracks, Done, NoDuplicates, IdsOfAbsorbed;
    aggregatedSrcsPerDst, given := map[], map[];
    assert TracksAll(tracker.first, tracker.second, tracker.second, map[]);
    hide TracksAll;
    var todo := labeledSrcsPerDst.Keys;
    while todo != {}
      invariant todo <= labeledSrcsPerDst.Keys
      invariant aggregatedSrcsPerDst.Keys == given.Keys == labeledSrcsPerDst.Keys - todo
      invariant forall d :: d in given ==> Done(level, labeledSrcsPerDst[d], aggregatedSrcsPerDst[d], given[d])
      invariant TracksAll(tracker.first, old(tracker.second), tracker.second, given)
      decreases |todo|
    {
      var dst :| dst in todo;
      ghost var mid := tracker.second;
      var outs;
      ghost var one;
      outs, one := AggregateOne(labeledSrcsPerDst[dst], dst, level, passes, tracker);
      TracksOneMore(tracker.first, old(tracker.second), mid, tracker.second, given, dst, one);
      aggregatedSrcsPerDst, given := aggregatedSrcsPerDst[dst := outs], given[dst := one];
      todo := todo - {dst};
    }
    if old(tracker.second) == map[] { IdsAreExact(tracker.first, tracker.second, given); }
  }

  lemma BothParts(srcs: seq<Src>, outs: seq<string>, given: map<Src, string>)
    requires Splits(srcs, [], given) && OutputsAre(outs, given)
    ensures Aggregated(srcs, outs, given)
  {
  }

  lemma IdsAreExact(first: FirstMap, after: SecondMap, given: map<Dst, map<Src, string>>)
    requires TracksAll(first, map[], after, given)
    ensures IdsOfAbsorbed(first, after, given)
  {
    assert forall n, d, id :: !SecondHas(map[], n, d, id);
  }

  lemma SourcesArePartitioned(srcs: seq<Src>, outs: seq<string>, given: map<Src, string>)
    requires Aggregated(srcs, outs, given)
    ensures Partitioned(srcs, outs, given)
  {
    forall s | s in given ensures Contains(given[s], s) {}
    forall x | x in outs ensures exists s :: s in srcs && given[s] == x {
      var s :| s in given && given[s] == x;
      assert s in srcs;
    }
  }
}
