/** Counting label combinations over sources, and ranking the counts. */
module LabelCounts {
  import opened Paths
  import opened LabelText
  import opened Labels

  type Counts = map<string, int>

  function CountOf(m: Counts, c: string): int {
    if c in m then m[c] else 0
  }

  /** The counts after one more of each of the keys. */
  ghost function Bumped(m: Counts, hits: seq<string>): Counts {
    if hits == [] then m
    else
      var before, c := Bumped(m, hits[..|hits| - 1]), hits[|hits| - 1];
      before[c := CountOf(before, c) + 1]
  }

  lemma {:induction false} BumpedCounts(m: Counts, hits: seq<string>, c: string)
    ensures CountOf(Bumped(m, hits), c) == CountOf(m, c) + multiset(hits)[c]
    ensures c in Bumped(m, hits) <==> c in m || c in hits
  {
    if hits != [] {
      var init := hits[..|hits| - 1];
      BumpedCounts(m, init, c);
      assert hits == init + [hits[|hits| - 1]];
    }
  }

  lemma BumpedLast(m: Counts, hits: seq<string>, c: string)
    ensures Bumped(m, hits + [c]) == Bumped(m, hits)[c := CountOf(Bumped(m, hits), c) + 1]
  {
    assert (hits + [c])[..|hits|] == hits;
  }

  // ================================================================ sorting labels

  ghost predicate Descending(s: seq<string>) {
    forall i, j :: 0 <= i < j < |s| ==> !LexLess(s[i], s[j])
  }

  method SortDescending(s: seq<string>) returns (r: seq<string>)
    ensures multiset(r) == multiset(s) && Descending(r)
  {
    var up := LexSort(s);
    LexSortSorts(s);
    hide LexSort, LexLess;
    r := [];
    for i := 0 to |up|
      invariant |r| == i && (forall k :: 0 <= k < i ==> r[k] == up[i - 1 - k])
      invariant multiset(r) == multiset(up[..i])
    {
      OneMore(up, i, r);
      r := [up[i]] + r;
    }
    assert up[..|up|] == up;
  }

  lemma OneMore(up: seq<string>, i: nat, r: seq<string>)
    requires i < |up| && multiset(r) == multiset(up[..i])
    ensures multiset([up[i]] + r) == multiset(up[..i + 1])
  {
    assert up[..i + 1] == up[..i] + [up[i]];
  }

  function Backwards(s: seq<string>): seq<string> {
    if s == [] then [] else Backwards(s[1..]) + [s[0]]
  }

  lemma {:induction false} BackwardsAt(s: seq<string>)
    ensures |Backwards(s)| == |s| && multiset(Backwards(s)) == multiset(s)
    ensures forall i :: 0 <= i < |s| ==> Backwards(s)[i] == s[|s| - 1 - i]
  {
    if s != [] {
      BackwardsAt(s[1..]);
      assert s == [s[0]] + s[1..];
    }
  }

  /** A descending list is determined by its elements. */
  lemma DescendingAgree(a: seq<string>, b: seq<string>)
    requires Descending(a) && Descending(b) && multiset(a) == multiset(b)
    ensures a == b
  {
    BackwardsAt(a);
    BackwardsAt(b);
    var key := (x: string) => x;
    OrderedListsAgree(Backwards(a), Backwards(b), key);
    forall i | 0 <= i < |a| ensures a[i] == b[i] {
      assert a[i] == Backwards(a)[|a| - 1 - i];
      assert b[i] == Backwards(b)[|b| - 1 - i];
    }
  }

  // ================================================================ counting one source

  /** The hits are the texts of all non-empty combinations, one for each index set. */
  ghost predicate CountsAll(labels: seq<string>, hits: seq<string>, picks: seq<set<nat>>) {
    && |hits| == |picks| && NoDuplicates(picks)
    && (forall p :: p in picks <==> p != {} && p <= Indices(|labels|))
    && forall i :: 0 <= i < |hits| ==> hits[i] == Join(At(labels, picks[i]))
  }

  /** The same for the combinations of fewer than n labels. */
  ghost predicate CountsUpTo(labels: seq<string>, hits: seq<string>, picks: seq<set<nat>>, n: nat) {
    && |hits| == |picks| && NoDuplicates(picks)
    && (forall p :: p in picks <==> p != {} && p <= Indices(|labels|) && |p| < n)
    && forall i :: 0 <= i < |hits| ==> hits[i] == Join(At(labels, picks[i]))
  }

  class LabelCounter {
    var counts: Counts

    constructor ()
      ensures counts == map[]
    {
      counts := map[];
    }

    method Bump(key: string)
      modifies this
      ensures counts == old(counts)[key := CountOf(old(counts), key) + 1]
    {
      if key in counts {
        counts := counts[key := counts[key] + 1];
      } else {
        counts := counts[key := 1];
      }
    }

    /** Counts every single label and every combination of the labels. */
    method CountLabelByCombinations(mergedLabels: string)
        returns (ghost labels: seq<string>, ghost hits: seq<string>, ghost picks: seq<set<nat>>)
      modifies this
      ensures multiset(labels) == multiset(Split(mergedLabels)) && Descending(labels)
      ensures CountsAll(labels, hits, picks) && counts == Bumped(old(counts), hits)
    {
      hide Bumped, CountsUpTo, CountsAll, Descending;
      var sorted := SortDescending(Split(mergedLabels));
      labels := sorted;
      hits, picks := CountSingles(sorted);
      if |sorted| < 2 {
        AllCounted(labels, hits, picks, 2);
        return;
      }
      for i := 2 to |sorted| + 1
        invariant CountsUpTo(labels, hits, picks, i) && counts == Bumped(old(counts), hits)
      {
        hits, picks := CountCombinations(sorted, i, old(counts), hits, picks);
      }
      AllCounted(labels, hits, picks, |sorted| + 1);
    }

    method CountSingles(labels: seq<string>) returns (ghost hits: seq<string>, ghost picks: seq<set<nat>>)
      modifies this
      ensures CountsUpTo(labels, hits, picks, 2) && counts == Bumped(old(counts), hits)
    {
      hits, picks := [], [];
      for i := 0 to |labels|
        invariant hits == labels[..i] && |picks| == i && forall k: nat :: k < i ==> picks[k] == {k}
        invariant counts == Bumped(old(counts), hits)
      {
        BumpedLast(old(counts), hits, labels[i]);
        Bump(labels[i]);
        hits, picks := hits + [labels[i]], picks + [{i}];
      }
      SinglesCounted(labels, hits, picks);
    }

    /** Counts the combinations of i labels. */
    method CountCombinations(labels: seq<string>, i: nat, ghost start: Counts, ghost hits0: seq<string>,
                             ghost picks0: seq<set<nat>>)
        returns (ghost hits: seq<string>, ghost picks: seq<set<nat>>)
      requires 2 <= i <= |labels| && CountsUpTo(labels, hits0, picks0, i) && counts == Bumped(start, hits0)
      modifies this
      ensures CountsUpTo(labels, hits, picks, i + 1) && counts == Bumped(start, hits)
    {
      hide Bumped, CountsUpTo, Enumerates;
      var results;
      ghost var more;
      results, more := CombinationLabels(labels, i);
      hits := hits0;
      ghost var joined: seq<string> := [];
      for k := 0 to |results|
        invariant |joined| == k && forall l :: 0 <= l < k ==> joined[l] == Join(results[l])
        invariant hits == hits0 + joined && counts == Bumped(start, hits)
      {
        var combineLabel := Join(results[k]);
        BumpedLast(start, hits, combineLabel);
        Bump(combineLabel);
        assert hits + [combineLabel] == hits0 + (joined + [combineLabel]);
        hits, joined := hits + [combineLabel], joined + [combineLabel];
      }
      picks := picks0 + more;
      MoreCounted(labels, i, hits0, picks0, results, more, joined);
    }
  }

  lemma SinglesCounted(labels: seq<string>, hits: seq<string>, picks: seq<set<nat>>)
    requires hits == labels && |picks| == |labels| && forall k: nat :: k < |labels| ==> picks[k] == {k}
    ensures CountsUpTo(labels, hits, picks, 2)
  {
    forall i, j | 0 <= i < j < |picks| ensures picks[i] != picks[j] {
      assert i in picks[i] && i !in picks[j];
    }
    forall p ensures p in picks <==> p != {} && p <= Indices(|labels|) && |p| < 2 {
      if p in picks {
        var k: nat :| k < |picks| && picks[k] == p;
        assert k in Indices(|labels|);
      }
      if p != {} && p <= Indices(|labels|) && |p| < 2 {
        var k :| k in p;
        assert |p - {k}| == 0;
        assert p == {k} && picks[k] == p;
      }
    }
    forall i: nat | i < |hits| ensures hits[i] == Join(At(labels, picks[i])) {
      AtSingle(labels, i);
    }
  }

  lemma {:induction false} AtSingle(s: seq<string>, i: nat)
    requires i < |s|
    ensures At(s, {i}) == [s[i]]
  {
    var last := |s| - 1;
    if i < last {
      AtSingle(s[..last], i);
    } else {
      AtNone(s[..last], {i});
    }
  }

  lemma {:induction false} AtNone(s: seq<string>, p: set<nat>)
    requires forall i: nat :: i < |s| ==> i !in p
    ensures At(s, p) == []
  {
    if s != [] { AtNone(s[..|s| - 1], p); }
  }

  lemma MoreCounted(labels: seq<string>, n: nat, hits: seq<string>, picks: seq<set<nat>>,
                    results: seq<seq<string>>, more: seq<set<nat>>, joined: seq<string>)
    requires CountsUpTo(labels, hits, picks, n) && 2 <= n <= |labels| && Enumerates(labels, n, results, more)
    requires |joined| == |results| && forall l :: 0 <= l < |joined| ==> joined[l] == Join(results[l])
    ensures CountsUpTo(labels, hits + joined, picks + more, n + 1)
  {
    var all := picks + more;
    forall i, j | 0 <= i < j < |all| ensures all[i] != all[j] {
      if i < |picks| <= j { assert picks[i] in picks && more[j - |picks|] in more; }
    }
    forall p ensures p in all <==> p != {} && p <= Indices(|labels|) && |p| < n + 1 {
      assert p in all <==> p in picks || p in more;
      assert p in more <==> Wanted(labels, n, p);
    }
  }

  lemma AllCounted(labels: seq<string>, hits: seq<string>, picks: seq<set<nat>>, n: nat)
    requires CountsUpTo(labels, hits, picks, n) && |labels| < n
    ensures CountsAll(labels, hits, picks)
  {
    forall p | p <= Indices(|labels|) ensures |p| < n {
      AtSize(labels, p);
      AtWithin(labels, p);
    }
  }

  // ================================================================ support

  lemma PicksDiffer(labels: seq<string>, p: set<nat>, q: set<nat>)
    requires NoDuplicates(labels) && p <= Indices(|labels|) && q <= Indices(|labels|) && At(labels, p) == At(labels, q)
    ensures p == q
  {
    forall i: nat | i < |labels| ensures i in p <==> i in q {
      AtElements(labels, p, labels[i]);
      AtElements(labels, q, labels[i]);
    }
  }

  /** Of distinct labels, each combination is hit exactly once. */
  lemma EachOnce(labels: seq<string>, hits: seq<string>, picks: seq<set<nat>>, c: string)
    requires CountsAll(labels, hits, picks) && NoDuplicates(labels) && CommaFree(labels)
    ensures multiset(hits)[c] == if Subseq(Split(c), labels) then 1 else 0
  {
    hide At, Join, Split;
    forall i, j | 0 <= i < j < |hits| ensures hits[i] != hits[j] {
      assert picks[i] in picks && picks[j] in picks;
      if hits[i] == hits[j] { HitsDiffer(labels, picks[i], picks[j]); }
    }
    DistinctCounts(hits, c);
    assert c in hits <==> c in multiset(hits);
    JoinSplit(c);
    if c in hits {
      var i :| 0 <= i < |hits| && hits[i] == c;
      assert picks[i] in picks;
      HitIsText(labels, picks[i]);
    }
    if Subseq(Split(c), labels) {
      var p :| p <= Indices(|labels|) && At(labels, p) == Split(c);
      AtSize(labels, p);
      assert p in picks;
      var i :| 0 <= i < |picks| && picks[i] == p;
      assert hits[i] == c;
    }
  }

  lemma HitIsText(labels: seq<string>, p: set<nat>)
    requires CommaFree(labels) && p != {} && p <= Indices(|labels|)
    ensures Split(Join(At(labels, p))) == At(labels, p)
  {
    AtCommaFree(labels, p);
    AtSize(labels, p);
    SplitJoin(At(labels, p));
  }

  lemma HitsDiffer(labels: seq<string>, p: set<nat>, q: set<nat>)
    requires CommaFree(labels) && NoDuplicates(labels) && p != {} && q != {}
    requires p <= Indices(|labels|) && q <= Indices(|labels|) && Join(At(labels, p)) == Join(At(labels, q))
    ensures p == q
  {
    HitIsText(labels, p);
    HitIsText(labels, q);
    PicksDiffer(labels, p, q);
  }

  /** Distinct labels in descending order. */
  ghost predicate SortedLabels(source: string) {
    Descending(Split(source)) && NoDuplicates(Split(source))
  }

  /** The number of sources that contain the combination. */
  ghost function Support(sources: seq<string>, c: string): int {
    if sources == [] then 0
    else Support(sources[..|sources| - 1], c) + if Subseq(Split(c), Split(sources[|sources| - 1])) then 1 else 0
  }

  lemma {:induction false} SupportIsNonNegative(sources: seq<string>, c: string)
    ensures Support(sources, c) >= 0
  {
    if sources != [] { SupportIsNonNegative(sources[..|sources| - 1], c); }
  }

  /** The counts are the supports, and nothing without support is counted. */
  ghost predicate CountsSupport(m: Counts, sources: seq<string>) {
    forall c :: CountOf(m, c) == Support(sources, c) && (c in m <==> Support(sources, c) > 0)
  }

  lemma CountedSource(m: Counts, sources: seq<string>, i: nat, labels: seq<string>, hits: seq<string>,
                      picks: seq<set<nat>>)
    requires i < |sources| && SortedLabels(sources[i]) && CountsSupport(m, sources[..i])
    requires multiset(labels) == multiset(Split(sources[i])) && Descending(labels) && CountsAll(labels, hits, picks)
    ensures CountsSupport(Bumped(m, hits), sources[..i + 1])
  {
    DescendingAgree(labels, Split(sources[i]));
    JoinSplit(sources[i]);
    assert sources[..i + 1][..i] == sources[..i];
    forall c
      ensures CountOf(Bumped(m, hits), c) == Support(sources[..i + 1], c)
      ensures c in Bumped(m, hits) <==> Support(sources[..i + 1], c) > 0
    {
      BumpedCounts(m, hits, c);
      EachOnce(labels, hits, picks, c);
      SupportIsNonNegative(sources[..i], c);
      assert c in hits <==> multiset(hits)[c] > 0;
    }
  }

  /** Counting the sources one by one gives, for every combination, its support. */
  method CountSources(sources: seq<string>) returns (m: Counts)
    ensures (forall i :: 0 <= i < |sources| ==> SortedLabels(sources[i])) ==> CountsSupport(m, sources)
  {
    hide SortedLabels, CountsSupport, CountsAll, Bumped;
    var counter := new LabelCounter();
    NothingCounted();
    for i := 0 to |sources|
      invariant (forall k :: 0 <= k < |sources| ==> SortedLabels(sources[k])) ==>
        CountsSupport(counter.counts, sources[..i])
    {
      ghost var before := counter.counts;
      ghost var labels, hits, picks := counter.CountLabelByCombinations(sources[i]);
      if forall k :: 0 <= k < |sources| ==> SortedLabels(sources[k]) {
        CountedSource(before, sources, i, labels, hits, picks);
      }
    }
    assert sources[..|sources|] == sources;
    m := counter.counts;
  }

  lemma NothingCounted()
    ensures CountsSupport(map[], [])
  {
  }

  // ================================================================ ranking

  datatype LabelCount = LabelCount(name: string, count: real)

  function Weight(count: int, numberOfLabels: nat): real {
    count as real + numberOfLabels as real / 100.0
  }

  ghost predicate Ranked(m: Counts, labelCounts: seq<LabelCount>) {
    && (forall l :: l in labelCounts ==> Weighs(m, l))
    && (forall c :: c in m ==> HasLabel(labelCounts, c))
    && InRankOrder(labelCounts)
  }

  ghost predicate Weighs(m: Counts, l: LabelCount) {
    l.name in m && l.count == Weight(m[l.name], |Split(l.name)|)
  }

  ghost predicate HasLabel(s: seq<LabelCount>, c: string) {
    exists l :: l in s && l.name == c
  }

  ghost predicate InRankOrder(s: seq<LabelCount>) {
    forall i, j :: 0 <= i < j < |s| ==> s[i].count >= s[j].count && s[i].name != s[j].name
  }

  /** The labels by descending count; of equal counts the one with more labels first. */
  method DescendingLabelCountMap(labelCountMap: Counts) returns (labelCounts: seq<LabelCount>)
    ensures Ranked(labelCountMap, labelCounts)
  {
    labelCounts := [];
    var todo := labelCountMap.Keys;
    while todo != {}
      invariant todo <= labelCountMap.Keys
      invariant forall l :: l in labelCounts ==> Weighs(labelCountMap, l) && l.name !in todo
      invariant forall c :: c in labelCountMap && c !in todo ==> HasLabel(labelCounts, c)
      invariant InRankOrder(labelCounts)
      decreases |todo|
    {
      var name :| name in todo;
      var numberOfLabels := |Split(name)|;
      var entry := LabelCount(name, labelCountMap[name] as real + numberOfLabels as real / 100.0);
      ghost var before := labelCounts;
      labelCounts := InsertRanked(labelCounts, entry);
      forall c | HasLabel(before, c) || c == name ensures HasLabel(labelCounts, c) {
        if HasLabel(before, c) {
          var l :| l in before && l.name == c;
          assert l in labelCounts;
        } else {
          assert entry in labelCounts;
        }
      }
      todo := todo - {name};
    }
  }

  /** Puts the entry before the first one with a smaller count. */
  method InsertRanked(s: seq<LabelCount>, x: LabelCount) returns (r: seq<LabelCount>)
    requires InRankOrder(s) && forall l :: l in s ==> l.name != x.name
    ensures InRankOrder(r) && forall l :: l in r <==> l in s || l == x
  {
    var i := 0;
    while i < |s| && s[i].count >= x.count
      invariant 0 <= i <= |s| && forall k :: 0 <= k < i ==> s[k].count >= x.count
    {
      i := i + 1;
    }
    r := s[..i] + [x] + s[i..];
    assert s == s[..i] + s[i..];
    RankedInsert(s, x, i);
  }

  lemma RankedInsert(s: seq<LabelCount>, x: LabelCount, i: nat)
    requires InRankOrder(s) && i <= |s| && forall l :: l in s ==> l.name != x.name
    requires forall k :: 0 <= k < i ==> s[k].count >= x.count
    requires i < |s| ==> s[i].count < x.count
    ensures InRankOrder(s[..i] + [x] + s[i..])
  {
    var r := s[..i] + [x] + s[i..];
    forall a, b | 0 <= a < b < |r| ensures r[a].count >= r[b].count && r[a].name != r[b].name {
      assert r[a] == if a < i then s[a] else if a == i then x else s[a - 1];
      assert r[b] == if b < i then s[b] else if b == i then x else s[b - 1];
      if a == i && b - 1 > i { assert s[i].count >= s[b - 1].count; }
    }
  }

  /** With fewer than a hundred labels the ranking is lexicographic on count and size. */
  lemma RankIsLexicographic(a: int, m: nat, b: int, n: nat)
    requires 1 <= m < 100 && 1 <= n < 100
    ensures Weight(a, m) > Weight(b, n) <==> a > b || (a == b && m > n)
    ensures Weight(a, m) >= 2.0 <==> a >= 2
  {
    var x, y := m as real / 100.0, n as real / 100.0;
    assert 0.0 < x < 1.0 && 0.0 < y < 1.0;
    if a > b {
      assert a as real - b as real >= 1.0;
    } else if a < b {
      assert b as real - a as real >= 1.0;
    } else {
      assert x > y <==> m > n;
    }
    if a >= 2 {
      assert a as real >= 2.0;
    } else {
      assert a as real <= 1.0;
    }
  }
}
