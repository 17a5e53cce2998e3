/** Label combinations: enumeration by bit masks, containment, and counting as itemset support. */
module Labels {
  import opened Paths
  import opened LabelText

  // ================================================================ masks and index sets

  function Pow2(n: nat): nat {
    if n == 0 then 1 else 2 * Pow2(n - 1)
  }

  /** (b >> i) & 1 == 1 */
  predicate Bit(b: nat, i: nat) {
    if i == 0 then b % 2 == 1 else Bit(b / 2, i - 1)
  }

  /** bits.OnesCount */
  function OnesCount(b: nat): nat {
    if b == 0 then 0 else b % 2 + OnesCount(b / 2)
  }

  ghost function Indices(n: nat): (r: set<nat>)
    ensures forall i: nat :: i in r <==> i < n
  {
    if n == 0 then {} else Indices(n - 1) + {n - 1}
  }

  ghost function Up(t: set<nat>): set<nat> {
    set i: nat | i in t :: i + 1
  }

  ghost function Down(t: set<nat>): set<nat> {
    set i: nat | i in t && i > 0 :: i - 1
  }

  ghost function IndexSet(b: nat, n: nat): set<nat> {
    set i: nat | i < n && Bit(b, i)
  }

  /** The elements at the given indices, in order. */
  ghost function At<T>(s: seq<T>, picked: set<nat>): seq<T> {
    if s == [] then []
    else At(s[..|s| - 1], picked) + if |s| - 1 in picked then [s[|s| - 1]] else []
  }

  lemma {:induction false} SameBits(a: nat, b: nat, n: nat)
    requires a < Pow2(n) && b < Pow2(n) && forall i: nat :: i < n ==> (Bit(a, i) <==> Bit(b, i))
    ensures a == b
    decreases n
  {
    if n > 0 {
      assert Bit(a, 0) <==> Bit(b, 0);
      forall i: nat | i < n - 1 ensures Bit(a / 2, i) <==> Bit(b / 2, i) {
        assert Bit(a, i + 1) <==> Bit(b, i + 1);
      }
      SameBits(a / 2, b / 2, n - 1);
    }
  }

  /** Different masks pick different index sets. */
  lemma MasksDiffer(a: nat, b: nat, n: nat)
    requires a < Pow2(n) && b < Pow2(n) && IndexSet(a, n) == IndexSet(b, n)
    ensures a == b
  {
    forall i: nat | i < n ensures Bit(a, i) <==> Bit(b, i) {
      assert i in IndexSet(a, n) <==> Bit(a, i);
      assert i in IndexSet(b, n) <==> Bit(b, i);
    }
    SameBits(a, b, n);
  }

  /** Every index set is picked by a mask. */
  lemma {:induction false} MaskFor(picked: set<nat>, n: nat) returns (b: nat)
    requires picked <= Indices(n)
    ensures b < Pow2(n) && IndexSet(b, n) == picked
    decreases n
  {
    if n == 0 {
      b := 0;
    } else {
      var shifted := Down(picked);
      var c := MaskFor(shifted, n - 1);
      b := 2 * c + if 0 in picked then 1 else 0;
      assert b / 2 == c && (b % 2 == 1 <==> 0 in picked);
      forall i: nat ensures i in IndexSet(b, n) <==> i in picked {
        if 0 < i < n {
          assert Bit(b, i) <==> Bit(c, i - 1);
          assert i - 1 in IndexSet(c, n - 1) <==> i - 1 in shifted;
          if i - 1 in shifted { var j :| j in picked && j > 0 && j - 1 == i - 1; }
        }
      }
    }
  }

  lemma {:induction false} NoBits(i: nat)
    ensures !Bit(0, i)
  {
    if i > 0 { NoBits(i - 1); }
  }

  lemma {:induction false} UpSize(t: set<nat>)
    ensures |Up(t)| == |t|
    decreases |t|
  {
    if x :| x in t {
      UpSize(t - {x});
      forall y ensures y in Up(t) <==> y in Up(t - {x}) || y == x + 1 {
        if y in Up(t) {
          var i :| i in t && i + 1 == y;
          if i != x { assert i in t - {x}; }
        }
      }
      assert Up(t) == Up(t - {x}) + {x + 1};
      assert x + 1 !in Up(t - {x});
    } else {
      assert Up(t) == {};
    }
  }

  /** The mask has as many ones as it picks indices. */
  lemma HalfIndices(b: nat, n: nat)
    requires n > 0
    ensures 0 !in Up(IndexSet(b / 2, n - 1))
    ensures IndexSet(b, n) == Up(IndexSet(b / 2, n - 1)) + if b % 2 == 1 then {0} else {}
  {
    var t := IndexSet(b / 2, n - 1);
    forall i: nat ensures i in IndexSet(b, n) <==> i in Up(t) || (i == 0 && b % 2 == 1) {
      if 0 < i < n {
        assert Bit(b, i) <==> Bit(b / 2, i - 1);
        assert i - 1 in t <==> Bit(b / 2, i - 1);
      }
      if i in Up(t) { var j :| j in t && j + 1 == i; }
    }
  }

  lemma {:induction false} OnesAreIndices(b: nat, n: nat)
    requires b < Pow2(n)
    ensures OnesCount(b) == |IndexSet(b, n)|
    decreases n
  {
    if n == 0 {
      assert IndexSet(b, n) == {};
    } else {
      var t := IndexSet(b / 2, n - 1);
      OnesAreIndices(b / 2, n - 1);
      UpSize(t);
      var shifted := Up(t);
      HalfIndices(b, n);
      HalfOnes(b);
      hide *;
      assert 0 !in shifted ==> |shifted + {0}| == |shifted| + 1;
      assert shifted + {} == shifted;
    }
  }

  lemma HalfOnes(b: nat)
    ensures OnesCount(b) == b % 2 + OnesCount(b / 2)
  {
  }

  lemma {:induction false} AtSame<T>(s: seq<T>, p: set<nat>, q: set<nat>)
    requires forall i: nat :: i < |s| ==> (i in p <==> i in q)
    ensures At(s, p) == At(s, q)
  {
    if s != [] { AtSame(s[..|s| - 1], p, q); }
  }

  lemma AtStep(s: seq<string>, b: nat, i: nat)
    requires i < |s|
    ensures At(s[..i + 1], IndexSet(b, i + 1)) == At(s[..i], IndexSet(b, i)) + if Bit(b, i) then [s[i]] else []
  {
    assert s[..i + 1][..i] == s[..i];
    AtSame(s[..i], IndexSet(b, i + 1), IndexSet(b, i));
  }

  // ================================================================ combinations

  /** The picks are all non-empty index sets of the size asked for (of any size for a size below one),
      each once, and the subsets the elements they pick. */
  ghost predicate Enumerates(s: seq<string>, n: int, subsets: seq<seq<string>>, picks: seq<set<nat>>) {
    && |subsets| == |picks| && NoDuplicates(picks)
    && (forall p :: p in picks <==> Wanted(s, n, p))
    && forall i :: 0 <= i < |picks| ==> subsets[i] == At(s, picks[i])
  }

  ghost predicate Wanted(s: seq<string>, n: int, p: set<nat>) {
    p != {} && p <= Indices(|s|) && (n > 0 ==> |p| == n)
  }

  /** All n-element combinations of the labels, by counting through the masks. */
  method CombinationLabels(s: seq<string>, n0: int) returns (subsets: seq<seq<string>>, ghost picks: seq<set<nat>>)
    ensures Enumerates(s, if n0 > |s| then |s| else n0, subsets, picks)
  {
    var length := |s|;
    var n := n0;
    if n > |s| {
      n := |s|;
    }
    subsets, picks := [], [];
    var end := PowerOf2(length);
    var subsetBits := 1;
    PositiveMask(length);
    while subsetBits < end
      invariant 1 <= subsetBits <= end == Pow2(length)
      invariant |subsets| == |picks| && NoDuplicates(picks)
      invariant forall p :: p in picks ==> exists b: nat :: 1 <= b < subsetBits && IndexSet(b, length) == p
      invariant forall b: nat :: 1 <= b < subsetBits && (n > 0 ==> OnesCount(b) == n) ==> IndexSet(b, length) in picks
      invariant forall p :: p in picks ==> (n > 0 ==> |p| == n)
      invariant forall i :: 0 <= i < |picks| ==> subsets[i] == At(s, picks[i])
      decreases end - subsetBits
    {
      OnesAreIndices(subsetBits, length);
      if n > 0 && OnesCount(subsetBits) != n {
        subsetBits := subsetBits + 1;
        continue;
      }
      var subset := PickLabels(s, subsetBits);
      ghost var p := IndexSet(subsetBits, length);
      if p in picks {
        ghost var b: nat :| 1 <= b < subsetBits && IndexSet(b, length) == p;
        MasksDiffer(b, subsetBits, length);
      }
      subsets, picks := subsets + [subset], picks + [p];
      subsetBits := subsetBits + 1;
    }
    forall p ensures p in picks <==> Wanted(s, n, p) { AllMasksTried(s, n, picks, p); }
  }

  method PowerOf2(n: nat) returns (r: nat)
    ensures r == Pow2(n)
  {
    r := 1;
    for i := 0 to n
      invariant r == Pow2(i)
    {
      r := 2 * r;
    }
  }

  lemma PositiveMask(n: nat)
    ensures Pow2(n) >= 1
  {
  }

  lemma AllMasksTried(s: seq<string>, n: int, picks: seq<set<nat>>, p: set<nat>)
    requires forall p :: p in picks ==> exists b: nat :: 1 <= b < Pow2(|s|) && IndexSet(b, |s|) == p
    requires forall b: nat :: 1 <= b < Pow2(|s|) && (n > 0 ==> OnesCount(b) == n) ==> IndexSet(b, |s|) in picks
    requires forall p :: p in picks ==> (n > 0 ==> |p| == n)
    ensures p in picks <==> Wanted(s, n, p)
  {
    var len := |s|;
    if p in picks {
      var b: nat :| 1 <= b < Pow2(len) && IndexSet(b, len) == p;
      if p == {} {
        EmptyMask(len);
        MasksDiffer(b, 0, len);
      }
    }
    if Wanted(s, n, p) {
      var b := MaskFor(p, len);
      EmptyMask(len);
      OnesAreIndices(b, len);
      assert b != 0;
    }
  }

  lemma EmptyMask(n: nat)
    ensures IndexSet(0, n) == {} && 0 < Pow2(n)
  {
    forall i: nat | i < n ensures !Bit(0, i) { NoBits(i); }
  }

  /** The labels whose bit is set. */
  method PickLabels(s: seq<string>, subsetBits: nat) returns (subset: seq<string>)
    ensures subset == At(s, IndexSet(subsetBits, |s|))
  {
    subset := [];
    for position := 0 to |s|
      invariant subset == At(s[..position], IndexSet(subsetBits, position))
    {
      AtStep(s, subsetBits, position);
      if Bit(subsetBits, position) {
        subset := subset + [s[position]];
      }
    }
    assert s[..|s|] == s;
  }

  // ================================================================ containment

  /** The labels, in order, among the target's. */
  ghost predicate Subseq(labels: seq<string>, target: seq<string>) {
    exists p :: p <= Indices(|target|) && At(target, p) == labels
  }

  lemma {:induction false} AtSize<T>(s: seq<T>, p: set<nat>)
    requires p <= Indices(|s|)
    ensures |At(s, p)| == |p|
  {
    if s == [] {
      assert p == {};
    } else {
      var last := |s| - 1;
      var q := p - {last};
      assert q <= Indices(last);
      AtSize(s[..last], q);
      AtSame(s[..last], p, q);
      assert p == if last in p then q + {last} else q;
    }
  }

  lemma {:induction false} AtElements<T>(s: seq<T>, p: set<nat>, x: T)
    ensures x in At(s, p) <==> exists i: nat :: i < |s| && i in p && s[i] == x
  {
    if s != [] {
      var last := |s| - 1;
      AtElements(s[..last], p, x);
      if i: nat :| i < last && i in p && s[..last][i] == x { assert s[i] == x; }
      if i: nat :| i < |s| && i in p && s[i] == x {
        if i < last { assert s[..last][i] == x; }
      }
    }
  }

  lemma AtCommaFree(s: seq<string>, p: set<nat>)
    requires CommaFree(s)
    ensures CommaFree(At(s, p))
  {
    var r := At(s, p);
    forall i | 0 <= i < |r| ensures ',' !in r[i] {
      AtElements(s, p, r[i]);
      assert r[i] in r;
    }
  }

  lemma AtOne(s: seq<string>, x: string)
    ensures Subseq([x], s) <==> x in s
  {
    if Subseq([x], s) {
      var p :| p <= Indices(|s|) && At(s, p) == [x];
      AtElements(s, p, x);
      assert x in At(s, p);
    }
    if x in s {
      var i: nat :| i < |s| && s[i] == x;
      var p: set<nat> := {i};
      assert i in Indices(|s|) && p <= Indices(|s|);
      AtSize(s, p);
      AtElements(s, p, At(s, p)[0]);
      assert At(s, p)[0] in At(s, p);
      assert At(s, p) == [x];
    }
  }

  /** Whether a combination is contained in a label text: exactly when it is a subsequence. */
  method ContainLabel(mergedLabel: string, targetLabel: string) returns (contained: bool)
    ensures contained <==> Subseq(Split(mergedLabel), Split(targetLabel))
  {
    var labels, targetLabels := Split(mergedLabel), Split(targetLabel);
    JoinSplit(mergedLabel);
    JoinSplit(targetLabel);
    if |labels| == 1 {
      contained := IsSingle(mergedLabel, labels, targetLabels);
    } else {
      contained := AmongAllCombinations(mergedLabel, labels, targetLabels);
    }
  }

  method IsSingle(mergedLabel: string, labels: seq<string>, targetLabels: seq<string>) returns (contained: bool)
    requires |labels| == 1 && Join(labels) == mergedLabel
    ensures contained <==> Subseq(labels, targetLabels)
  {
    AtOne(targetLabels, mergedLabel);
    assert labels == [mergedLabel];
    for i := 0 to |targetLabels|
      invariant mergedLabel !in targetLabels[..i]
    {
      if mergedLabel == targetLabels[i] {
        return true;
      }
    }
    return false;
  }

  method AmongAllCombinations(mergedLabel: string, ghost labels: seq<string>, targetLabels: seq<string>)
      returns (contained: bool)
    requires labels == Split(mergedLabel) && |labels| >= 2 && CommaFree(targetLabels) && targetLabels != []
    ensures contained <==> Subseq(labels, targetLabels)
  {
    assert NoneUpTo(labels, targetLabels, 2);
    hide *;
    for i := 2 to |targetLabels| + 1
      invariant NoneUpTo(labels, targetLabels, i)
    {
      contained := AmongCombinations(mergedLabel, labels, targetLabels, i);
      if contained {
        return true;
      }
      NoneUpToNext(labels, targetLabels, i);
    }
    NotSubseq(labels, targetLabels);
    return false;
  }

  /** No combination of at least two and fewer than n labels is the list. */
  ghost predicate NoneUpTo(labels: seq<string>, target: seq<string>, n: nat) {
    forall p :: p <= Indices(|target|) && 2 <= |p| < n ==> At(target, p) != labels
  }

  lemma NoneUpToNext(labels: seq<string>, target: seq<string>, n: nat)
    requires NoneUpTo(labels, target, n)
    requires forall p :: p <= Indices(|target|) && |p| == n ==> At(target, p) != labels
    ensures NoneUpTo(labels, target, n + 1)
  {
  }

  /** The inner loop: whether the text is one of the combinations of i labels. */
  method AmongCombinations(mergedLabel: string, ghost labels: seq<string>, targetLabels: seq<string>, i: nat)
      returns (contained: bool)
    requires labels == Split(mergedLabel) && CommaFree(targetLabels) && 2 <= i <= |targetLabels|
    ensures contained ==> Subseq(labels, targetLabels)
    ensures !contained ==> forall p :: p <= Indices(|targetLabels|) && |p| == i ==> At(targetLabels, p) != labels
  {
    var results;
    ghost var picks, at;
    results, picks := CombinationLabels(targetLabels, i);
    CombinationsAreTexts(targetLabels, i, results, picks);
    contained, at := FindCombination(mergedLabel, labels, results);
    if contained {
      assert picks[at] in picks;
    } else {
      NotAmong(targetLabels, labels, i, results, picks);
    }
  }

  lemma CombinationsAreTexts(target: seq<string>, n: int, results: seq<seq<string>>, picks: seq<set<nat>>)
    requires CommaFree(target) && Enumerates(target, n, results, picks)
    ensures forall k :: 0 <= k < |results| ==> results[k] != [] && CommaFree(results[k])
  {
    forall k | 0 <= k < |results| ensures results[k] != [] && CommaFree(results[k]) {
      assert picks[k] in picks;
      AtCommaFree(target, picks[k]);
      AtSize(target, picks[k]);
    }
  }

  lemma NotAmong(target: seq<string>, labels: seq<string>, n: int, results: seq<seq<string>>, picks: seq<set<nat>>)
    requires Enumerates(target, n, results, picks) && n > 0 && forall k :: 0 <= k < |results| ==> results[k] != labels
    ensures forall p :: p <= Indices(|target|) && |p| == n ==> At(target, p) != labels
  {
    forall p | p <= Indices(|target|) && |p| == n ensures At(target, p) != labels {
      assert p in picks;
      var k :| 0 <= k < |picks| && picks[k] == p;
    }
  }

  lemma NotSubseq(labels: seq<string>, target: seq<string>)
    requires |labels| >= 2
    requires NoneUpTo(labels, target, |target| + 1)
    ensures !Subseq(labels, target)
  {
    if Subseq(labels, target) {
      var p :| p <= Indices(|target|) && At(target, p) == labels;
      AtSize(target, p);
      AtWithin(target, p);
    }
  }

  lemma {:induction false} AtWithin<T>(s: seq<T>, p: set<nat>)
    ensures |At(s, p)| <= |s|
  {
    if s != [] { AtWithin(s[..|s| - 1], p); }
  }

  method FindCombination(mergedLabel: string, ghost labels: seq<string>, results: seq<seq<string>>)
      returns (found: bool, ghost at: nat)
    requires labels == Split(mergedLabel)
    requires forall k :: 0 <= k < |results| ==> results[k] != [] && CommaFree(results[k])
    ensures found ==> at < |results| && results[at] == labels
    ensures !found ==> forall k :: 0 <= k < |results| ==> results[k] != labels
  {
    JoinSplit(mergedLabel);
    for k := 0 to |results|
      invariant forall l :: 0 <= l < k ==> results[l] != labels
    {
      if mergedLabel == Join(results[k]) {
        JoinInjective(labels, results[k]);
        return true, k;
      }
    }
    return false, 0;
  }
}
