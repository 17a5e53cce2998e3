/** The summary counters in place: alerts are counted in a live map, which is moved out whole,
    aggregated and delivered. Nothing is lost or counted twice. */
module SummaryStore {
  import opened Paths
  import opened SysTrie
  import opened SysForest
  import opened SysNode
  import opened Summary

  /** A map that is passed by reference. */
  class CounterMap {
    var entries: Counters

    constructor ()
      ensures entries == map[]
    {
      entries := map[];
    }
  }

  /** Empties the map into a new one. */
  method MoveMap(m: CounterMap) returns (result: CounterMap)
    modifies m
    ensures fresh(result) && result.entries == old(m.entries) && m.entries == map[]
  {
    result := new CounterMap();
    var todo := m.entries.Keys;
    while todo != {}
      invariant todo == m.entries.Keys
      invariant forall k :: k in old(m.entries) <==> k in m.entries || k in result.entries
      invariant forall k :: k in m.entries ==>
        k in old(m.entries) && m.entries[k] == old(m.entries)[k] && k !in result.entries
      invariant forall k :: k in result.entries ==> k in old(m.entries) && result.entries[k] == old(m.entries)[k]
      decreases |todo|
    {
      var k :| k in todo;
      result.entries := result.entries[k := m.entries[k]];
      m.entries := m.entries - {k};
      todo := todo - {k};
    }
  }

  // ================================================================ splitting off the files

  /** The destinations of the groups among the given summaries. */
  ghost predicate Collects(files: Counters, paths: map<string, seq<string>>) {
    && (forall s :: s in files ==> GroupKey(s) in paths && s.destination in paths[GroupKey(s)])
    && forall key, d :: key in paths && d in paths[key] ==>
      exists s :: s in files && GroupKey(s) == key && s.destination == d
  }

  lemma CollectsStep(files: Counters, paths: map<string, seq<string>>, s: Entry, v: TimeCount)
    requires Collects(files, paths)
    ensures var before := if GroupKey(s) in paths then paths[GroupKey(s)] else [];
      Collects(files[s := v], paths[GroupKey(s) := before + [s.destination]])
  {
    var key := GroupKey(s);
    var files', paths' := files[s := v], paths[key := (if key in paths then paths[key] else []) + [s.destination]];
    forall k, d | k in paths' && d in paths'[k]
      ensures exists e :: e in files' && GroupKey(e) == k && e.destination == d
    {
      if k in paths && d in paths[k] {
        var e :| e in files && GroupKey(e) == k && e.destination == d;
        assert e in files';
      } else {
        assert s in files';
      }
    }
  }

  /** Moves the file summaries out of the map and collects their paths by process. */
  method SplitFiles(summaryMap: CounterMap) returns (podFilePaths: map<string, seq<string>>, fileMap: Counters)
    modifies summaryMap
    ensures summaryMap.entries == OtherEntries(old(summaryMap.entries))
      && fileMap == FileEntries(old(summaryMap.entries))
    ensures Collects(fileMap, podFilePaths)
    ensures forall g :: Total(summaryMap.entries, g) + Total(fileMap, g) == Total(old(summaryMap.entries), g)
  {
    ghost var start := summaryMap.entries;
    podFilePaths, fileMap := map[], map[];
    var todo := summaryMap.entries.Keys;
    while todo != {}
      invariant todo <= start.Keys
      invariant Collects(fileMap, podFilePaths)
      invariant forall s :: s in fileMap <==> s in start && IsFile(s) && s !in todo
      invariant forall s :: s in summaryMap.entries <==> s in start && (!IsFile(s) || s in todo)
      invariant forall s :: s in fileMap ==> fileMap[s] == start[s]
      invariant forall s :: s in summaryMap.entries ==> summaryMap.entries[s] == start[s]
      invariant forall g :: Total(summaryMap.entries, g) + Total(fileMap, g) == Total(start, g)
      decreases |todo|
    {
      var s :| s in todo;
      if s.operation == FILE_OPERATION {
        var key, v := GroupKey(s), summaryMap.entries[s];
        forall g ensures Total(summaryMap.entries - {s}, g) + Total(fileMap[s := v], g) == Total(start, g) {
          TotalWithout(summaryMap.entries, s, g);
          TotalWith(fileMap, s, v, g);
        }
        CollectsStep(fileMap, podFilePaths, s, v);
        podFilePaths := podFilePaths[key := (if key in podFilePaths then podFilePaths[key] else []) + [s.destination]];
        fileMap := fileMap[s := v];
        summaryMap.entries := summaryMap.entries - {s};
      }
      todo := todo - {s};
    }
    assert summaryMap.entries == OtherEntries(start);
    assert fileMap == FileEntries(start);
  }

  // ================================================================ aggregating the groups

  ghost predicate AggregatesTo(files: seq<string>, results: seq<SysPath>) {
    AllPlainBelow(TokenSet(files)) ==> exists outs :: ListsOutputs(results, outs, TokenSet(files))
  }

  ghost predicate AggregatesList(agg: map<string, seq<SysPath>>, key: string, files: seq<string>) {
    key in agg && AggregatesTo(files, agg[key])
  }

  method AggregateGroups(podFilePaths: map<string, seq<string>>) returns (agg: map<string, seq<SysPath>>)
    ensures forall key :: key in podFilePaths ==> AggregatesList(agg, key, podFilePaths[key])
  {
    hide ListsOutputs, AllPlainBelow, TokenSet;
    agg := map[];
    var todo := podFilePaths.Keys;
    while todo != {}
      invariant todo <= podFilePaths.Keys
      invariant forall key :: key in podFilePaths && key !in todo ==> AggregatesList(agg, key, podFilePaths[key])
      decreases |todo|
    {
      var key :| key in todo;
      ghost var printed, outs;
      var results;
      results, printed, outs := AggregatePaths(podFilePaths[key]);
      assert AggregatesTo(podFilePaths[key], results);
      hide AggregatesTo;
      forall k | k in podFilePaths && k != key && k !in todo
        ensures AggregatesList(agg[key := results], k, podFilePaths[k])
      {
        assert AggregatesList(agg, k, podFilePaths[k]);
      }
      agg := agg[key := results];
      todo := todo - {key};
    }
  }

  lemma GroupTokens(m: Counters, paths: map<string, seq<string>>, agg: map<string, seq<SysPath>>)
    requires Collects(FileEntries(m), paths)
    requires forall key :: key in paths ==> AggregatesList(agg, key, paths[key])
    ensures AggregatesGroups(m, agg)
  {
    hide ListsOutputs, AllPlainBelow;
    forall s | s in m && IsFile(s) ensures AggregatesGroup(m, agg, GroupKey(s)) {
      assert s in FileEntries(m);
      var key := GroupKey(s);
      assert AggregatesList(agg, key, paths[key]);
      SameTokens(m, paths, key);
    }
  }

  lemma SameTokens(m: Counters, paths: map<string, seq<string>>, key: string)
    requires Collects(FileEntries(m), paths) && key in paths
    ensures TokenSet(paths[key]) == TokensOf(m, key)
  {
    forall d ensures d in paths[key] <==> d in FilesOf(m, key) {
      if d in paths[key] {
        var s :| s in FileEntries(m) && GroupKey(s) == key && s.destination == d;
      }
      if d in FilesOf(m, key) {
        var s :| s in m && IsFile(s) && GroupKey(s) == key && s.destination == d;
        assert s in FileEntries(m);
      }
    }
  }

  // ================================================================ folding the files back

  function Merge(m: Counters, k: Entry, v: TimeCount): TimeCount {
    if k in m then
      TimeCount(m[k].count + v.count, if v.updatedTime > m[k].updatedTime then v.updatedTime else m[k].updatedTime)
    else v
  }

  lemma FoldStep(other: Counters, done: Counters, agg: map<string, seq<SysPath>>, r: Counters, s: Entry, v: TimeCount)
    requires Folded(other, done, agg, r) && s !in done && Rekey(agg, s) !in other
    requires forall k :: k in r ==> k in other || SomeCounted(done, agg, k)
    ensures Folded(other, done[s := v], agg, r[Rekey(agg, s) := Merge(r, Rekey(agg, s), v)])
    ensures forall k :: k in r[Rekey(agg, s) := Merge(r, Rekey(agg, s), v)] ==>
      k in other || SomeCounted(done[s := v], agg, k)
  {
    var k0 := Rekey(agg, s);
    var done', r' := done[s := v], r[k0 := Merge(r, k0, v)];
    assert done' - {s} == done;
    hide Folded, LatestAt, Rekey, SomeCounted;
    FoldedParts(other, done, agg, r);
    forall k | k in r' && k !in other
      ensures r'[k].count == CountAt(done', agg, k) && LatestAt(done', agg, k, r'[k].updatedTime)
      ensures SomeCounted(done', agg, k)
    {
      CountWithout(done', agg, k, s);
      if k == k0 {
        LatestHere(done, agg, r, s, v, k);
      } else {
        LatestElsewhere(done, agg, s, v, k, r[k].updatedTime);
      }
    }
    FoldedWhen(other, done', agg, r');
  }

  lemma FoldedParts(other: Counters, files: Counters, agg: map<string, seq<SysPath>>, r: Counters)
    requires Folded(other, files, agg, r)
    ensures forall k :: k in other ==> k in r && r[k] == other[k]
    ensures forall s :: s in files ==> Rekey(agg, s) in r
    ensures forall k :: k in r && k !in other ==>
      r[k].count == CountAt(files, agg, k) && LatestAt(files, agg, k, r[k].updatedTime)
  {
  }

  lemma FoldedWhen(other: Counters, files: Counters, agg: map<string, seq<SysPath>>, r: Counters)
    requires forall k :: k in other ==> k in r && r[k] == other[k]
    requires forall s :: s in files ==> Rekey(agg, s) in r
    requires forall k :: k in r && k !in other ==>
      r[k].count == CountAt(files, agg, k) && LatestAt(files, agg, k, r[k].updatedTime)
    ensures Folded(other, files, agg, r)
  {
  }

  lemma LatestHere(done: Counters, agg: map<string, seq<SysPath>>, r: Counters, s: Entry, v: TimeCount, k: Entry)
    requires s !in done && k == Rekey(agg, s)
    requires k in r ==> LatestAt(done, agg, k, r[k].updatedTime)
    requires SomeCounted(done, agg, k) ==> k in r
    ensures LatestAt(done[s := v], agg, k, Merge(r, k, v).updatedTime)
    ensures SomeCounted(done[s := v], agg, k)
    ensures k !in r ==> CountAt(done, agg, k) == 0
  {
    hide Rekey;
    var done' := done[s := v];
    assert CountedUnder(done', agg, k, s);
    if k in r {
      var e :| CountedUnder(done, agg, k, e) && done[e].updatedTime == r[k].updatedTime;
      assert CountedUnder(done', agg, k, e);
    } else {
      forall e | e in done ensures Rekey(agg, e) != k { assert !CountedUnder(done, agg, k, e); }
      NoneCounted(done, agg, k);
    }
    forall e | CountedUnder(done', agg, k, e) && e != s ensures CountedUnder(done, agg, k, e) {}
  }

  lemma {:induction false} NoneCounted(files: Counters, agg: map<string, seq<SysPath>>, k: Entry)
    requires forall s :: s in files ==> Rekey(agg, s) != k
    ensures CountAt(files, agg, k) == 0
    decreases |files|
  {
    if files != map[] {
      var s :| s in files;
      CountWithout(files, agg, k, s);
      NoneCounted(files - {s}, agg, k);
    }
  }

  lemma LatestElsewhere(done: Counters, agg: map<string, seq<SysPath>>, s: Entry, v: TimeCount, k: Entry, t: int)
    requires s !in done && k != Rekey(agg, s) && LatestAt(done, agg, k, t)
    ensures LatestAt(done[s := v], agg, k, t)
    ensures SomeCounted(done[s := v], agg, k)
  {
    hide Rekey;
    forall e ensures CountedUnder(done[s := v], agg, k, e) <==> CountedUnder(done, agg, k, e) {}
    assert SomeCounted(done, agg, k);
  }

  /** Adds each file summary up under its aggregated path. */
  method FoldFiles(summaryMap: CounterMap, fileMap: Counters, agg: map<string, seq<SysPath>>)
    requires forall s :: s in fileMap ==> IsFile(s)
    requires forall s :: s in summaryMap.entries ==> !IsFile(s)
    modifies summaryMap
    ensures Folded(old(summaryMap.entries), fileMap, agg, summaryMap.entries)
    ensures forall g :: Total(summaryMap.entries, g) == Total(old(summaryMap.entries), g) + Total(fileMap, g)
  {
    ghost var other, done: Counters := summaryMap.entries, map[];
    var todo := fileMap.Keys;
    while todo != {}
      invariant todo <= fileMap.Keys && done.Keys == fileMap.Keys - todo
      invariant forall s :: s in done ==> done[s] == fileMap[s]
      invariant Folded(other, done, agg, summaryMap.entries)
      invariant forall k :: k in summaryMap.entries ==> k in other || SomeCounted(done, agg, k)
      invariant forall g :: Total(summaryMap.entries, g) == Total(other, g) + Total(done, g)
      decreases |todo|
    {
      var s :| s in todo;
      FoldOne(summaryMap, fileMap, agg, s, other, done);
      done, todo := done[s := fileMap[s]], todo - {s};
    }
    assert done == fileMap;
  }

  method FoldOne(summaryMap: CounterMap, fileMap: Counters, agg: map<string, seq<SysPath>>, s: Entry,
                 ghost other: Counters, ghost done: Counters)
    requires s in fileMap && s !in done && IsFile(s) && forall k :: k in other ==> !IsFile(k)
    requires Folded(other, done, agg, summaryMap.entries)
    requires forall k :: k in summaryMap.entries ==> k in other || SomeCounted(done, agg, k)
    requires forall g :: Total(summaryMap.entries, g) == Total(other, g) + Total(done, g)
    modifies summaryMap
    ensures Folded(other, done[s := fileMap[s]], agg, summaryMap.entries)
    ensures forall k :: k in summaryMap.entries ==> k in other || SomeCounted(done[s := fileMap[s]], agg, k)
    ensures forall g :: Total(summaryMap.entries, g) == Total(other, g) + Total(done[s := fileMap[s]], g)
  {
    hide Folded, SomeCounted, Rekey, Total;
    var v := fileMap[s];
    var files := if GroupKey(s) in agg then agg[GroupKey(s)] else [];
    var k := RekeyLoop(files, s);
    RekeyOf(agg, s);
    RekeyKeeps(agg, s);
    FoldStep(other, done, agg, summaryMap.entries, s, v);
    forall g
      ensures Total(summaryMap.entries[k := Merge(summaryMap.entries, k, v)], g) ==
              Total(other, g) + Total(done[s := v], g)
    {
      TotalWith(summaryMap.entries, k, Merge(summaryMap.entries, k, v), g);
      TotalWith(done, s, v, g);
    }
    if k in summaryMap.entries {
      var timeCount := summaryMap.entries[k];
      timeCount := timeCount.(count := timeCount.count + v.count);
      if v.updatedTime > timeCount.updatedTime {
        timeCount := timeCount.(updatedTime := v.updatedTime);
      }
      summaryMap.entries := summaryMap.entries[k := timeCount];
    } else {
      summaryMap.entries := summaryMap.entries[k := v];
    }
  }

  lemma RekeyOf(agg: map<string, seq<SysPath>>, s: Entry)
    ensures Rekey(agg, s) == RekeyIn(if GroupKey(s) in agg then agg[GroupKey(s)] else [], s)
  {
  }

  /** The first aggregated path that stands for the destination; no index is out of range. */
  method RekeyLoop(files: seq<SysPath>, s: Entry) returns (k: Entry)
    ensures k == RekeyIn(files, s)
  {
    k := s;
    for i := 0 to |files|
      invariant k == s && RekeyIn(files, s) == RekeyIn(files[i..], s)
    {
      var path := files[i].path;
      assert files[i..][0] == files[i] && files[i..][1..] == files[i + 1..];
      if path <= s.destination
         && (|s.destination| == |path| || s.destination[|TrimSlash(path)|] == '/') {
        k := s.(destination := path);
        return;
      }
    }
  }

  /** Aggregates the counters in place. The total of every group of summaries that differ only in the
      destination is conserved. */
  method AggregateSummaryMap(summaryMap: CounterMap)
    modifies summaryMap
    ensures IsAggregate(old(summaryMap.entries), summaryMap.entries)
    ensures forall g :: Total(summaryMap.entries, g) == Total(old(summaryMap.entries), g)
  {
    hide Folded, Total, Collects, AggregatesList;
    ghost var start := summaryMap.entries;
    var podFilePaths, fileMap := SplitFiles(summaryMap);
    var aggPodFilePaths := AggregateGroups(podFilePaths);
    GroupTokens(start, podFilePaths, aggPodFilePaths);
    FoldFiles(summaryMap, fileMap, aggPodFilePaths);
  }

  // ================================================================ intake and delivery

  ghost function Accepted(alerts: seq<Entry>, g: Entry): int {
    if alerts == [] then 0
    else Accepted(alerts[..|alerts| - 1], g) + if Erased(alerts[|alerts| - 1]) == Erased(g) then 1 else 0
  }

  ghost function TotalOfBatches(batches: seq<Counters>, g: Entry): int {
    if batches == [] then 0 else TotalOfBatches(batches[..|batches| - 1], g) + Total(batches[|batches| - 1], g)
  }

  datatype Published = Published(entry: Entry, timeCount: TimeCount)

  ghost function TotalOfPublished(ps: seq<Published>, g: Entry): int {
    if ps == [] then 0
    else
      TotalOfPublished(ps[..|ps| - 1], g)
      + if Erased(ps[|ps| - 1].entry) == Erased(g) then ps[|ps| - 1].timeCount.count else 0
  }

  class Summarizer {
    const summarizerMap: CounterMap
    ghost var alerts: seq<Entry>
    ghost var batches: seq<Counters>

    /** In every group, the accepted alerts are those counted in the live map and in the batches moved out. */
    ghost predicate Valid()
      reads this, summarizerMap
    {
      forall g :: Accepted(alerts, g) == Total(summarizerMap.entries, g) + TotalOfBatches(batches, g)
    }

    constructor ()
      ensures Valid() && alerts == [] && batches == [] && summarizerMap.entries == map[] && fresh(summarizerMap)
    {
      summarizerMap := new CounterMap();
      alerts, batches := [], [];
    }

    /** Counts one alert. */
    method AppendSummaryData(summary: Entry, ts: int)
      requires Valid()
      modifies this, summarizerMap
      ensures Valid() && alerts == old(alerts) + [summary] && batches == old(batches)
      ensures summary in summarizerMap.entries && summarizerMap.entries[summary].updatedTime == ts
      ensures summarizerMap.entries[summary].count ==
        (if summary in old(summarizerMap.entries) then old(summarizerMap.entries)[summary].count else 0) + 1
      ensures summarizerMap.entries == old(summarizerMap.entries)[summary := summarizerMap.entries[summary]]
    {
      var m := summarizerMap.entries;
      var v := TimeCount((if summary in m then m[summary].count else 0) + 1, ts);
      forall g { TotalWith(m, summary, v, g); }
      summarizerMap.entries := m[summary := v];
      alerts := alerts + [summary];
    }

    /** Moves the live counters out as a batch. */
    method TakeBatch() returns (batch: CounterMap)
      requires Valid()
      modifies this, summarizerMap
      ensures Valid() && fresh(batch) && batch.entries == old(summarizerMap.entries) && summarizerMap.entries == map[]
      ensures alerts == old(alerts) && batches == old(batches) + [batch.entries]
    {
      batch := MoveMap(summarizerMap);
      batches := batches + [batch.entries];
    }

    /** Takes a batch, aggregates it, writes it to the database and publishes it, each entry once. */
    method ProcessSystemSummary(writeToDB: bool, publish: bool) returns (upserted: Counters, published: seq<Published>)
      requires Valid()
      modifies this, summarizerMap
      ensures Valid() && alerts == old(alerts) && summarizerMap.entries == map[]
      ensures old(summarizerMap.entries) == map[] ==> batches == old(batches) && upserted == map[] && published == []
      ensures old(summarizerMap.entries) != map[] ==> batches == old(batches) + [old(summarizerMap.entries)]
      ensures writeToDB ==> forall g :: Total(upserted, g) == Total(old(summarizerMap.entries), g)
      ensures publish ==> forall g :: TotalOfPublished(published, g) == Total(old(summarizerMap.entries), g)
      ensures writeToDB && old(summarizerMap.entries) != map[] ==> IsAggregate(old(summarizerMap.entries), upserted)
    {
      upserted, published := map[], [];
      if |summarizerMap.entries| == 0 {
        return;
      }
      var temp := TakeBatch();
      AggregateSummaryMap(temp);
      if writeToDB {
        upserted := temp.entries;
      }
      if publish {
        published := PublishAll(temp);
      }
    }
  }

  lemma PublishOne(published: seq<Published>, m: Counters, k: Entry)
    requires k in m
    ensures forall g ::
      TotalOfPublished(published + [Published(k, m[k])], g) + Total(m - {k}, g) ==
      TotalOfPublished(published, g) + Total(m, g)
  {
    assert (published + [Published(k, m[k])])[..|published|] == published;
    forall g ensures
      TotalOfPublished(published + [Published(k, m[k])], g) + Total(m - {k}, g) ==
      TotalOfPublished(published, g) + Total(m, g)
    {
      TotalWithout(m, k, g);
    }
  }

  /** Publishes every entry and deletes it from the map. */
  method PublishAll(temp: CounterMap) returns (published: seq<Published>)
    modifies temp
    ensures temp.entries == map[] && |published| == |old(temp.entries)|
    ensures forall k :: k in old(temp.entries) ==> Published(k, old(temp.entries)[k]) in published
    ensures forall g :: TotalOfPublished(published, g) == Total(old(temp.entries), g)
  {
    published := [];
    ghost var start := temp.entries;
    while temp.entries != map[]
      invariant forall k :: k in temp.entries ==> k in start && temp.entries[k] == start[k]
      invariant forall k :: k in start && k !in temp.entries ==> Published(k, start[k]) in published
      invariant |published| + |temp.entries| == |start|
      invariant forall g :: TotalOfPublished(published, g) + Total(temp.entries, g) == Total(start, g)
      decreases |temp.entries|
    {
      var k :| k in temp.entries;
      var p := Published(k, temp.entries[k]);
      PublishOne(published, temp.entries, k);
      published := published + [p];
      temp.entries := temp.entries - {k};
    }
  }
}
