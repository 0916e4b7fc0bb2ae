/** The partition-level steps of the tool (lib/storage/partition_nebius.go):
    the gate in front of the forced clean of the index table, the collection
    of metric IDs that have stored samples, and the 180-day probe window. */
module Partition {
  import opened Common
  import Table

  /** The number of days probed before today. */
  const WindowDays: nat := 180

  /** ForceCleanAllIndexParts: the forced clean of the index table runs only
      when the partition has deleted metric IDs; an error from it comes back
      wrapped with the partition name. */
  function ForceCleanAllIndexParts(name: string, deleted: set<nat>, parts: seq<Table.PartWrapper>,
                                   freeSpace: nat -> nat, mergeOk: nat -> bool): (r: Outcome<Table.CleanReport>)
    ensures deleted == {} ==> r == Ok(Table.CleanReport(parts, [], []))
    ensures deleted != {} ==> (r.Ok? <==> Table.ForceCleanAllParts(parts, freeSpace, mergeOk).Ok?)
    ensures deleted != {} ==> (r.Err? <==> Table.ForceCleanAllParts(parts, freeSpace, mergeOk).Err?)
    ensures deleted != {} && r.Ok? ==> r.value == Table.ForceCleanAllParts(parts, freeSpace, mergeOk).value
  {
    if |deleted| > 0 then
      var cleaned := Table.ForceCleanAllParts(parts, freeSpace, mergeOk);
      if cleaned.Ok? then cleaned else WrapCleanFailure(name, cleaned)
    else
      Ok(Table.CleanReport(parts, [], []))
  }

  /** A returned error of the table clean gains the partition name; an abort
      stays an abort. */
  function WrapCleanFailure(name: string, o: Outcome<Table.CleanReport>): (r: Outcome<Table.CleanReport>)
    requires !o.Ok?
    ensures r.Err? == o.Err? && r.Fatal? == o.Fatal?
    ensures r.Fatal? ==> r.msg == o.msg
    ensures r.Err? ==> |o.msg| <= |r.msg| && r.msg[|r.msg| - |o.msg|..] == o.msg
  {
    if o.Err? then Err("cannot force merge index parts for partition " + name + ": " + o.msg) else o
  }

  /** The gated clean never hands back an error, and with deleted metric IDs
      it aborts exactly when some claimed part that fits the free space fails
      to merge. */
  lemma IndexCleanOutcome(name: string, deleted: set<nat>, parts: seq<Table.PartWrapper>,
                          freeSpace: nat -> nat, mergeOk: nat -> bool)
    ensures var r := ForceCleanAllIndexParts(name, deleted, parts, freeSpace, mergeOk);
      && !r.Err?
      && (deleted != {} ==>
            (r.Fatal? <==> Table.MergeFailsFrom(parts, Table.GetFilePartsForMerge(parts).claimed, 0, freeSpace, mergeOk)))
  {
    Table.ForceCleanAborts(parts, freeSpace, mergeOk);
  }

  /** SearchMetricIdsWithData: the metric IDs of the blocks the partition
      search yields, or the search's error (the partial set is discarded).
      `blocks` are the TSIDs of the yielded blocks in order; `searchError` is
      what the search reports once it stops. */
  method SearchMetricIdsWithData(tsids: seq<Tsid>, blocks: seq<Tsid>, searchError: Option<string>)
      returns (r: Outcome<set<nat>>)
    ensures searchError.Some? ==> r == Err(searchError.value)
    ensures searchError.None? ==> r.Ok?
    ensures r.Ok? ==> forall i :: 0 <= i < |blocks| ==> blocks[i].metricId in r.value
    ensures r.Ok? ==> forall m :: m in r.value ==> exists i :: 0 <= i < |blocks| && blocks[i].metricId == m
    ensures r.Ok? ==> r.value == MetricIds(blocks)
    ensures r.Ok? && (forall i :: 0 <= i < |blocks| ==> blocks[i] in tsids) ==> r.value <= MetricIds(tsids)
  {
    var metricIds: set<nat> := {};
    var i := 0;
    while i < |blocks|
      invariant 0 <= i <= |blocks|
      invariant forall k :: 0 <= k < i ==> blocks[k].metricId in metricIds
      invariant forall m :: m in metricIds ==> exists k :: 0 <= k < i && blocks[k].metricId == m
    {
      metricIds := metricIds + {blocks[i].metricId};
      i := i + 1;
    }
    if searchError.Some? {
      return Err(searchError.value);
    }
    r := Ok(metricIds);
    CollectedIsMetricIds(blocks, metricIds);
    assert (forall i :: 0 <= i < |blocks| ==> blocks[i] in tsids) ==> metricIds <= MetricIds(tsids) by {
      if forall i :: 0 <= i < |blocks| ==> blocks[i] in tsids {
        forall m | m in metricIds
          ensures m in MetricIds(tsids)
        {
          var k :| 0 <= k < |blocks| && blocks[k].metricId == m;
          assert blocks[k] in tsids;
        }
      }
    }
  }

  /** The collected set is the reference set of metric IDs of the blocks. */
  lemma CollectedIsMetricIds(blocks: seq<Tsid>, ids: set<nat>)
    requires forall i :: 0 <= i < |blocks| ==> blocks[i].metricId in ids
    requires forall m :: m in ids ==> exists i :: 0 <= i < |blocks| && blocks[i].metricId == m
    ensures ids == MetricIds(blocks)
  {
    forall m | m in MetricIds(blocks)
      ensures m in ids
    {
      var t :| t in blocks && t.metricId == m;
      var i :| 0 <= i < |blocks| && blocks[i] == t;
    }
  }

  /** The day probed at step `i` of the window: `day - (180 - i)` in uint64
      arithmetic, which wraps around when `day` is below 180. */
  function ProbedDay(day: nat, i: nat): (d: nat)
    requires day <= MaxUint64 && i < WindowDays
    ensures d <= MaxUint64
    ensures day >= WindowDays ==> d == day - (WindowDays - i)
    ensures day + i >= WindowDays ==> d == day + i - WindowDays
    ensures day + i < WindowDays ==> d == MaxUint64 + 1 + day + i - WindowDays
  {
    (day - (WindowDays - i)) % (MaxUint64 + 1)
  }

  /** `lo` and `hi` are what the window loop leaves for one metric ID: the
      least and greatest probed day that has the marker, or MaxUint64 and 0
      when no probed day has it. */
  predicate IsWindowRange(day: nat, metricId: nat, has: (nat, nat) -> bool, lo: nat, hi: nat)
    requires day <= MaxUint64
  {
    && (forall i :: 0 <= i < WindowDays && has(ProbedDay(day, i), metricId) ==>
          lo <= ProbedDay(day, i) <= hi)
    && ((exists i :: 0 <= i < WindowDays && has(ProbedDay(day, i), metricId)) ==>
          && (exists i :: 0 <= i < WindowDays && has(ProbedDay(day, i), metricId) && ProbedDay(day, i) == lo)
          && (exists i :: 0 <= i < WindowDays && has(ProbedDay(day, i), metricId) && ProbedDay(day, i) == hi))
    && ((forall i :: 0 <= i < WindowDays ==> !has(ProbedDay(day, i), metricId)) ==>
          lo == MaxUint64 && hi == 0)
  }

  /** The inner loop of SearchDaysForMetricsIds for one metric ID. `has(d, m)`
      answers whether day `d` carries a per-day index entry for metric `m` of
      the tenant; the loop also reports the days it probed, in order. */
  method ProbeWindow(day: nat, metricId: nat, has: (nat, nat) -> bool)
      returns (minDay: nat, maxDay: nat, probed: seq<nat>)
    requires day <= MaxUint64
    ensures IsWindowRange(day, metricId, has, minDay, maxDay)
    ensures |probed| == WindowDays
    ensures forall i :: 0 <= i < WindowDays ==> probed[i] == ProbedDay(day, i)
    ensures day >= WindowDays ==> forall i :: 0 <= i < WindowDays ==> probed[i] == day - WindowDays + i
  {
    minDay, maxDay := MaxUint64, 0;
    probed := [];
    var found := false;
    var i := 0;
    while i < WindowDays
      invariant 0 <= i <= WindowDays
      invariant |probed| == i
      invariant forall k :: 0 <= k < i ==> probed[k] == ProbedDay(day, k)
      invariant found <==> exists k :: 0 <= k < i && has(ProbedDay(day, k), metricId)
      invariant forall k :: 0 <= k < i && has(ProbedDay(day, k), metricId) ==>
                  minDay <= ProbedDay(day, k) <= maxDay
      invariant found ==> exists k :: 0 <= k < i && has(ProbedDay(day, k), metricId) && ProbedDay(day, k) == minDay
      invariant found ==> exists k :: 0 <= k < i && has(ProbedDay(day, k), metricId) && ProbedDay(day, k) == maxDay
      invariant !found ==> minDay == MaxUint64 && maxDay == 0
    {
      var d := ProbedDay(day, i);
      probed := probed + [d];
      if has(d, metricId) {
        if d < minDay {
          minDay := d;
        }
        if d > maxDay {
          maxDay := d;
        }
        found := true;
      }
      i := i + 1;
    }
  }

  /** SearchDaysForMetricsIds without the date rendering and logging: one
      (minDay, maxDay) pair per TSID, in order. */
  method SearchDaysForMetricsIds(day: nat, tsids: seq<Tsid>, has: (nat, nat) -> bool)
      returns (ranges: seq<(nat, nat)>)
    requires day <= MaxUint64
    ensures |ranges| == |tsids|
    ensures forall k :: 0 <= k < |tsids| ==>
              IsWindowRange(day, tsids[k].metricId, has, ranges[k].0, ranges[k].1)
  {
    ranges := [];
    var k := 0;
    while k < |tsids|
      invariant 0 <= k <= |tsids|
      invariant |ranges| == k
      invariant forall j :: 0 <= j < k ==> IsWindowRange(day, tsids[j].metricId, has, ranges[j].0, ranges[j].1)
    {
      var lo, hi, _ := ProbeWindow(day, tsids[k].metricId, has);
      ranges := ranges + [(lo, hi)];
      k := k + 1;
    }
  }

  /** When some probed day (the `i`-th) has the marker, the reported range is
      ordered and both of its ends are days that have it. */
  lemma WindowRangeOrdered(day: nat, metricId: nat, has: (nat, nat) -> bool, lo: nat, hi: nat, i: nat)
    requires day <= MaxUint64 && i < WindowDays
    requires has(ProbedDay(day, i), metricId)
    requires IsWindowRange(day, metricId, has, lo, hi)
    ensures lo <= hi
    ensures has(lo, metricId) && has(hi, metricId)
  {
    var a :| 0 <= a < WindowDays && has(ProbedDay(day, a), metricId) && ProbedDay(day, a) == lo;
    var b :| 0 <= b < WindowDays && has(ProbedDay(day, b), metricId) && ProbedDay(day, b) == hi;
  }
}
