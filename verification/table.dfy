/** The forced clean of one merge table (lib/mergeset/table_nebius.go): claim
    every file part no merge owns yet, then, part by part, either give the
    claim back (not enough free disk space) or merge the part on its own, which
    rewrites it without the items of deleted metric IDs. */
module Table {
  import opened Common

  /** A file part and the flag saying a merge owns it. */
  datatype PartWrapper = PartWrapper(path: string, size: nat, inMerge: bool)

  /** The claimed positions (in part-list order) and the flags afterwards. */
  datatype Claim = Claim(claimed: seq<nat>, parts: seq<PartWrapper>)

  /** What a forced clean did: the part list afterwards, the merges it ran
      (each the list of parts merged together) and the claims it gave back. */
  datatype CleanReport = CleanReport(parts: seq<PartWrapper>, merges: seq<seq<nat>>, released: seq<nat>)

  /** The decisions of the clean loop: merges run and claims given back. */
  datatype Plan = Plan(merges: seq<seq<nat>>, released: seq<nat>)

  predicate StrictlyIncreasing(xs: seq<nat>)
  {
    forall i, j :: 0 <= i < j < |xs| ==> xs[i] < xs[j]
  }

  /** The positions the claim loop takes from `from` on: those of parts no
      merge owns yet, in list order. */
  function FreePositions(parts: seq<PartWrapper>, from: nat): (r: seq<nat>)
    requires from <= |parts|
    ensures forall i :: 0 <= i < |r| ==> from <= r[i] < |parts| && !parts[r[i]].inMerge
    ensures forall k: nat :: from <= k < |parts| && !parts[k].inMerge ==> k in r
    ensures StrictlyIncreasing(r)
    ensures (forall k :: from <= k < |parts| ==> parts[k].inMerge) ==> r == []
    decreases |parts| - from
  {
    if from == |parts| then []
    else
      var rest := FreePositions(parts, from + 1);
      if parts[from].inMerge then rest
      else
        var r := [from] + rest;
        assert forall i :: 0 < i < |r| ==> r[i] == rest[i - 1];
        r
  }

  /** getFilePartsForMerge: every part not in a merge is claimed, in part-list
      order, and afterwards every part is in a merge; the list itself (paths
      and sizes) is untouched. */
  function GetFilePartsForMerge(parts: seq<PartWrapper>): (r: Claim)
    ensures |r.parts| == |parts|
    ensures forall i :: 0 <= i < |parts| ==> r.parts[i] == parts[i].(inMerge := true)
    ensures forall k: nat :: k in r.claimed <==> k < |parts| && !parts[k].inMerge
    ensures ClaimsWithin(r.claimed, |parts|)
    ensures StrictlyIncreasing(r.claimed)
    ensures (forall k :: 0 <= k < |parts| ==> parts[k].inMerge) ==> r.claimed == []
  {
    var claimed := FreePositions(parts, 0);
    assert forall k: nat :: k in claimed ==> k < |parts| && !parts[k].inMerge by {
      forall k: nat | k in claimed
        ensures k < |parts| && !parts[k].inMerge
      {
        var i :| 0 <= i < |claimed| && claimed[i] == k;
      }
    }
    Claim(claimed, seq(|parts|, i requires 0 <= i < |parts| => parts[i].(inMerge := true)))
  }

  /** With no release in between, a second claim finds nothing. */
  lemma SecondClaimIsEmpty(parts: seq<PartWrapper>)
    ensures GetFilePartsForMerge(GetFilePartsForMerge(parts).parts).claimed == []
  {
    var p1 := GetFilePartsForMerge(parts).parts;
    assert forall k :: 0 <= k < |p1| ==> p1[k].inMerge;
  }

  /** Claims are held on positions of the part list. */
  predicate ClaimsWithin(claimed: seq<nat>, n: nat)
  {
    forall i :: 0 <= i < |claimed| ==> claimed[i] < n
  }

  /** The loop over the claimed parts from the `j`-th on. `freeSpace(j)` is
      the free disk space read at the `j`-th iteration; `mergeOk(k)` says
      whether merging part `k` succeeds. */
  function CleanFrom(parts: seq<PartWrapper>, claimed: seq<nat>, j: nat,
                     freeSpace: nat -> nat, mergeOk: nat -> bool): (r: Outcome<Plan>)
    requires j <= |claimed| && ClaimsWithin(claimed, |parts|)
    ensures !r.Err?
    ensures r.Ok? ==> forall m :: m in r.value.merges ==> |m| == 1 && m[0] in claimed[j..]
    ensures r.Ok? ==> forall k :: k in r.value.released ==> k in claimed[j..]
    decreases |claimed| - j
  {
    if j == |claimed| then Ok(Plan([], []))
    else
      var k := claimed[j];
      if parts[k].size <= freeSpace(j) && !mergeOk(k) then
        Fatal("cannot force merge 1 part " + parts[k].path)
      else
        var rest := CleanFrom(parts, claimed, j + 1, freeSpace, mergeOk);
        if !rest.Ok? then rest
        else
          var plan := rest.value;
          assert claimed[j..] == [k] + claimed[j + 1..];
          if parts[k].size > freeSpace(j) then Ok(plan.(released := [k] + plan.released))
          else Ok(plan.(merges := [[k]] + plan.merges))
  }

  /** The claimed part at the `i`-th iteration fits the free space read for it
      but fails to merge. */
  predicate MergeFailsAt(parts: seq<PartWrapper>, claimed: seq<nat>, i: nat,
                         freeSpace: nat -> nat, mergeOk: nat -> bool)
    requires i < |claimed| && ClaimsWithin(claimed, |parts|)
  {
    parts[claimed[i]].size <= freeSpace(i) && !mergeOk(claimed[i])
  }

  /** Some claimed part from the `j`-th on fits the free space read for it but
      fails to merge. */
  predicate MergeFailsFrom(parts: seq<PartWrapper>, claimed: seq<nat>, j: nat,
                           freeSpace: nat -> nat, mergeOk: nat -> bool)
    requires ClaimsWithin(claimed, |parts|)
  {
    exists i: nat :: j <= i < |claimed| && MergeFailsAt(parts, claimed, i, freeSpace, mergeOk)
  }

  /** The loop aborts exactly when a part that fits the free space read for
      it fails to merge. */
  lemma {:induction false} CleanFromAborts(parts: seq<PartWrapper>, claimed: seq<nat>, j: nat,
                                           freeSpace: nat -> nat, mergeOk: nat -> bool)
    requires j <= |claimed| && ClaimsWithin(claimed, |parts|)
    ensures CleanFrom(parts, claimed, j, freeSpace, mergeOk).Fatal? <==>
              MergeFailsFrom(parts, claimed, j, freeSpace, mergeOk)
    decreases |claimed| - j
  {
    if j < |claimed| {
      var here := MergeFailsAt(parts, claimed, j, freeSpace, mergeOk);
      CleanFromAborts(parts, claimed, j + 1, freeSpace, mergeOk);
    }
  }

  /** When it completes, each claimed part gets exactly one decision. */
  lemma {:induction false} CleanFromCount(parts: seq<PartWrapper>, claimed: seq<nat>, j: nat,
                                          freeSpace: nat -> nat, mergeOk: nat -> bool)
    requires j <= |claimed| && ClaimsWithin(claimed, |parts|)
    ensures var r := CleanFrom(parts, claimed, j, freeSpace, mergeOk);
      r.Ok? ==> |r.value.merges| + |r.value.released| == |claimed| - j
    decreases |claimed| - j
  {
    if j < |claimed| {
      CleanFromCount(parts, claimed, j + 1, freeSpace, mergeOk);
    }
  }

  /** Over strictly increasing claims, a completed loop merges a claimed part
      alone exactly when it fits the free space read for it, and releases it
      exactly when it does not. */
  lemma {:induction false} CleanFromDecisions(parts: seq<PartWrapper>, claimed: seq<nat>, j: nat,
                                              freeSpace: nat -> nat, mergeOk: nat -> bool)
    requires j <= |claimed| && ClaimsWithin(claimed, |parts|) && StrictlyIncreasing(claimed)
    ensures var r := CleanFrom(parts, claimed, j, freeSpace, mergeOk);
      r.Ok? ==> forall i :: j <= i < |claimed| ==>
        && ([claimed[i]] in r.value.merges <==> parts[claimed[i]].size <= freeSpace(i))
        && (claimed[i] in r.value.released <==> parts[claimed[i]].size > freeSpace(i))
    decreases |claimed| - j
  {
    if j < |claimed| {
      var k := claimed[j];
      var rest := CleanFrom(parts, claimed, j + 1, freeSpace, mergeOk);
      if !(parts[k].size <= freeSpace(j) && !mergeOk(k)) && rest.Ok? {
        CleanFromDecisions(parts, claimed, j + 1, freeSpace, mergeOk);
        LaterClaimsDiffer(claimed, j);
        HeadNotInRest(claimed, j, rest.value);
      }
    }
  }

  lemma LaterClaimsDiffer(claimed: seq<nat>, j: nat)
    requires j < |claimed| && StrictlyIncreasing(claimed)
    ensures forall i :: j < i < |claimed| ==> claimed[i] != claimed[j] && [claimed[i]] != [claimed[j]]
  {
    forall i | j < i < |claimed|
      ensures claimed[i] != claimed[j] && [claimed[i]] != [claimed[j]]
    {
      assert claimed[j] < claimed[i];
      assert [claimed[i]][0] != [claimed[j]][0];
    }
  }

  lemma HeadNotInRest(claimed: seq<nat>, j: nat, plan: Plan)
    requires j < |claimed| && StrictlyIncreasing(claimed)
    requires forall m :: m in plan.merges ==> |m| == 1 && m[0] in claimed[j + 1..]
    requires forall k :: k in plan.released ==> k in claimed[j + 1..]
    ensures [claimed[j]] !in plan.merges && claimed[j] !in plan.released
  {
    assert forall i :: j < i < |claimed| ==> claimed[j] < claimed[i];
    assert claimed[j] !in claimed[j + 1..];
    forall m | m in plan.merges
      ensures m != [claimed[j]]
    {
      assert m[0] != [claimed[j]][0];
    }
  }

  /** releasePartsToMerge for the released positions: their flag is cleared. */
  function ReleaseParts(parts: seq<PartWrapper>, released: seq<nat>): (r: seq<PartWrapper>)
    ensures |r| == |parts|
    ensures forall k :: 0 <= k < |parts| ==>
              && r[k].path == parts[k].path && r[k].size == parts[k].size
              && r[k].inMerge == (parts[k].inMerge && k !in released)
  {
    seq(|parts|, k requires 0 <= k < |parts| => if k in released then parts[k].(inMerge := false) else parts[k])
  }

  /** ForceCleanAllParts, run sequentially: claim all free parts; with none,
      return at once; otherwise each claimed part whose size exceeds the free
      space read for it is released, and every other one is merged on its own.
      A failed merge aborts the process; no error is ever returned. */
  function ForceCleanAllParts(parts: seq<PartWrapper>, freeSpace: nat -> nat, mergeOk: nat -> bool): (r: Outcome<CleanReport>)
    ensures !r.Err?
    ensures (forall k :: 0 <= k < |parts| ==> parts[k].inMerge) ==> r == Ok(CleanReport(parts, [], []))
    ensures r.Ok? ==>
      && |r.value.parts| == |parts|
      && forall k :: 0 <= k < |parts| ==>
           && r.value.parts[k].path == parts[k].path && r.value.parts[k].size == parts[k].size
           && (r.value.parts[k].inMerge <==> k !in r.value.released)
  {
    var c := GetFilePartsForMerge(parts);
    if |c.claimed| == 0 then
      assert forall k :: 0 <= k < |parts| ==> parts[k].inMerge;
      assert c.parts == parts;
      Ok(CleanReport(c.parts, [], []))
    else
      var loop := CleanFrom(c.parts, c.claimed, 0, freeSpace, mergeOk);
      if loop.Ok? then
        Ok(CleanReport(ReleaseParts(c.parts, loop.value.released), loop.value.merges, loop.value.released))
      else Propagate(loop)
  }

  /** The forced clean aborts exactly when a claimed part that fits the free
      space read for it fails to merge. */
  lemma ForceCleanAborts(parts: seq<PartWrapper>, freeSpace: nat -> nat, mergeOk: nat -> bool)
    ensures var claimed := GetFilePartsForMerge(parts).claimed;
      ForceCleanAllParts(parts, freeSpace, mergeOk).Fatal? <==> MergeFailsFrom(parts, claimed, 0, freeSpace, mergeOk)
  {
    var c := GetFilePartsForMerge(parts);
    if |c.claimed| > 0 {
      assert ForceCleanAllParts(parts, freeSpace, mergeOk).Fatal? ==
             CleanFrom(c.parts, c.claimed, 0, freeSpace, mergeOk).Fatal?;
      CleanFromAborts(c.parts, c.claimed, 0, freeSpace, mergeOk);
      SameSizes(parts, c.claimed, c.parts);
      AbortWitnessesAgree(parts, c.claimed, c.parts, freeSpace, mergeOk);
    }
  }

  lemma SameSizes(parts: seq<PartWrapper>, claimed: seq<nat>, flagged: seq<PartWrapper>)
    requires |flagged| == |parts| && ClaimsWithin(claimed, |parts|)
    requires forall k :: 0 <= k < |parts| ==> flagged[k] == parts[k].(inMerge := true)
    ensures forall i :: 0 <= i < |claimed| ==> flagged[claimed[i]].size == parts[claimed[i]].size
  {
  }

  lemma AbortWitnessesAgree(parts: seq<PartWrapper>, claimed: seq<nat>, flagged: seq<PartWrapper>,
                            freeSpace: nat -> nat, mergeOk: nat -> bool)
    requires |flagged| == |parts| && ClaimsWithin(claimed, |parts|)
    requires forall i :: 0 <= i < |claimed| ==> flagged[claimed[i]].size == parts[claimed[i]].size
    ensures MergeFailsFrom(flagged, claimed, 0, freeSpace, mergeOk) <==> MergeFailsFrom(parts, claimed, 0, freeSpace, mergeOk)
  {
    if exists i: nat :: 0 <= i < |claimed| && MergeFailsAt(flagged, claimed, i, freeSpace, mergeOk) {
      var i: nat :| 0 <= i < |claimed| && MergeFailsAt(flagged, claimed, i, freeSpace, mergeOk);
      assert MergeFailsAt(parts, claimed, i, freeSpace, mergeOk);
    }
    if exists i: nat :: i < |claimed| && MergeFailsAt(parts, claimed, i, freeSpace, mergeOk) {
      var i: nat :| i < |claimed| && MergeFailsAt(parts, claimed, i, freeSpace, mergeOk);
      assert MergeFailsAt(flagged, claimed, i, freeSpace, mergeOk);
    }
  }

  /** When it completes, every claimed part is merged once, alone, exactly
      when it fits the free space read for it, and released otherwise. */
  lemma ForceCleanDecisions(parts: seq<PartWrapper>, freeSpace: nat -> nat, mergeOk: nat -> bool)
    ensures var claimed := GetFilePartsForMerge(parts).claimed;
      var r := ForceCleanAllParts(parts, freeSpace, mergeOk);
      r.Ok? ==>
        && (forall m :: m in r.value.merges ==> |m| == 1 && m[0] in claimed)
        && (forall k :: k in r.value.released ==> k in claimed)
        && |r.value.merges| + |r.value.released| == |claimed|
        && (forall i :: 0 <= i < |claimed| ==>
              && ([claimed[i]] in r.value.merges <==> parts[claimed[i]].size <= freeSpace(i))
              && (claimed[i] in r.value.released <==> parts[claimed[i]].size > freeSpace(i)))
  {
    var c := GetFilePartsForMerge(parts);
    if |c.claimed| > 0 {
      CleanFromCount(c.parts, c.claimed, 0, freeSpace, mergeOk);
      CleanFromDecisions(c.parts, c.claimed, 0, freeSpace, mergeOk);
      assert c.claimed[0..] == c.claimed;
    }
  }
}
