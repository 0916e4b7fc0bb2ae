/** The index side of the purge (lib/storage/index_db_nebius.go): the filter a
    merge applies to drop items that reference deleted metric IDs, with the
    repacking of the surviving items into one buffer, and the prefix scan that
    lists a tenant's TSIDs. */
module IndexDb {
  import opened Common

  /** The index relations, each stored under its own one-byte prefix. */
  datatype Namespace =
    | MetricIdToTsid | MetricIdToMetricName | DateToMetricId
    | MetricNameToTsid | DateMetricNameToTsid
    | TagToMetricIds | DateTagToMetricIds | DeletedMetricId

  /** The key layout this filter reads, defined by parts of the storage layer
      outside this model: the prefix byte of each namespace, the length of the
      common prefix (namespace byte plus tenant), the size of a marshaled TSID,
      and the TSID decoder, which returns the TSID and the unread tail. */
  datatype Schema = Schema(
    prefix: Namespace -> byte,
    commonPrefixLen: nat,
    marshaledTsidSize: nat,
    unmarshalTsid: seq<byte> -> Option<(Tsid, seq<byte>)>)

  /** Distinct namespaces have distinct prefix bytes (Go refuses a switch with
      two equal constant cases). */
  predicate WellFormed(s: Schema)
  {
    forall a: Namespace, b: Namespace :: s.prefix(a) == s.prefix(b) ==> a == b
  }

  /** encoding.UnmarshalUint64: the big-endian value of the first eight bytes. */
  function Uint64At(item: Key, offset: nat): (r: Option<nat>)
    ensures r.Some? <==> offset + 8 <= |item|
  {
    if offset + 8 <= |item| then Some(BeUint(item[offset..offset + 8])) else None
  }

  /** Whether the filter keeps one item, dispatching on its first byte as the
      source's switch does. A missing first byte, a short key, an undecodable
      TSID, a TSID with bytes left over and an unknown prefix all abort. */
  function Keep(s: Schema, deleted: set<nat>, item: Key): (r: Outcome<bool>)
    ensures !r.Err?
    ensures |item| == 0 ==> r.Fatal?
  {
    if |item| == 0 then
      Fatal("index out of range: empty item")
    else
      var p := item[0];
      if p == s.prefix(MetricIdToTsid) || p == s.prefix(MetricIdToMetricName) then
        match Uint64At(item, s.commonPrefixLen)
        case Some(metricId) => Ok(metricId !in deleted)
        case None => Fatal("index out of range: item too short for a metric ID")
      else if p == s.prefix(DateToMetricId) then
        match Uint64At(item, s.commonPrefixLen + 8)
        case Some(metricId) => Ok(metricId !in deleted)
        case None => Fatal("index out of range: item too short for a metric ID")
      else if p == s.prefix(MetricNameToTsid) || p == s.prefix(DateMetricNameToTsid) then
        if |item| < s.marshaledTsidSize then
          Fatal("slice bounds out of range: item shorter than a TSID")
        else
          match s.unmarshalTsid(item[|item| - s.marshaledTsidSize..])
          case None => Fatal("FATAL: cannot unmarshal TSID from item")
          case Some((tsid, tail)) =>
            if |tail| > 0 then Fatal("FATAL: unexpected tail when unmarshaling TSID from item")
            else Ok(tsid.metricId !in deleted)
      else if p == s.prefix(TagToMetricIds) || p == s.prefix(DateTagToMetricIds) || p == s.prefix(DeletedMetricId) then
        Ok(true)
      else
        Fatal("BUG: unexpected prefix")
  }

  /** metricID -> TSID and metricID -> metric name items are dropped exactly
      when the uint64 right after the common prefix is a deleted metric ID. */
  lemma MetricIdKeyRule(s: Schema, deleted: set<nat>, item: Key)
    requires WellFormed(s) && |item| > 0
    requires item[0] == s.prefix(MetricIdToTsid) || item[0] == s.prefix(MetricIdToMetricName)
    ensures s.commonPrefixLen + 8 <= |item| ==>
              Keep(s, deleted, item) == Ok(BeUint(item[s.commonPrefixLen..s.commonPrefixLen + 8]) !in deleted)
    ensures s.commonPrefixLen + 8 > |item| ==> Keep(s, deleted, item).Fatal?
  {
  }

  /** date -> metricID items are dropped exactly when the uint64 after the
      common prefix and the 8-byte date is a deleted metric ID. */
  lemma DateMetricIdKeyRule(s: Schema, deleted: set<nat>, item: Key)
    requires WellFormed(s) && |item| > 0 && item[0] == s.prefix(DateToMetricId)
    ensures s.commonPrefixLen + 16 <= |item| ==>
              Keep(s, deleted, item) == Ok(BeUint(item[s.commonPrefixLen + 8..s.commonPrefixLen + 16]) !in deleted)
    ensures s.commonPrefixLen + 16 > |item| ==> Keep(s, deleted, item).Fatal?
  {
    assert s.prefix(DateToMetricId) != s.prefix(MetricIdToTsid);
    assert s.prefix(DateToMetricId) != s.prefix(MetricIdToMetricName);
  }

  /** name -> TSID and date+name -> TSID items are dropped exactly when the
      TSID in their last marshaledTsidSize bytes has a deleted metric ID; a
      TSID that does not decode, or leaves bytes over, aborts. */
  lemma NameTsidKeyRule(s: Schema, deleted: set<nat>, item: Key)
    requires WellFormed(s) && |item| > 0
    requires item[0] == s.prefix(MetricNameToTsid) || item[0] == s.prefix(DateMetricNameToTsid)
    ensures |item| < s.marshaledTsidSize ==> Keep(s, deleted, item).Fatal?
    ensures |item| >= s.marshaledTsidSize ==>
              match s.unmarshalTsid(item[|item| - s.marshaledTsidSize..])
              case None => Keep(s, deleted, item).Fatal?
              case Some((tsid, tail)) =>
                if |tail| > 0 then Keep(s, deleted, item).Fatal?
                else Keep(s, deleted, item) == Ok(tsid.metricId !in deleted)
  {
    var p := item[0];
    assert p != s.prefix(MetricIdToTsid) && p != s.prefix(MetricIdToMetricName) && p != s.prefix(DateToMetricId);
  }

  /** tag -> metricIDs, date+tag -> metricIDs and deleted-metricID items are
      always kept. */
  lemma AlwaysKeptRule(s: Schema, deleted: set<nat>, item: Key)
    requires WellFormed(s) && |item| > 0
    requires item[0] == s.prefix(TagToMetricIds) || item[0] == s.prefix(DateTagToMetricIds)
             || item[0] == s.prefix(DeletedMetricId)
    ensures Keep(s, deleted, item) == Ok(true)
  {
    var p := item[0];
    assert p != s.prefix(MetricIdToTsid) && p != s.prefix(MetricIdToMetricName) && p != s.prefix(DateToMetricId);
    assert p != s.prefix(MetricNameToTsid) && p != s.prefix(DateMetricNameToTsid);
  }

  /** An item whose first byte is no namespace's prefix aborts the filter. */
  lemma UnknownPrefixRule(s: Schema, deleted: set<nat>, item: Key)
    requires |item| > 0 && forall ns: Namespace :: item[0] != s.prefix(ns)
    ensures Keep(s, deleted, item).Fatal?
  {
    assert item[0] != s.prefix(MetricIdToTsid) && item[0] != s.prefix(MetricIdToMetricName);
    assert item[0] != s.prefix(DateToMetricId);
    assert item[0] != s.prefix(MetricNameToTsid) && item[0] != s.prefix(DateMetricNameToTsid);
    assert item[0] != s.prefix(TagToMetricIds) && item[0] != s.prefix(DateTagToMetricIds);
    assert item[0] != s.prefix(DeletedMetricId);
  }

  /** The filtering loop over the items in order: the first item that aborts
      aborts the whole filter. */
  function FilterItems(s: Schema, deleted: set<nat>, xs: seq<Key>): (r: Outcome<seq<Key>>)
    ensures !r.Err?
    ensures r.Ok? <==> forall i :: 0 <= i < |xs| ==> Keep(s, deleted, xs[i]).Ok?
    ensures r.Ok? ==> IsSubsequence(r.value, xs)
    ensures r.Ok? ==> forall x :: x in r.value <==> x in xs && Keep(s, deleted, x) == Ok(true)
  {
    if |xs| == 0 then Ok([])
    else
      var verdict := Keep(s, deleted, xs[0]);
      if !verdict.Ok? then Propagate(verdict)
      else
        var rest := FilterItems(s, deleted, xs[1..]);
        if !rest.Ok? then
          assert exists i :: 0 <= i < |xs[1..]| && !Keep(s, deleted, xs[1..][i]).Ok?;
          rest
        else
          assert xs == [xs[0]] + xs[1..];
          assert IsSubsequence(rest.value, xs) by {
            if |rest.value| > 0 {
              assert xs[1..] == xs[1..];
            }
          }
          Ok(if verdict.value then [xs[0]] + rest.value else rest.value)
  }

  /** The filter keeps every copy of a kept item and no copy of a dropped
      one. */
  lemma {:induction false} FilterCounts(s: Schema, deleted: set<nat>, xs: seq<Key>)
    requires FilterItems(s, deleted, xs).Ok?
    ensures forall x :: multiset(FilterItems(s, deleted, xs).value)[x] ==
                          if Keep(s, deleted, x) == Ok(true) then multiset(xs)[x] else 0
  {
    if |xs| > 0 {
      FilterCounts(s, deleted, xs[1..]);
      assert xs == [xs[0]] + xs[1..];
    }
  }

  /** An item keeps its own verdict: filtering items that all pass gives them
      back unchanged. */
  lemma {:induction false} FilterFixpoint(s: Schema, deleted: set<nat>, xs: seq<Key>)
    requires forall x :: x in xs ==> Keep(s, deleted, x) == Ok(true)
    ensures FilterItems(s, deleted, xs) == Ok(xs)
  {
    if |xs| > 0 {
      FilterFixpoint(s, deleted, xs[1..]);
      assert xs == [xs[0]] + xs[1..];
    }
  }

  // ---------------------------------------------------------------------------
  // Packed item buffers (mergeset.Item offsets into one data buffer)
  // ---------------------------------------------------------------------------

  /** The half-open span [start, end) of one item in a data buffer. */
  datatype Item = Item(start: nat, end: nat)

  datatype Packed = Packed(data: seq<byte>, items: seq<Item>)

  predicate ItemsWithin(data: seq<byte>, items: seq<Item>)
  {
    forall i :: 0 <= i < |items| ==> items[i].start <= items[i].end <= |data|
  }

  /** The buffer holds the items back to back: the first starts at 0, each
      starts where the previous one ends, and the last ends the buffer. */
  predicate Contiguous(p: Packed)
  {
    && ItemsWithin(p.data, p.items)
    && (|p.items| == 0 ==> |p.data| == 0)
    && (|p.items| > 0 ==> p.items[0].start == 0 && p.items[|p.items| - 1].end == |p.data|)
    && (forall i :: 0 <= i < |p.items| - 1 ==> p.items[i].end == p.items[i + 1].start)
  }

  /** The byte strings a buffer and its spans denote (Item.Bytes). */
  function Unpack(data: seq<byte>, items: seq<Item>): (r: seq<Key>)
    requires ItemsWithin(data, items)
    ensures |r| == |items|
  {
    seq(|items|, i requires 0 <= i < |items| => data[items[i].start..items[i].end])
  }

  /** The repacking loop: append each item's bytes to the buffer and record
      its span. */
  function Pack(xs: seq<Key>): (r: Packed)
    ensures Contiguous(r)
    ensures Unpack(r.data, r.items) == xs
  {
    if |xs| == 0 then Packed([], [])
    else
      var p := Pack(xs[..|xs| - 1]);
      var x := xs[|xs| - 1];
      var r := Packed(p.data + x, p.items + [Item(|p.data|, |p.data| + |x|)]);
      PackStep(p, x, xs, r);
      r
  }

  lemma PackStep(p: Packed, x: Key, xs: seq<Key>, r: Packed)
    requires |xs| > 0 && x == xs[|xs| - 1]
    requires Contiguous(p) && Unpack(p.data, p.items) == xs[..|xs| - 1]
    requires r == Packed(p.data + x, p.items + [Item(|p.data|, |p.data| + |x|)])
    ensures Contiguous(r) && Unpack(r.data, r.items) == xs
  {
    var u := Unpack(r.data, r.items);
    forall i | 0 <= i < |xs|
      ensures u[i] == xs[i]
    {
      if i < |xs| - 1 {
        assert r.items[i] == p.items[i];
        assert r.data[p.items[i].start..p.items[i].end] == p.data[p.items[i].start..p.items[i].end];
        assert Unpack(p.data, p.items)[i] == xs[i];
      } else {
        assert r.data[|p.data|..|p.data| + |x|] == x;
      }
    }
  }

  /** removeDeletedIndexEntries: with no deleted metric IDs the buffer and the
      spans come back untouched; otherwise the surviving items are repacked. */
  function RemoveDeletedIndexEntries(s: Schema, data: seq<byte>, items: seq<Item>, deleted: set<nat>): (r: Outcome<Packed>)
    requires ItemsWithin(data, items)
    ensures !r.Err?
    ensures deleted == {} ==> r == Ok(Packed(data, items))
    ensures deleted != {} ==>
              (r.Ok? <==> forall i :: 0 <= i < |items| ==> Keep(s, deleted, Unpack(data, items)[i]).Ok?)
    ensures deleted != {} && r.Ok? ==> Contiguous(r.value)
    ensures deleted != {} && r.Ok? ==> IsSubsequence(Unpack(r.value.data, r.value.items), Unpack(data, items))
    ensures deleted != {} && r.Ok? ==> forall x :: x in Unpack(r.value.data, r.value.items) <==>
              x in Unpack(data, items) && Keep(s, deleted, x) == Ok(true)
    ensures deleted != {} && r.Ok? ==>
              forall x :: multiset(Unpack(r.value.data, r.value.items))[x] ==
                            if Keep(s, deleted, x) == Ok(true) then multiset(Unpack(data, items))[x] else 0
  {
    if deleted == {} then Ok(Packed(data, items))
    else
      var kept := FilterItems(s, deleted, Unpack(data, items));
      if kept.Ok? then
        FilterCounts(s, deleted, Unpack(data, items));
        Ok(Pack(kept.value))
      else Propagate(kept)
  }

  /** Filtering is idempotent: a second pass with the same deleted set finds
      nothing more to drop and repacks to the same buffer. */
  lemma RemoveDeletedIdempotent(s: Schema, data: seq<byte>, items: seq<Item>, deleted: set<nat>)
    requires ItemsWithin(data, items)
    requires RemoveDeletedIndexEntries(s, data, items, deleted).Ok?
    ensures var once := RemoveDeletedIndexEntries(s, data, items, deleted).value;
      ItemsWithin(once.data, once.items)
      && RemoveDeletedIndexEntries(s, once.data, once.items, deleted) == Ok(once)
  {
    if deleted != {} {
      var kept := FilterItems(s, deleted, Unpack(data, items)).value;
      FilterFixpoint(s, deleted, kept);
    }
  }

  // ---------------------------------------------------------------------------
  // GetTSIDs: the prefix scan of the metricID -> TSID namespace
  // ---------------------------------------------------------------------------

  /** A seek (the table search's `ts.Seek` in GetTSIDs, and the part search's
      `partSearch.Seek`): the position of the first item at or after `key`. */
  function LowerBound(items: seq<Key>, key: Key): (r: nat)
    ensures r <= |items|
    ensures forall j :: 0 <= j < r ==> !LexLe(key, items[j])
    ensures r < |items| ==> LexLe(key, items[r])
  {
    if |items| == 0 then 0
    else if LexLe(key, items[0]) then 0
    else 1 + LowerBound(items[1..], key)
  }

  /** A seek for an item stored in the sequence never lands past it: the
      item itself is at or after the key. */
  lemma SeekFindsStoredItem(items: seq<Key>, i: nat)
    requires i < |items|
    ensures LowerBound(items, items[i]) <= i
  {
    LexLeReflexive(items[i]);
  }

  /** Where the run of items carrying `prefix` that begins at `from` ends. */
  function RunEnd(items: seq<Key>, from: nat, prefix: Key): (r: nat)
    requires from <= |items|
    ensures from <= r <= |items|
    ensures forall k :: from <= k < r ==> HasPrefix(items[k], prefix)
    ensures r < |items| ==> !HasPrefix(items[r], prefix)
    decreases |items| - from
  {
    if from == |items| || !HasPrefix(items[from], prefix) then from
    else RunEnd(items, from + 1, prefix)
  }

  /** The TSID stored in a metricID -> TSID item: the bytes after the common
      prefix and the 8-byte metric ID, which must decode with nothing left. */
  function DecodeTsid(s: Schema, prefixLen: nat, item: Key): (r: Outcome<Tsid>)
    ensures !r.Err?
    ensures r.Ok? <==> && |item| >= prefixLen + 8
                       && s.unmarshalTsid(item[prefixLen + 8..]).Some?
                       && |s.unmarshalTsid(item[prefixLen + 8..]).value.1| == 0
    ensures r.Ok? ==> r.value == s.unmarshalTsid(item[prefixLen + 8..]).value.0
  {
    if |item| < prefixLen + 8 then Fatal("slice bounds out of range: item too short")
    else
      match s.unmarshalTsid(item[prefixLen + 8..])
      case None => Fatal("FATAL: cannot unmarshal the found TSID")
      case Some((tsid, tail)) =>
        if |tail| > 0 then Fatal("FATAL: unexpected non-zero tail left after unmarshaling TSID")
        else Ok(tsid)
  }

  /** Decodes items in order; the first failure aborts. */
  function DecodeTsids(s: Schema, prefixLen: nat, xs: seq<Key>): (r: Outcome<seq<Tsid>>)
    ensures !r.Err?
    ensures r.Ok? <==> forall i :: 0 <= i < |xs| ==> DecodeTsid(s, prefixLen, xs[i]).Ok?
    ensures r.Ok? ==> |r.value| == |xs| && forall i :: 0 <= i < |xs| ==> DecodeTsid(s, prefixLen, xs[i]) == Ok(r.value[i])
  {
    if |xs| == 0 then Ok([])
    else
      var init := DecodeTsids(s, prefixLen, xs[..|xs| - 1]);
      if !init.Ok? then init
      else
        var last := DecodeTsid(s, prefixLen, xs[|xs| - 1]);
        if last.Ok? then Ok(init.value + [last.value]) else Propagate(last)
  }

  lemma {:induction false} DecodeTsidsFatalSticks(s: Schema, prefixLen: nat, xs: seq<Key>, ys: seq<Key>)
    requires DecodeTsids(s, prefixLen, xs).Fatal?
    ensures DecodeTsids(s, prefixLen, xs + ys) == DecodeTsids(s, prefixLen, xs)
    decreases |ys|
  {
    if |ys| == 0 {
      assert xs + ys == xs;
    } else {
      var zs := xs + ys;
      assert zs[..|zs| - 1] == xs + ys[..|ys| - 1];
      DecodeTsidsFatalSticks(s, prefixLen, xs, ys[..|ys| - 1]);
    }
  }

  /** What GetTSIDs computes: seek to the tenant's prefix, decode the run of
      items carrying it, and report an iteration error (other than clean
      exhaustion) when the scan ran off the end of the items. */
  function ScanTsids(s: Schema, items: seq<Key>, iterError: Option<string>, prefix: Key): Outcome<seq<Tsid>>
  {
    var start := LowerBound(items, prefix);
    var end := RunEnd(items, start, prefix);
    match DecodeTsids(s, |prefix|, items[start..end])
    case Ok(tsids) =>
      if end == |items| && iterError.Some? then Err("cannot search for metricIDs in indexDB: " + iterError.value)
      else Ok(tsids)
    case failure => failure
  }

  lemma DecodeTsidsStep(s: Schema, prefixLen: nat, items: seq<Key>, start: nat, i: nat, tsids: seq<Tsid>)
    requires start <= i < |items|
    requires DecodeTsids(s, prefixLen, items[start..i]) == Ok(tsids)
    ensures var t := DecodeTsid(s, prefixLen, items[i]);
      && (t.Ok? ==> DecodeTsids(s, prefixLen, items[start..i + 1]) == Ok(tsids + [t.value]))
      && (t.Fatal? ==> DecodeTsids(s, prefixLen, items[start..i + 1]) == Fatal(t.msg))
  {
    var xs := items[start..i + 1];
    assert xs[..|xs| - 1] == items[start..i];
    assert xs[|xs| - 1] == items[i];
  }

  lemma DecodeTsidsAbort(s: Schema, prefixLen: nat, items: seq<Key>, start: nat, i: nat, end: nat)
    requires start <= i < end <= |items|
    requires DecodeTsids(s, prefixLen, items[start..i + 1]).Fatal?
    ensures DecodeTsids(s, prefixLen, items[start..end]) == DecodeTsids(s, prefixLen, items[start..i + 1])
  {
    DecodeTsidsFatalSticks(s, prefixLen, items[start..i + 1], items[i + 1..end]);
    assert items[start..i + 1] + items[i + 1..end] == items[start..end];
  }

  /** GetTSIDs over a table search positioned on `items`; `iterError` is the
      error the search reports once it has yielded its last item, if any. */
  method GetTsids(s: Schema, items: seq<Key>, iterError: Option<string>, prefix: Key) returns (r: Outcome<seq<Tsid>>)
    ensures r == ScanTsids(s, items, iterError, prefix)
  {
    ghost var start := LowerBound(items, prefix);
    ghost var end := RunEnd(items, start, prefix);
    var i := LowerBound(items, prefix);
    var tsids: seq<Tsid> := [];
    var stopped := false;
    assert items[start..i] == [];
    while i < |items|
      invariant start <= i <= end
      invariant DecodeTsids(s, |prefix|, items[start..i]) == Ok(tsids)
      invariant stopped ==> i == end < |items|
      decreases |items| - i
    {
      var item := items[i];
      if !HasPrefix(item, prefix) {
        stopped := true;
        break;
      }
      var t := DecodeTsid(s, |prefix|, item);
      DecodeTsidsStep(s, |prefix|, items, start, i, tsids);
      if !t.Ok? {
        DecodeTsidsAbort(s, |prefix|, items, start, i, end);
        return Fatal(t.msg);
      }
      tsids := tsids + [t.value];
      i := i + 1;
    }
    if !stopped && iterError.Some? {
      return Err("cannot search for metricIDs in indexDB: " + iterError.value);
    }
    return Ok(tsids);
  }

  // ---------------------------------------------------------------------------
  // Over a sorted part the scan finds every item carrying the prefix
  // ---------------------------------------------------------------------------

  /** The items carrying `prefix`, in order. */
  function WithPrefix(items: seq<Key>, prefix: Key): seq<Key>
  {
    if |items| == 0 then []
    else (if HasPrefix(items[0], prefix) then [items[0]] else []) + WithPrefix(items[1..], prefix)
  }

  lemma {:induction false} WithPrefixAppend(a: seq<Key>, b: seq<Key>, prefix: Key)
    ensures WithPrefix(a + b, prefix) == WithPrefix(a, prefix) + WithPrefix(b, prefix)
  {
    if |a| == 0 {
      assert a + b == b;
    } else {
      assert (a + b)[1..] == a[1..] + b;
      WithPrefixAppend(a[1..], b, prefix);
    }
  }

  lemma {:induction false} WithPrefixAll(xs: seq<Key>, prefix: Key)
    requires forall k :: 0 <= k < |xs| ==> HasPrefix(xs[k], prefix)
    ensures WithPrefix(xs, prefix) == xs
  {
    if |xs| > 0 {
      WithPrefixAll(xs[1..], prefix);
    }
  }

  lemma {:induction false} WithPrefixNone(xs: seq<Key>, prefix: Key)
    requires forall k :: 0 <= k < |xs| ==> !HasPrefix(xs[k], prefix)
    ensures WithPrefix(xs, prefix) == []
  {
    if |xs| > 0 {
      WithPrefixNone(xs[1..], prefix);
    }
  }

  /** No item before the seek position carries the prefix. */
  lemma NoPrefixBeforeSeek(items: seq<Key>, prefix: Key)
    ensures forall k :: 0 <= k < LowerBound(items, prefix) ==> !HasPrefix(items[k], prefix)
  {
    forall k | 0 <= k < LowerBound(items, prefix)
      ensures !HasPrefix(items[k], prefix)
    {
      if HasPrefix(items[k], prefix) {
        PrefixSortsFirst(items[k], prefix);
      }
    }
  }

  /** In a sorted sequence no item after the run carries the prefix. */
  lemma NoPrefixAfterRun(items: seq<Key>, prefix: Key)
    requires Sorted(items)
    ensures var end := RunEnd(items, LowerBound(items, prefix), prefix);
      forall k :: end <= k < |items| ==> !HasPrefix(items[k], prefix)
  {
    var start := LowerBound(items, prefix);
    var end := RunEnd(items, start, prefix);
    if end < |items| {
      assert LexLe(prefix, items[end]) by {
        if start < end {
          LexLeTransitive(prefix, items[start], items[end]);
        }
      }
      forall k | end < k < |items|
        ensures !HasPrefix(items[k], prefix)
      {
        if HasPrefix(items[k], prefix) {
          PrefixBlockEnds(prefix, items[k], items[end]);
        }
      }
    }
  }

  lemma WithPrefixSplit(items: seq<Key>, i: nat, prefix: Key)
    requires i <= |items|
    ensures WithPrefix(items, prefix) == WithPrefix(items[..i], prefix) + WithPrefix(items[i..], prefix)
  {
    assert items == items[..i] + items[i..];
    WithPrefixAppend(items[..i], items[i..], prefix);
  }

  lemma NoneInSlice(items: seq<Key>, lo: nat, hi: nat, prefix: Key)
    requires lo <= hi <= |items|
    requires forall k :: lo <= k < hi ==> !HasPrefix(items[k], prefix)
    ensures WithPrefix(items[lo..hi], prefix) == []
  {
    var xs := items[lo..hi];
    assert forall k :: 0 <= k < |xs| ==> xs[k] == items[lo + k];
    WithPrefixNone(xs, prefix);
  }

  lemma AllInSlice(items: seq<Key>, lo: nat, hi: nat, prefix: Key)
    requires lo <= hi <= |items|
    requires forall k :: lo <= k < hi ==> HasPrefix(items[k], prefix)
    ensures WithPrefix(items[lo..hi], prefix) == items[lo..hi]
  {
    var xs := items[lo..hi];
    assert forall k :: 0 <= k < |xs| ==> xs[k] == items[lo + k];
    WithPrefixAll(xs, prefix);
  }

  /** When the items carrying a prefix are exactly those in [start, end), they
      are what WithPrefix selects. */
  lemma RunIsWithPrefix(items: seq<Key>, start: nat, end: nat, prefix: Key)
    requires start <= end <= |items|
    requires forall k :: 0 <= k < start ==> !HasPrefix(items[k], prefix)
    requires forall k :: start <= k < end ==> HasPrefix(items[k], prefix)
    requires forall k :: end <= k < |items| ==> !HasPrefix(items[k], prefix)
    ensures items[start..end] == WithPrefix(items, prefix)
  {
    WithPrefixSplit(items, end, prefix);
    NoneInSlice(items, end, |items|, prefix);
    assert items[end..|items|] == items[end..];
    var head := items[..end];
    WithPrefixSplit(head, start, prefix);
    assert head[..start] == items[0..start];
    assert head[start..] == items[start..end];
    NoneInSlice(items, 0, start, prefix);
    AllInSlice(items, start, end, prefix);
  }

  /** In a sorted sequence the items carrying a prefix are exactly the run
      that starts where a seek for the prefix lands. */
  lemma SortedPrefixRun(items: seq<Key>, prefix: Key)
    requires Sorted(items)
    ensures var start := LowerBound(items, prefix);
      items[start..RunEnd(items, start, prefix)] == WithPrefix(items, prefix)
  {
    NoPrefixBeforeSeek(items, prefix);
    NoPrefixAfterRun(items, prefix);
    var start := LowerBound(items, prefix);
    RunIsWithPrefix(items, start, RunEnd(items, start, prefix), prefix);
  }

  /** Over a sorted part, GetTSIDs returns one TSID per item carrying the
      tenant's prefix, in scan order, and nothing else. */
  lemma GetTsidsFindsAllWithPrefix(s: Schema, items: seq<Key>, iterError: Option<string>, prefix: Key)
    requires Sorted(items)
    ensures var r := ScanTsids(s, items, iterError, prefix);
      var all := WithPrefix(items, prefix);
      && (r.Ok? ==> DecodeTsids(s, |prefix|, all) == Ok(r.value))
      && (r.Fatal? <==> DecodeTsids(s, |prefix|, all).Fatal?)
      && (r.Fatal? <==> exists i :: 0 <= i < |all| && !DecodeTsid(s, |prefix|, all[i]).Ok?)
  {
    SortedPrefixRun(items, prefix);
  }
}
