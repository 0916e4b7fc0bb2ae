# vmindex-tool reconciliation and index compaction, modelled in Dafny

`vmindex-tool` is a maintenance tool for a VictoriaMetrics storage
directory. For each partition and tenant it:

- lists the tenant's time-series identifiers (TSIDs) from the index;
- looks up which of their metric IDs still have sample blocks in the partition;
- marks the rest (the *orphans*) as deleted;
- forces a merge of each index part that is not already being merged and that fits the free disk space, each part in its own merge, so the merge filter drops the index items that refer to a deleted metric ID. A part larger than the free space is released unmerged.

This project models the sequential logic of that pipeline as pure Dafny functions and small loops, and proves what each step promises. The steps are:

- the tenant-name parser, the tenant ordering and the per-tenant orphan diff (`app/vmindex-tool/main.go`);
- the merge filter that drops index items of deleted metric IDs and repacks the survivors, plus the prefix scan behind `GetTSIDs` (`lib/storage/index_db_nebius.go`);
- the 256-seek order check of one index part (`lib/mergeset/part_nebius.go`);
- the claim/release/merge loop of a forced clean (`lib/mergeset/table_nebius.go`);
- the partition-level gate, the metric-ID collection and the 180-day probe window (`lib/storage/partition_nebius.go`).

There is one module per source file:

| file | module | models |
|---|---|---|
| `common.dfy` | `Common` | bytes and keys, Go's byte-wise lexicographic order, `Outcome` (value / returned error / process abort), TSIDs |
| `vmindex_tool.dfy` | `VmIndexTool` | `parseTenant`, `strconv.ParseUint(s, 10, 32)`, tenant choice and sort, the orphan diff, the tenant loop |
| `index_db.dfy` | `IndexDb` | `removeDeletedIndexEntries`, the `[Start,End)` item layout, `GetTSIDs` |
| `part_order.dfy` | `PartOrder` | `validateOrder` |
| `table.dfy` | `Table` | `getFilePartsForMerge`, `ForceCleanAllParts` |
| `partition.dfy` | `Partition` | `ForceCleanAllIndexParts`, `SearchMetricIdsWithData`, `SearchDaysForMetricsIds` |

Modelling conventions:

- `Outcome<T>` has three cases.
  - `Ok` is a normal result.
  - `Err` is an `error` handed back to the caller.
  - `Fatal` is a Go panic, `logger.Panicf` or `logger.Fatalf`. An index out of range counts as a panic too.
- The storage layer's key layout is an abstract `IndexDb.Schema` parameter:
  - the namespace prefix bytes, which must be distinct (`WellFormed`);
  - `commonPrefixLen` and `marshaledTSIDSize`;
  - the TSID decoder, a total function that returns the TSID and the unread tail, or nothing.
- `encoding.UnmarshalUint64` is an 8-byte big-endian read.
- A seek is specified as "first item at or after the key" in Go's byte order (`IndexDb.LowerBound`). This holds both for the part search `validateOrder` uses (`partSearch.Seek`) and for the table search `ts.Seek` that `GetTSIDs` uses. `PartOrder.BinarySeek` models the halving search an implementation performs, which agrees with `LowerBound` on sorted parts.
- These are parameters of the operations that use them:
  - the free disk space read at each iteration;
  - the success of each merge;
  - the blocks a partition search yields and its final error;
  - the per-day index probe;
  - the index and data lookups of each tenant.

## Model

| member | source | states |
|---|---|---|
| VmIndexTool.ParseUintFrom | app/vmindex-tool/main.go:32-39 | Go's decimal digit loop with its 64-bit cutoff and wrap checks accepts exactly the all-digit strings whose value is at most 2^32-1, and returns that value. The empty string is accepted here with value 0; `ParseUint32` rejects it |
| VmIndexTool.ParseUint32 | app/vmindex-tool/main.go:32-39 | `ParseUint(s, 10, 32)` succeeds iff `s` is a non-empty decimal digit string with value below 2^32, and then yields its value |
| VmIndexTool.IndexOf | app/vmindex-tool/main.go:28 | `strings.Index`: -1 iff the character is absent, otherwise the position of its first occurrence |
| VmIndexTool.ParseTenant | app/vmindex-tool/main.go:27-41 | never aborts; a name without `:` is an error; otherwise the split is at the first `:`, and the result is Ok iff both halves are uint32 decimals, with account and project equal to their values |
| VmIndexTool.TenantRoundTrip | app/vmindex-tool/main.go:27-41 | for account and project below 2^32, parsing `dec(a) + ":" + dec(p)` gives back exactly (a, p) |
| VmIndexTool.SecondColonRejected | app/vmindex-tool/main.go:36-39 | a name with a second `:` is rejected, because the project half then holds a non-digit |
| VmIndexTool.SortStrings | app/vmindex-tool/main.go:103 | `sort.Strings`: the output is sorted in byte order and is a permutation of the input |
| VmIndexTool.TenantsToProcess | app/vmindex-tool/main.go:91-103 | a non-empty operator list is used verbatim (as a multiset); otherwise the scanned list is used, and a scan error aborts; the result is sorted either way |
| VmIndexTool.Orphans | app/vmindex-tool/main.go:144-145 | the orphans are a subset of the index IDs and disjoint from the data-backed IDs; together with the intersection they cover the index IDs |
| VmIndexTool.TenantOrphans | app/vmindex-tool/main.go:109-145 | one tenant's iteration never returns an error; it completes iff its name parses and both lookups succeed, and otherwise aborts; its orphans are exactly the metric IDs of its index TSIDs minus the metric IDs that have data |
| VmIndexTool.ReconcileTenants | app/vmindex-tool/main.go:105-148 | the deleted set only grows; when the first tenant's iteration aborts, the loop stops with that message and the deleted set unchanged |
| VmIndexTool.ReconcileTenantsAbort | app/vmindex-tool/main.go:105-148 | the loop aborts iff some tenant's iteration aborts, and then with the message of the first such tenant |
| VmIndexTool.ReconcileTenantsDeleted | app/vmindex-tool/main.go:105-148 | the deleted set keeps its old members and gains the orphans of every tenant that completed before the loop stopped, and nothing else; so after an abort the earlier tenants' orphans stay deleted |
| IndexDb.Keep | lib/storage/index_db_nebius.go:70-99 | the per-item decision never returns an error, and an empty item aborts (`item[0]` out of range) |
| IndexDb.MetricIdKeyRule | lib/storage/index_db_nebius.go:73-77 | a MetricIDToTSID or MetricIDToMetricName item is dropped iff the uint64 at `commonPrefixLen` is deleted; a shorter item aborts |
| IndexDb.DateMetricIdKeyRule | lib/storage/index_db_nebius.go:78-82 | a DateToMetricID item is dropped iff the uint64 at `commonPrefixLen+8` is deleted; a shorter item aborts |
| IndexDb.NameTsidKeyRule | lib/storage/index_db_nebius.go:83-94 | a MetricNameToTSID or DateMetricNameToTSID item is dropped iff the metric ID of the TSID in its last `marshaledTSIDSize` bytes is deleted; a decode failure, a left-over tail or a short item aborts |
| IndexDb.AlwaysKeptRule | lib/storage/index_db_nebius.go:95-96 | TagToMetricIDs, DateTagToMetricIDs and DeletedMetricID items are always kept |
| IndexDb.UnknownPrefixRule | lib/storage/index_db_nebius.go:97-98 | an item whose first byte is no known namespace prefix aborts |
| IndexDb.FilterItems | lib/storage/index_db_nebius.go:70-100 | the filter completes iff every item's decision does; the survivors are an order-preserving subsequence of the input, and an item survives iff its decision is to keep it |
| IndexDb.FilterCounts | lib/storage/index_db_nebius.go:70-100 | a completed filter keeps every copy of an item whose decision is to keep it, so each such item occurs in the output as often as in the input, and drops every copy of the others |
| IndexDb.FilterFixpoint | lib/storage/index_db_nebius.go:70-100 | a sequence whose items are all kept passes through the filter unchanged |
| IndexDb.Pack | lib/storage/index_db_nebius.go:101-105 | the rebuilt buffer is the concatenation of the surviving items; each `[Start,End)` is exactly one item's span; spans are contiguous and increasing; unpacking gives back the items |
| IndexDb.RemoveDeletedIndexEntries | lib/storage/index_db_nebius.go:63-108 | an empty deleted set returns data and items unchanged; otherwise the result is contiguous, an order-preserving subsequence of the input, holds each kept item as often as the input does and no dropped item, and completes iff no item aborts |
| IndexDb.RemoveDeletedIdempotent | lib/storage/index_db_nebius.go:63-108 | filtering an already filtered buffer with the same deleted set changes nothing |
| IndexDb.LowerBound | lib/storage/index_db_nebius.go:35-36 | the seek position: every item before it sorts below the key, and the item at it (if any) sorts at or after the key |
| IndexDb.SeekFindsStoredItem | lib/storage/index_db_nebius.go:35-36 | a seek for an item that is stored in the sequence lands at or before that item, so the item is never skipped |
| IndexDb.RunEnd | lib/storage/index_db_nebius.go:38-42 | the scan stops at the first item without the prefix; every item it passed carries the prefix |
| IndexDb.DecodeTsid | lib/storage/index_db_nebius.go:43-51 | decoding never returns an error; it completes iff the item reaches offset prefix+8 and the bytes from there decode as a TSID with nothing left over, and then yields that TSID; otherwise it aborts |
| IndexDb.DecodeTsids | lib/storage/index_db_nebius.go:43-52 | decoding the list completes iff every item decodes, and otherwise aborts; on success, exactly one TSID per item, in scan order, each the decoding of its item |
| IndexDb.GetTsids | lib/storage/index_db_nebius.go:29-61 | the seek-and-scan loop computes the reference scan: decode the run of items carrying the prefix from the seek position; an iteration error is returned only when the scan ran off the end |
| IndexDb.SortedPrefixRun | lib/storage/index_db_nebius.go:35-42 | in a sorted item sequence, the run starting at the seek position is exactly the subsequence of all items carrying the prefix |
| IndexDb.GetTsidsFindsAllWithPrefix | lib/storage/index_db_nebius.go:35-53 | over a sorted part, GetTSIDs returns the decodings of all items with the tenant's prefix and no others, and aborts iff decoding one of them aborts |
| Common.PrefixBlockEnds | lib/storage/index_db_nebius.go:38-42 | a key at or after the prefix that does not start with it sorts after every key that does, so prefixed items form one contiguous block |
| PartOrder.ProbeFailure | lib/mergeset/part_nebius.go:13-23 | one seek aborts the check iff it yields an empty item, an item whose first byte is below the sought byte, or an iteration error |
| PartOrder.ValidateFrom | lib/mergeset/part_nebius.go:11-24 | the loop from byte b on completes iff the seek for every byte from b on is acceptable; on completion it returns its iteration keys [b], [b+1], ..., [255], a list the loop builds itself |
| PartOrder.ValidateOrder | lib/mergeset/part_nebius.go:7-25 | the check completes iff the seek for each of the 256 keys [0] to [255] finds nothing, or a non-empty item whose first byte is at least the sought byte, with no iteration error; it never returns an error; on completion it returns its 256 iteration keys |
| PartOrder.BinarySeek | lib/mergeset/part_nebius.go:12-13 | the halving search returns a position in its range whose item, if any, is at or after the key |
| PartOrder.SortedBinarySeekIsLowerBound | lib/mergeset/part_nebius.go:12-13 | on a sorted part the halving search returns the specified seek position, the first item at or after the key |
| PartOrder.UnsortedBinarySeekDiffers | lib/mergeset/part_nebius.go:12-13 | on the unsorted part [[1], [0]] the halving search for [1] reports exhaustion although item 0 is at or after the key |
| PartOrder.SeekPassesValidation | lib/mergeset/part_nebius.go:12-19 | under the specified seek and under the halving search, every part passes the check, sorted or not |
| PartOrder.SortedPartPassesValidation | lib/mergeset/part_nebius.go:12-19 | on a sorted part the halving search lands where the specified seek does for all 256 probes, and the check passes |
| PartOrder.MisorderedSeekAborts | lib/mergeset/part_nebius.go:16-18 | a seek that lands on an item whose first byte is below the sought byte aborts the check |
| Table.FreePositions | lib/mergeset/table_nebius.go:13-19 | the claim loop takes exactly the positions whose flag was clear, in strictly increasing list order, and nothing when every part is already in a merge |
| Table.GetFilePartsForMerge | lib/mergeset/table_nebius.go:10-22 | claims exactly the positions whose `isInMerge` was false, in strictly increasing order; afterwards every part is in a merge and paths and sizes are untouched |
| Table.SecondClaimIsEmpty | lib/mergeset/table_nebius.go:14-17 | a second claim with no release in between returns nothing |
| Table.CleanFrom | lib/mergeset/table_nebius.go:36-61 | the clean loop never returns an error; every merge it runs has one element, a claimed part, and every released part was claimed |
| Table.CleanFromAborts | lib/mergeset/table_nebius.go:36-59 | the loop aborts iff some claimed part that fits the free space read for it fails to merge |
| Table.CleanFromCount | lib/mergeset/table_nebius.go:36-45 | a completed loop makes exactly one decision, merge or release, per claimed part |
| Table.CleanFromDecisions | lib/mergeset/table_nebius.go:38-56 | a claimed part is merged alone iff its size is at most the free space read for it, and released iff it is larger |
| Table.ReleaseParts | lib/mergeset/table_nebius.go:43 | releasing clears exactly the released parts' flags and changes nothing else |
| Table.ForceCleanAllParts | lib/mergeset/table_nebius.go:25-66 | never returns an error; with nothing to claim it returns at once without merging; on completion paths and sizes are unchanged, and a part stays in a merge iff it was not released |
| Table.ForceCleanAborts | lib/mergeset/table_nebius.go:56-59 | a failed merge aborts the process instead of being returned, and the clean aborts iff some admitted part's merge fails |
| Table.ForceCleanDecisions | lib/mergeset/table_nebius.go:36-56 | on completion, every claimed part is merged once as a one-element list iff it fits the free space read for it, and released otherwise; nothing unclaimed is touched |
| Partition.ForceCleanAllIndexParts | lib/storage/partition_nebius.go:84-96 | with no deleted metric IDs, nothing is claimed or merged and nil comes back; otherwise the table clean runs, and its result and its error status come back unchanged |
| Partition.WrapCleanFailure | lib/storage/partition_nebius.go:88-90 | a returned error of the table clean stays a returned error, ending with the original message; an abort stays the same abort |
| Partition.IndexCleanOutcome | lib/storage/partition_nebius.go:84-96 | the gated clean never returns an error; with deleted IDs it aborts iff a claimed part that fits fails to merge |
| Partition.SearchMetricIdsWithData | lib/storage/partition_nebius.go:60-82 | a search error yields that error and discards the partial set; otherwise the result is exactly the set of metric IDs of the yielded blocks, a subset of the given TSIDs' IDs when the blocks belong to them |
| Partition.CollectedIsMetricIds | lib/storage/partition_nebius.go:67-74 | a set holding each block's metric ID and nothing else is the set of the blocks' metric IDs |
| Partition.ProbedDay | lib/storage/partition_nebius.go:41-42 | the day of iteration i is `day-(180-i)` in uint64 arithmetic: exactly `day+i-180` when `day+i >= 180`, and `2^64+day+i-180` (the wrapped value) when `day+i < 180` |
| Partition.ProbeWindow | lib/storage/partition_nebius.go:40-51 | the loop runs over the 180 days `day-180` to `day-1` in order and returns that list, which it builds itself; every probed day with the marker lies in [minDay, maxDay], and both ends are such days; with no such day minDay stays MaxUint64 and maxDay stays 0 |
| Partition.SearchDaysForMetricsIds | lib/storage/partition_nebius.go:36-56 | one (minDay, maxDay) pair per TSID, in order, each the window range of that TSID's metric ID |
| Partition.WindowRangeOrdered | lib/storage/partition_nebius.go:40-51 | when some probed day has the marker, minDay <= maxDay and both ends are days that have the marker |

## Left out

- Concurrency in `ForceCleanAllParts` is not modelled: the goroutines, `filePartsConcurrencyCh` and the wait group. The loop is sequential, and a failed merge aborts at that point. In Go the panic comes from a goroutine, but the process ends either way.
- `fs.MustGetFreeSpace` is filesystem I/O. It is a per-iteration input `freeSpace(j)`.
- `mergeParts` is not part of this model. Its success is an input `mergeOk`.
- Table.ForceCleanAllParts: merged parts stay in the part list with their flag set. Replacing them with the merged output happens inside `mergeParts`.
- `partSearch`, `partitionSearch` and the table search are inputs: a seek function, the blocks yielded, and the items plus a final error. `io.EOF` counts as "no error".
- lib/storage/index_db.go is not part of this model: the namespace prefix values, `commonPrefixLen`, the TSID layout and `TSID.Unmarshal` are abstract `Schema` fields. The tenant prefix that `marshalCommonPrefix` builds is a parameter of `GetTsids`.
- `SearchTSID` returns `GetTSIDs` of the partition's index, which is modelled as `IndexDb.GetTsids`. `SearchTSIDByName` goes through `searchMetricIDs` and `getTSIDsFromMetricIDs`, which are outside this model. The tenant loop takes either of them as its `index` input, which is unconstrained: the model does not link that input to `IndexDb.GetTsids`.
- `SearchTenants` delegates to an index search outside this model. Its result is the `scanned` input of `VmIndexTool.TenantsToProcess`.
- `hasDateMetricID` is a wrapper around an index search outside this model. It is the `has` input of the probe window.
- `DeleteMetricIds` is a pass-through to `deleteMetricIDs`, which is outside this model. The tenant loop returns the grown deleted set instead.
- In `main()`, flags, the pprof server, metrics printing, storage open and close, and logging are left out. So is the partition loop around the two forced cleans. Only the tenant choice, the sort, the parse, the orphan diff and the tenant loop that collects the orphans are modelled.
- `sort.Slice` of the tenant's TSIDs before the data search is left out: `TSID.Less` is outside this model, and the data-search input receives the TSIDs as listed.
- `lib/storage/storage_nebius.go` holds one-line wrappers with no logic.
- Partition.SearchDaysForMetricsIds: the `time.Unix(...).Format` date rendering and the log line are left out. The method returns the (minDay, maxDay) pairs it would print.
- IndexDb.RemoveDeletedIndexEntries: the `uint32(...)` casts of `Start` and `End` are not modelled. Offsets are unbounded naturals, so a buffer over 4 GiB would wrap in Go but not here.
- IndexDb.RemoveDeletedIndexEntries: the in-place reuse of `data[:0]` and `items[:0]` is replaced by fresh sequences. The functional result is the same whenever the items are non-overlapping and increasing.
- VmIndexTool.ParseTenant: names are Dafny strings, sequences of characters. Go strings are byte strings, which may hold invalid UTF-8, and `strings.Index` returns a byte offset. Names with non-ASCII characters are therefore not modelled byte for byte: positions count characters, and byte strings that are not valid UTF-8 cannot be written.
- VmIndexTool.ParseTenant: on error the Go function also returns (0, 0). The model returns only the error, because every caller stops on it.
- Partition.ForceCleanAllIndexParts: the table clean never returns an error, so the wrapped-error return is unreachable. The model keeps the branch, and its contract says the error status passes through unchanged.
- PartOrder.SeekPassesValidation: both seek models only return an item they compared as at or after the key, so no part, sorted or not, can reach the "BUG" panic of `validateOrder`. The panic guards against a search that returns an item without comparing it, for example through the block layout and common-prefix compression of a real part. That layout is not part of this model.
- Partition.ProbedDay: below day 180 the uint64 subtraction wraps. The model writes the wrap out instead of excluding those days.
