/** The reconciliation command (app/vmindex-tool/main.go): parsing tenant names,
    choosing and ordering the tenants of a partition, and computing per tenant
    the orphan metric IDs (indexed, but with no stored data) that are marked
    deleted. */
module VmIndexTool {
  import opened Common

  datatype Tenant = Tenant(accountId: nat, projectId: nat)

  // ---------------------------------------------------------------------------
  // Decimal digits
  // ---------------------------------------------------------------------------

  predicate IsDigit(c: char)
  {
    '0' <= c <= '9'
  }

  predicate AllDigits(s: string)
  {
    forall i :: 0 <= i < |s| ==> IsDigit(s[i])
  }

  function DigitValue(c: char): nat
    requires IsDigit(c)
  {
    (c as int) - ('0' as int)
  }

  function DigitChar(d: nat): char
    requires d < 10
  {
    ((('0' as int) + d) as char)
  }

  /** The number a string of decimal digits denotes (leading zeros allowed). */
  function DecimalValue(s: string): nat
    requires AllDigits(s)
  {
    if |s| == 0 then 0 else DecimalValue(s[..|s| - 1]) * 10 + DigitValue(s[|s| - 1])
  }

  /** What strconv.ParseUint(s, 10, 32) accepts: a non-empty run of decimal
      digits, no sign and no separators, whose value fits in 32 bits. */
  predicate IsUint32Decimal(s: string)
  {
    |s| > 0 && AllDigits(s) && DecimalValue(s) <= MaxUint32
  }

  /** Canonical decimal rendering of `n` (no leading zeros). */
  function FormatDecimal(n: nat): (r: string)
    ensures |r| > 0 && AllDigits(r)
  {
    if n < 10 then [DigitChar(n)] else FormatDecimal(n / 10) + [DigitChar(n % 10)]
  }

  lemma {:induction false} DecimalValueMonotone(s: string, j: nat)
    requires AllDigits(s) && j <= |s|
    ensures AllDigits(s[..j]) && DecimalValue(s[..j]) <= DecimalValue(s)
    decreases |s| - j
  {
    if j < |s| {
      DecimalValueMonotone(s, j + 1);
      assert s[..j + 1][..j] == s[..j];
    } else {
      assert s[..j] == s;
    }
  }

  lemma {:induction false} FormatDecimalRoundTrip(n: nat)
    ensures DecimalValue(FormatDecimal(n)) == n
  {
    if n >= 10 {
      FormatDecimalRoundTrip(n / 10);
      var s := FormatDecimal(n);
      assert s[..|s| - 1] == FormatDecimal(n / 10);
    }
  }

  // ---------------------------------------------------------------------------
  // strconv.ParseUint(s, 10, 32)
  // ---------------------------------------------------------------------------

  /** Go's digit loop from position `i` on, `n` being the value of `s[..i]`
      held in a uint64: a non-digit is a syntax error; a value at or above
      the uint64 cutoff, a wrapped addition or a value above 2^32 - 1 is a
      range error. */
  function ParseUintFrom(s: string, i: nat, n: nat): (r: Option<nat>)
    requires i <= |s| && AllDigits(s[..i]) && n == DecimalValue(s[..i]) && n <= MaxUint32
    ensures r.Some? <==> AllDigits(s) && DecimalValue(s) <= MaxUint32
    ensures r.Some? ==> r.value == DecimalValue(s)
    decreases |s| - i
  {
    if i == |s| then
      assert s[..i] == s;
      Some(n)
    else if !IsDigit(s[i]) then
      None
    else if n >= MaxUint64 / 10 + 1 then
      None
    else
      var m := n * 10;
      var n1 := (m + DigitValue(s[i])) % (MaxUint64 + 1);
      assert s[..i + 1][..i] == s[..i];
      assert AllDigits(s[..i + 1]) && DecimalValue(s[..i + 1]) == m + DigitValue(s[i]);
      if n1 < m || n1 > MaxUint32 then
        (if AllDigits(s) then DecimalValueMonotone(s, i + 1); None else None)
      else
        ParseUintFrom(s, i + 1, n1)
  }

  /** strconv.ParseUint(s, 10, 32): the empty string is a syntax error. */
  function ParseUint32(s: string): (r: Option<nat>)
    ensures r.Some? <==> IsUint32Decimal(s)
    ensures r.Some? ==> r.value == DecimalValue(s) <= MaxUint32
  {
    if |s| == 0 then None else ParseUintFrom(s, 0, 0)
  }

  // ---------------------------------------------------------------------------
  // parseTenant
  // ---------------------------------------------------------------------------

  /** strings.Index(s, c): position of the first `c`, or -1. */
  function IndexOf(s: string, c: char): (r: int)
    ensures -1 <= r < |s|
    ensures r == -1 <==> c !in s
    ensures r >= 0 ==> s[r] == c && c !in s[..r]
  {
    if |s| == 0 then -1
    else if s[0] == c then 0
    else
      var k := IndexOf(s[1..], c);
      if k < 0 then -1
      else
        assert s[..k + 1] == [s[0]] + s[1..][..k];
        k + 1
  }

  /** parseTenant: "<accountID>:<projectID>", split at the first ':'. Go also
      returns (0, 0) with the error; here the error carries no tenant. */
  function ParseTenant(tenant: string): (r: Outcome<Tenant>)
    ensures !r.Fatal?
    ensures ':' !in tenant ==> r.Err?
    ensures forall i :: 0 <= i < |tenant| && tenant[i] == ':' && ':' !in tenant[..i] ==>
              && (r.Ok? <==> IsUint32Decimal(tenant[..i]) && IsUint32Decimal(tenant[i + 1..]))
              && (r.Ok? ==> r.value == Tenant(DecimalValue(tenant[..i]), DecimalValue(tenant[i + 1..])))
  {
    var i := IndexOf(tenant, ':');
    if i < 0 then
      Err("invalid tenant name " + tenant)
    else
      match ParseUint32(tenant[..i])
      case None => Err("cannot parse account ID from tenant " + tenant)
      case Some(accountId) =>
        match ParseUint32(tenant[i + 1..])
        case None => Err("cannot parse project ID from tenant " + tenant)
        case Some(projectId) => Ok(Tenant(accountId, projectId))
  }

  /** The canonical name of a tenant parses back to that tenant. */
  lemma TenantRoundTrip(accountId: nat, projectId: nat)
    requires accountId <= MaxUint32 && projectId <= MaxUint32
    ensures ParseTenant(FormatDecimal(accountId) + ":" + FormatDecimal(projectId)) == Ok(Tenant(accountId, projectId))
  {
    var a := FormatDecimal(accountId);
    var p := FormatDecimal(projectId);
    var s := a + ":" + p;
    FormatDecimalRoundTrip(accountId);
    FormatDecimalRoundTrip(projectId);
    assert s[|a|] == ':';
    assert s[..|a|] == a;
    assert s[|a| + 1..] == p;
    assert forall k :: 0 <= k < |a| ==> a[k] != ':';
    assert ':' !in s[..|a|];
  }

  /** A name with a second ':' is rejected: the project half then holds a
      non-digit. */
  lemma SecondColonRejected(tenant: string, i: nat, j: nat)
    requires i < j < |tenant| && tenant[i] == ':' && tenant[j] == ':'
    ensures ParseTenant(tenant).Err?
  {
    var k := IndexOf(tenant, ':');
    assert 0 <= k <= i;
    assert tenant[k + 1..][j - k - 1] == ':';
    assert !AllDigits(tenant[k + 1..]);
  }

  // ---------------------------------------------------------------------------
  // Tenant ordering: sort.Strings
  // ---------------------------------------------------------------------------

  function Ords(s: string): seq<int>
  {
    seq(|s|, i requires 0 <= i < |s| => s[i] as int)
  }

  /** Go's string order: byte-wise, which on UTF-8 agrees with code points. */
  predicate StringLe(a: string, b: string)
  {
    LexLe(Ords(a), Ords(b))
  }

  predicate StringsSorted(xs: seq<string>)
  {
    forall i, j :: 0 <= i < j < |xs| ==> StringLe(xs[i], xs[j])
  }

  function Insert(x: string, xs: seq<string>): (r: seq<string>)
    requires StringsSorted(xs)
    ensures StringsSorted(r)
    ensures multiset(r) == multiset(xs) + multiset{x}
  {
    if |xs| == 0 then [x]
    else if StringLe(x, xs[0]) then
      LexLeTransitiveAll(x, xs);
      [x] + xs
    else
      LexLeTotal(Ords(x), Ords(xs[0]));
      var rest := Insert(x, xs[1..]);
      assert xs == [xs[0]] + xs[1..];
      HeadBelowAll(xs[0], x, xs[1..], rest);
      [xs[0]] + rest
  }

  lemma LexLeTransitiveAll(x: string, xs: seq<string>)
    requires |xs| > 0 && StringsSorted(xs) && StringLe(x, xs[0])
    ensures StringsSorted([x] + xs)
  {
    forall j | 0 < j < |xs| {
      LexLeTransitive(Ords(x), Ords(xs[0]), Ords(xs[j]));
    }
  }

  lemma HeadBelowAll(h: string, x: string, tail: seq<string>, rest: seq<string>)
    requires StringLe(h, x) && StringsSorted([h] + tail) && StringsSorted(rest)
    requires multiset(rest) == multiset(tail) + multiset{x}
    ensures StringsSorted([h] + rest)
  {
    forall j | 0 <= j < |rest|
      ensures StringLe(h, rest[j])
    {
      assert rest[j] in multiset(rest);
      if rest[j] != x {
        assert ([h] + tail)[0] == h;
        assert rest[j] in multiset(tail);
        var k :| 0 <= k < |tail| && tail[k] == rest[j];
        assert ([h] + tail)[k + 1] == tail[k];
      }
    }
  }

  /** sort.Strings: insertion sort into Go's string order. */
  function SortStrings(xs: seq<string>): (r: seq<string>)
    ensures StringsSorted(r)
    ensures multiset(r) == multiset(xs)
  {
    if |xs| == 0 then []
    else
      assert xs == [xs[0]] + xs[1..];
      Insert(xs[0], SortStrings(xs[1..]))
  }

  /** The tenants a partition is processed for: the operator's list when one
      was given, otherwise the scan of the partition's index (whose failure
      aborts the run), in sorted order either way. */
  function TenantsToProcess(operatorList: seq<string>, scanned: Outcome<seq<string>>): (r: Outcome<seq<string>>)
    ensures !r.Err?
    ensures |operatorList| > 0 ==> r.Ok? && multiset(r.value) == multiset(operatorList)
    ensures |operatorList| == 0 ==> (r.Ok? <==> scanned.Ok?)
    ensures |operatorList| == 0 && r.Ok? ==> multiset(r.value) == multiset(scanned.value)
    ensures r.Ok? ==> StringsSorted(r.value)
  {
    if |operatorList| > 0 then Ok(SortStrings(operatorList))
    else match scanned
      case Ok(names) => Ok(SortStrings(names))
      case Err(e) => Fatal("cannot load tenants: " + e)
      case Fatal(e) => Fatal(e)
  }

  // ---------------------------------------------------------------------------
  // Orphans
  // ---------------------------------------------------------------------------

  /** Metric IDs present in the index but without data in the partition. */
  function Orphans(indexIds: set<nat>, dataIds: set<nat>): (r: set<nat>)
    ensures r <= indexIds
    ensures r !! dataIds
    ensures r + (indexIds * dataIds) == indexIds
  {
    indexIds - dataIds
  }

  /** One iteration of the tenant loop: parse the name, look up the tenant's
      TSIDs in the index (`index`: by metric name or all of them, as the
      command line selects), collect the metric IDs among them that have data
      (`withData`), and return the orphans. A bad name or a failed lookup
      aborts the run. */
  function TenantOrphans(name: string, index: Tenant -> Outcome<seq<Tsid>>,
                         withData: seq<Tsid> -> Outcome<set<nat>>): (r: Outcome<set<nat>>)
    ensures !r.Err?
    ensures r.Ok? <==> && ParseTenant(name).Ok?
                       && index(ParseTenant(name).value).Ok?
                       && withData(index(ParseTenant(name).value).value).Ok?
    ensures r.Ok? ==> r.value <= MetricIds(index(ParseTenant(name).value).value)
    ensures r.Ok? ==> r.value !! withData(index(ParseTenant(name).value).value).value
    ensures r.Ok? ==> r.value == MetricIds(index(ParseTenant(name).value).value)
                                 - withData(index(ParseTenant(name).value).value).value
  {
    match ParseTenant(name)
    case Ok(t) =>
      (match index(t)
       case Ok(tsids) =>
         (match withData(tsids)
          case Ok(ids) => Ok(Orphans(MetricIds(tsids), ids))
          case Err(e) => Fatal("cannot load metrics IDs with data for tenant " + name + ": " + e)
          case Fatal(e) => Fatal(e))
       case Err(e) => Fatal("cannot load metrics IDs for tenant " + name + ": " + e)
       case Fatal(e) => Fatal(e))
    case _ => Fatal("cannot parse tenant " + name)
  }

  /** What the tenant loop of one partition leaves behind. The orphans of a
      tenant are marked deleted before the next tenant is read, so when a
      later tenant aborts the run, the earlier tenants' orphans stay marked:
      `deleted` holds them, and `abort` the message of the aborting tenant. */
  datatype LoopState = LoopState(deleted: set<nat>, abort: Option<string>)

  /** The tenant loop: the orphans of every tenant are added to the deleted
      set, until a tenant's iteration aborts the run. */
  function ReconcileTenants(tenants: seq<string>, index: Tenant -> Outcome<seq<Tsid>>,
                            withData: seq<Tsid> -> Outcome<set<nat>>, deleted: set<nat>): (r: LoopState)
    ensures deleted <= r.deleted
    ensures |tenants| > 0 && !TenantOrphans(tenants[0], index, withData).Ok? ==>
              r == LoopState(deleted, Some(TenantOrphans(tenants[0], index, withData).msg))
    decreases |tenants|
  {
    if |tenants| == 0 then LoopState(deleted, None)
    else
      var head := TenantOrphans(tenants[0], index, withData);
      if head.Ok? then ReconcileTenants(tenants[1..], index, withData, deleted + head.value)
      else LoopState(deleted, Some(head.msg))
  }

  /** Every tenant before position `n` completed its iteration. */
  predicate OkBefore(tenants: seq<string>, index: Tenant -> Outcome<seq<Tsid>>,
                     withData: seq<Tsid> -> Outcome<set<nat>>, n: nat)
    requires n <= |tenants|
  {
    forall j :: 0 <= j < n ==> TenantOrphans(tenants[j], index, withData).Ok?
  }

  lemma OkBeforeShift(tenants: seq<string>, index: Tenant -> Outcome<seq<Tsid>>,
                      withData: seq<Tsid> -> Outcome<set<nat>>, n: nat)
    requires n < |tenants| && TenantOrphans(tenants[0], index, withData).Ok?
    ensures OkBefore(tenants, index, withData, n + 1) <==> OkBefore(tenants[1..], index, withData, n)
  {
    if OkBefore(tenants[1..], index, withData, n) {
      forall j | 0 <= j < n + 1
        ensures TenantOrphans(tenants[j], index, withData).Ok?
      {
        if j > 0 {
          assert tenants[1..][j - 1] == tenants[j];
        }
      }
    }
    if OkBefore(tenants, index, withData, n + 1) {
      forall j | 0 <= j < n
        ensures TenantOrphans(tenants[1..][j], index, withData).Ok?
      {
        assert tenants[1..][j] == tenants[j + 1];
      }
    }
  }

  /** The loop aborts exactly when some tenant's iteration does, and then with
      the message of the first such tenant. */
  lemma {:induction false} ReconcileTenantsAbort(tenants: seq<string>, index: Tenant -> Outcome<seq<Tsid>>,
                                                 withData: seq<Tsid> -> Outcome<set<nat>>, deleted: set<nat>)
    ensures var r := ReconcileTenants(tenants, index, withData, deleted);
      && (r.abort.None? <==> OkBefore(tenants, index, withData, |tenants|))
      && (r.abort.Some? ==> exists f :: 0 <= f < |tenants| && OkBefore(tenants, index, withData, f)
                                       && !TenantOrphans(tenants[f], index, withData).Ok?
                                       && r.abort.value == TenantOrphans(tenants[f], index, withData).msg)
    decreases |tenants|
  {
    var r := ReconcileTenants(tenants, index, withData, deleted);
    if |tenants| == 0 {
    } else if !TenantOrphans(tenants[0], index, withData).Ok? {
      assert !OkBefore(tenants, index, withData, |tenants|);
      assert OkBefore(tenants, index, withData, 0);
    } else {
      var tail := tenants[1..];
      var d' := deleted + TenantOrphans(tenants[0], index, withData).value;
      assert r == ReconcileTenants(tail, index, withData, d');
      ReconcileTenantsAbort(tail, index, withData, d');
      OkBeforeShift(tenants, index, withData, |tail|);
      if r.abort.Some? {
        var f :| 0 <= f < |tail| && OkBefore(tail, index, withData, f)
                 && !TenantOrphans(tail[f], index, withData).Ok?
                 && r.abort.value == TenantOrphans(tail[f], index, withData).msg;
        OkBeforeShift(tenants, index, withData, f);
        assert tenants[f + 1] == tail[f];
      }
    }
  }

  /** The deleted set keeps its old members, gains the orphans of every tenant
      that completed before the loop stopped, and nothing else. */
  lemma {:induction false} ReconcileTenantsDeleted(tenants: seq<string>, index: Tenant -> Outcome<seq<Tsid>>,
                                                   withData: seq<Tsid> -> Outcome<set<nat>>, deleted: set<nat>)
    ensures var r := ReconcileTenants(tenants, index, withData, deleted);
      && (forall i :: 0 <= i < |tenants| && OkBefore(tenants, index, withData, i + 1) ==>
            TenantOrphans(tenants[i], index, withData).value <= r.deleted)
      && (forall id :: id in r.deleted && id !in deleted ==>
            exists i :: 0 <= i < |tenants| && OkBefore(tenants, index, withData, i + 1)
                        && id in TenantOrphans(tenants[i], index, withData).value)
    decreases |tenants|
  {
    var r := ReconcileTenants(tenants, index, withData, deleted);
    if |tenants| > 0 {
      var head := TenantOrphans(tenants[0], index, withData);
      if head.Ok? {
        var tail := tenants[1..];
        var d' := deleted + head.value;
        assert r == ReconcileTenants(tail, index, withData, d');
        ReconcileTenantsDeleted(tail, index, withData, d');
        forall i | 0 <= i < |tenants| && OkBefore(tenants, index, withData, i + 1)
          ensures TenantOrphans(tenants[i], index, withData).value <= r.deleted
        {
          if i > 0 {
            OkBeforeShift(tenants, index, withData, i - 1);
            assert tail[i - 1] == tenants[i];
          }
        }
        forall id | id in r.deleted && id !in deleted
          ensures exists i :: 0 <= i < |tenants| && OkBefore(tenants, index, withData, i + 1)
                              && id in TenantOrphans(tenants[i], index, withData).value
        {
          if id in head.value {
            assert OkBefore(tenants, index, withData, 1);
          } else {
            var k :| 0 <= k < |tail| && OkBefore(tail, index, withData, k + 1)
                     && id in TenantOrphans(tail[k], index, withData).value;
            OkBeforeShift(tenants, index, withData, k + 1);
            assert tenants[k + 1] == tail[k];
          }
        }
      }
    }
  }
}
