/** Shared vocabulary of the model: bytes and keys, the lexicographic order in
    which sorted parts keep their items, failure kinds, and time-series
    identifiers. */
module Common {

  /** An unsigned 8-bit value. */
  type byte = x: int | 0 <= x < 256

  /** An index item, or a search key: a byte string. */
  type Key = seq<byte>

  const MaxUint32: nat := 0xFFFF_FFFF
  const MaxUint64: nat := 0xFFFF_FFFF_FFFF_FFFF

  datatype Option<+T> = None | Some(value: T)

  /** How an operation ends: with a value, with an error handed back to the
      caller, or with a process abort (a Go panic, logger.Panicf or
      logger.Fatalf). */
  datatype Outcome<+T> = Ok(value: T) | Err(msg: string) | Fatal(msg: string)

  /** A failure passed on unchanged to a caller with a different result type. */
  function Propagate<T, U>(o: Outcome<T>): (r: Outcome<U>)
    requires !o.Ok?
    ensures r.Err? == o.Err? && r.Fatal? == o.Fatal? && r.msg == o.msg
  {
    if o.Err? then Err(o.msg) else Fatal(o.msg)
  }

  /** A time-series identifier. Only the metric ID matters to this model; the
      routing fields the storage layer also keeps are opaque. */
  datatype Tsid = Tsid(metricId: nat, routing: seq<nat>)

  /** The distinct metric IDs carried by a list of TSIDs. */
  function MetricIds(tsids: seq<Tsid>): set<nat>
  {
    set t | t in tsids :: t.metricId
  }

  /** Big-endian unsigned value of a byte string. */
  function BeUint(bs: seq<byte>): nat
  {
    if |bs| == 0 then 0 else BeUint(bs[..|bs| - 1]) * 256 + bs[|bs| - 1]
  }

  // ---------------------------------------------------------------------------
  // Lexicographic order (Go's bytes.Compare / string comparison)
  // ---------------------------------------------------------------------------

  /** `a` sorts at or before `b`: element-wise comparison, a proper prefix
      sorting first. */
  predicate LexLe(a: seq<int>, b: seq<int>)
  {
    |a| == 0 || (|b| > 0 && (a[0] < b[0] || (a[0] == b[0] && LexLe(a[1..], b[1..]))))
  }

  predicate Sorted(xs: seq<seq<int>>)
  {
    forall i, j :: 0 <= i < j < |xs| ==> LexLe(xs[i], xs[j])
  }

  predicate HasPrefix(x: seq<int>, p: seq<int>)
  {
    |p| <= |x| && x[..|p|] == p
  }

  lemma {:induction false} LexLeReflexive(a: seq<int>)
    ensures LexLe(a, a)
  {
    if |a| > 0 {
      LexLeReflexive(a[1..]);
    }
  }

  lemma {:induction false} LexLeTotal(a: seq<int>, b: seq<int>)
    ensures LexLe(a, b) || LexLe(b, a)
  {
    if |a| > 0 && |b| > 0 && a[0] == b[0] {
      LexLeTotal(a[1..], b[1..]);
    }
  }

  lemma {:induction false} LexLeTransitive(a: seq<int>, b: seq<int>, c: seq<int>)
    requires LexLe(a, b) && LexLe(b, c)
    ensures LexLe(a, c)
  {
    if |a| > 0 && a[0] == c[0] {
      LexLeTransitive(a[1..], b[1..], c[1..]);
    }
  }

  /** Every string sorts at or after each of its prefixes. */
  lemma {:induction false} PrefixSortsFirst(x: seq<int>, p: seq<int>)
    requires HasPrefix(x, p)
    ensures LexLe(p, x)
  {
    if |p| > 0 {
      assert x[0] == p[0];
      assert x[1..][..|p| - 1] == p[1..];
      PrefixSortsFirst(x[1..], p[1..]);
    }
  }

  /** A string that is at or after `p` but does not start with `p` sorts
      strictly after every string that does: this is what makes the items
      sharing a prefix one contiguous block of a sorted sequence. */
  lemma {:induction false} PrefixBlockEnds(p: seq<int>, x: seq<int>, y: seq<int>)
    requires HasPrefix(x, p) && LexLe(p, y) && !HasPrefix(y, p)
    ensures !LexLe(y, x)
  {
    assert |p| > 0;
    assert x[0] == p[0];
    if p[0] == y[0] {
      assert x[1..][..|p| - 1] == p[1..];
      PrefixFromTail(y, p);
      PrefixBlockEnds(p[1..], x[1..], y[1..]);
    }
  }

  lemma PrefixFromTail(y: seq<int>, p: seq<int>)
    requires |p| > 0 && |y| > 0 && y[0] == p[0]
    ensures HasPrefix(y[1..], p[1..]) ==> HasPrefix(y, p)
  {
    if HasPrefix(y[1..], p[1..]) {
      assert y[..|p|] == [y[0]] + y[1..][..|p| - 1];
    }
  }

  /** `a` can be obtained from `b` by deleting elements (order preserved). */
  predicate IsSubsequence<T(==)>(a: seq<T>, b: seq<T>)
    decreases |b|
  {
    |a| == 0 || (|b| > 0 && ((a[0] == b[0] && IsSubsequence(a[1..], b[1..])) || IsSubsequence(a, b[1..])))
  }
}
