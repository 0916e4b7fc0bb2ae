/** The order check on one sorted part (lib/mergeset/part_nebius.go): for every
    byte value b, seek to the one-byte key [b] and check that the item found,
    if any, does not start with a byte below b. */
module PartOrder {
  import opened Common
  import IndexDb

  /** What a seek followed by NextItem reports: the next item, clean
      exhaustion, or an iteration error. */
  datatype Probe = Found(item: Key) | Exhausted | Failed(err: string)

  /** The part search answered the seek for [b] acceptably: nothing found, or
      a non-empty item whose first byte is at least b. */
  predicate ProbeOk(search: Key -> Probe, b: byte)
  {
    match search([b])
    case Found(item) => |item| > 0 && item[0] >= b
    case Exhausted => true
    case Failed(_) => false
  }

  /** Why the seek for [b] aborts the check, if it does: an empty item (the
      index `item[0]` is out of range), an item starting below b, or an
      iteration error. */
  function ProbeFailure(search: Key -> Probe, b: byte): (r: Option<string>)
    ensures r.None? <==> ProbeOk(search, b)
  {
    match search([b])
    case Found(item) =>
      if |item| == 0 then Some("index out of range: empty item")
      else if item[0] < b then Some("BUG: search returns item with first byte < sought byte")
      else None
    case Exhausted => None
    case Failed(e) => Some("BUG: cannot validate order: " + e)
  }

  /** The validation loop from byte value `b` on. On success it yields the keys
      it sought, in order. */
  function ValidateFrom(search: Key -> Probe, b: nat): (r: Outcome<seq<Key>>)
    requires b <= 256
    ensures !r.Err?
    ensures r.Ok? <==> forall c: byte :: b <= c ==> ProbeOk(search, c)
    ensures r.Ok? ==> |r.value| == 256 - b && forall k :: 0 <= k < |r.value| ==> r.value[k] == [b + k]
    decreases 256 - b
  {
    if b == 256 then Ok([])
    else
      match ProbeFailure(search, b)
      case Some(why) => Fatal(why)
      case None =>
        var rest := ValidateFrom(search, b + 1);
        if rest.Ok? then Ok([[b]] + rest.value) else rest
  }

  /** validateOrder: exactly the 256 seeks [0], [1], ..., [255]. */
  function ValidateOrder(search: Key -> Probe): (r: Outcome<seq<Key>>)
    ensures !r.Err?
    ensures r.Ok? <==> forall b: byte :: ProbeOk(search, b)
    ensures r.Ok? ==> |r.value| == 256 && forall k :: 0 <= k < 256 ==> r.value[k] == [k]
  {
    ValidateFrom(search, 0)
  }

  /** The seek of a part whose items are `items`, as specified: the first
      item at or after the key, if any. */
  function PartSeek(items: seq<Key>): Key -> Probe
  {
    key =>
      var i := IndexDb.LowerBound(items, key);
      if i < |items| then Found(items[i]) else Exhausted
  }

  /** The seek as a search implements it, `sort.Search` style: the least
      position in [lo, hi) whose item is at or after the key, found by
      halving. It trusts the order of the items, so on an unsorted part it
      may skip an item at or after the key. */
  function BinarySeek(items: seq<Key>, key: Key, lo: nat, hi: nat): (r: nat)
    requires lo <= hi <= |items|
    requires hi < |items| ==> LexLe(key, items[hi])
    ensures lo <= r <= hi
    ensures r < |items| ==> LexLe(key, items[r])
    decreases hi - lo
  {
    if lo == hi then lo
    else
      var mid := (lo + hi) / 2;
      if LexLe(key, items[mid]) then BinarySeek(items, key, lo, mid)
      else BinarySeek(items, key, mid + 1, hi)
  }

  /** The part seek through BinarySeek over the whole part. */
  function BinaryPartSeek(items: seq<Key>): Key -> Probe
  {
    key =>
      var i := BinarySeek(items, key, 0, |items|);
      if i < |items| then Found(items[i]) else Exhausted
  }

  /** On a sorted part, every item before the position BinarySeek returns
      sorts below the key. */
  lemma {:induction false} BinarySeekSkipsOnlySmaller(items: seq<Key>, key: Key, lo: nat, hi: nat)
    requires Sorted(items)
    requires lo <= hi <= |items|
    requires hi < |items| ==> LexLe(key, items[hi])
    requires forall j :: 0 <= j < lo ==> !LexLe(key, items[j])
    ensures forall j :: 0 <= j < BinarySeek(items, key, lo, hi) ==> !LexLe(key, items[j])
    decreases hi - lo
  {
    if lo < hi {
      var mid := (lo + hi) / 2;
      if LexLe(key, items[mid]) {
        BinarySeekSkipsOnlySmaller(items, key, lo, mid);
      } else {
        forall j | 0 <= j <= mid
          ensures !LexLe(key, items[j])
        {
          if j < mid && LexLe(key, items[j]) {
            LexLeTransitive(key, items[j], items[mid]);
          }
        }
        BinarySeekSkipsOnlySmaller(items, key, mid + 1, hi);
      }
    }
  }

  /** On a sorted part the halving search finds the specified position. */
  lemma SortedBinarySeekIsLowerBound(items: seq<Key>, key: Key)
    requires Sorted(items)
    ensures BinarySeek(items, key, 0, |items|) == IndexDb.LowerBound(items, key)
  {
    BinarySeekSkipsOnlySmaller(items, key, 0, |items|);
  }

  /** The halving search can miss the specified position on an unsorted
      part: in [[1], [0]] the first item at or after [1] is at position 0,
      but the halving search probes position 1 first, finds [0] below the
      key, and reports exhaustion. */
  lemma UnsortedBinarySeekDiffers()
    ensures var items: seq<Key> := [[1], [0]];
      && !Sorted(items)
      && IndexDb.LowerBound(items, [1]) == 0
      && BinarySeek(items, [1], 0, 2) == 2
  {
    var items: seq<Key> := [[1], [0]];
    assert !LexLe(items[0], items[1]);
    assert !LexLe([1], items[1]);
    assert LexLe([1], items[0]);
  }

  /** Under either seek, every part passes the check, sorted or not: both only
      return an item they compared as at or after [b], and such an item is
      non-empty and starts with a byte at least b. */
  lemma SeekPassesValidation(items: seq<Key>)
    ensures ValidateOrder(PartSeek(items)).Ok?
    ensures ValidateOrder(BinaryPartSeek(items)).Ok?
  {
    forall b: byte
      ensures ProbeOk(PartSeek(items), b) && ProbeOk(BinaryPartSeek(items), b)
    {
      var i := IndexDb.LowerBound(items, [b]);
      if i < |items| {
        assert LexLe([b], items[i]);
      }
      var k := BinarySeek(items, [b], 0, |items|);
      if k < |items| {
        assert LexLe([b], items[k]);
      }
    }
  }

  /** For a sorted part the halving search lands where the specified seek
      does on every probe of the check, so the two see the same items. */
  lemma SortedPartPassesValidation(items: seq<Key>)
    requires Sorted(items)
    ensures forall b: byte :: BinarySeek(items, [b], 0, |items|) == IndexDb.LowerBound(items, [b])
    ensures ValidateOrder(BinaryPartSeek(items)).Ok?
  {
    forall b: byte
      ensures BinarySeek(items, [b], 0, |items|) == IndexDb.LowerBound(items, [b])
    {
      SortedBinarySeekIsLowerBound(items, [b]);
    }
    SeekPassesValidation(items);
  }

  /** Any seek that lands on an item starting below the sought byte aborts the
      check. */
  lemma MisorderedSeekAborts(search: Key -> Probe, b: byte)
    requires search([b]).Found? && |search([b]).item| > 0 && search([b]).item[0] < b
    ensures ValidateOrder(search).Fatal?
  {
    assert !ProbeOk(search, b);
  }
}
