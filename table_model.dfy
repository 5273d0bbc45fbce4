/** The HashTable of hashtable.js as values: a `Table` holds the three
    fields `bucketCount`, `count` and `buckets`, and every operation is a
    function from the table before to the table after plus what the call
    reported. These functions are the specification the class in
    hashtable.dfy is proved against. */
module TableModel {
  import opened Hashing
  import opened Chains

  /** The two errors the code throws, and the TypeError raised when it reads
      a field of `undefined` or `null`. */
  datatype Error = DuplicateKey | KeyNotFound | TypeError

  /** How a call of `insert`, `delete` or `#resize` ends. */
  datatype Outcome = Done | Fail(error: Error)

  /** How a call of `get` ends: its only error is KeyNotFound. */
  datatype Lookup<V> = Found(value: V) | NotFound

  datatype Table<V> = Table(bucketCount: int, count: int, buckets: seq<Slot<V>>)

  /** The table the constructor builds. */
  function Empty<V>(): Table<V>
  {
    Table(1, 0, [])
  }

  predicate IsPow2(n: int)
    decreases if n > 0 then n else 0
  {
    n == 1 || (n > 1 && n % 2 == 0 && IsPow2(n / 2))
  }

  /** What every call needs of the table for the code to run as modelled:
      an integral, non-zero bucket count that halving keeps integral, and
      a count within the load-factor bound. */
  ghost predicate Shaped<V>(t: Table<V>)
  {
    && t.bucketCount >= 1 && IsPow2(t.bucketCount)
    && 0 <= t.count <= 2 * t.bucketCount
    && ChainsNonEmpty(t.buckets)
  }

  /** Every entry sits in the chain its key hashes to. */
  ghost predicate Keyed<V>(b: seq<Slot<V>>, n: int)
    requires n >= 1
  {
    forall j: nat, e :: e in Entries(At(b, j)) ==> Hash(e.key, n) == j
  }

  /** The table invariant: the array is no longer than the bucket count,
      `count` is at least the number of entries, and entries are keyed. */
  ghost predicate Inv<V>(t: Table<V>)
  {
    && Shaped(t)
    && |t.buckets| <= t.bucketCount
    && |Flatten(t.buckets)| <= t.count
    && Keyed(t.buckets, t.bucketCount)
  }

  /** Lines 67-94 of `insert`, after the load check: hash, then start a
      chain in an empty slot, reject a key equal to the chain head, or walk
      to the tail and append. */
  function Place<V>(t: Table<V>, key: string, value: V): (r: (Table<V>, Outcome))
    requires t.bucketCount >= 1 && ChainsNonEmpty(t.buckets)
    ensures r.0.bucketCount == t.bucketCount && ChainsNonEmpty(r.0.buckets)
    ensures r.1.Done? ==> r.0.count == t.count + 1
    ensures r.1.Fail? ==> r.0 == t && r.1.error != KeyNotFound
  {
    var h := Hash(key, t.bucketCount);
    var slot := At(t.buckets, h);
    if slot.Hole? then
      (t.(buckets := Put(t.buckets, h, Chain([Entry(key, value)], false)), count := t.count + 1), Done)
    else if slot.entries[0].key == key then
      (t, Fail(DuplicateKey))
    else if slot.undefinedTail then
      // the walk steps onto `undefined` and then reads its `next`
      (t, Fail(TypeError))
    else
      (t.(buckets := Put(t.buckets, h, Chain(slot.entries + [Entry(key, value)], false)), count := t.count + 1), Done)
  }

  /** Re-inserting the entries `es[j..]` of one old chain during `#resize`:
      each `insert` is followed by `count--`; a throwing insert ends it. */
  function ReinsertEntries<V>(t: Table<V>, es: seq<Entry<V>>, j: nat): (r: (Table<V>, Outcome))
    requires t.bucketCount >= 1 && ChainsNonEmpty(t.buckets) && j <= |es|
    ensures r.0.bucketCount == t.bucketCount && r.0.count == t.count && ChainsNonEmpty(r.0.buckets)
    ensures r.1 != Fail(KeyNotFound)
    decreases |es| - j
  {
    if j == |es| then (t, Done)
    else
      var (t', o) := Place(t, es[j].key, es[j].value);
      if o.Fail? then (t', o)
      else ReinsertEntries(t'.(count := t'.count - 1), es, j + 1)
  }

  /** The `for...of` pass of `#resize` over the old slots from `i` on. */
  function Reinsert<V>(t: Table<V>, prev: seq<Slot<V>>, i: nat): (r: (Table<V>, Outcome))
    requires t.bucketCount >= 1 && ChainsNonEmpty(t.buckets)
    requires ChainsNonEmpty(prev) && i <= |prev|
    ensures r.0.bucketCount == t.bucketCount && r.0.count == t.count && ChainsNonEmpty(r.0.buckets)
    ensures r.1 != Fail(KeyNotFound)
    decreases |prev| - i
  {
    if i == |prev| then (t, Done)
    else if prev[i].Hole? then
      // `hash.key` on the `undefined` a hole yields
      (t, Fail(TypeError))
    else
      assert At(prev, i) == prev[i];
      var (t', o) := ReinsertEntries(t, prev[i].entries, 0);
      if o.Fail? then (t', o)
      else if !Next(prev[i], 0).Node? then
        // `if (!hash.next) break;` leaves the whole pass
        (t', Done)
      else Reinsert(t', prev, i + 1)
  }

  /** `#resize(newBucketCount)`. Its re-inserts go through `insert`, whose
      load check sees `count` unchanged and the new bucket count; the
      requirement `count < 2 * newBucketCount` is exactly what makes that
      check fail every time, so each re-insert is a `Place`. */
  function Resize<V>(t: Table<V>, newBucketCount: int): (r: (Table<V>, Outcome))
    requires newBucketCount >= 1 && ChainsNonEmpty(t.buckets)
    requires t.count < 2 * newBucketCount
    ensures r.0.bucketCount == newBucketCount && r.0.count == t.count && ChainsNonEmpty(r.0.buckets)
    ensures r.1 != Fail(KeyNotFound)
  {
    Reinsert(Table(newBucketCount, t.count, []), t.buckets, 0)
  }

  /** The last old slot the pass of `#resize` visits, plus one: it stops
      after the first slot holding a single entry, and crashes on a hole. */
  function PassEnd<V>(prev: seq<Slot<V>>, i: nat): (e: nat)
    requires i <= |prev|
    ensures i <= e <= |prev|
    decreases |prev| - i
  {
    if i == |prev| then i
    else if prev[i].Hole? || |prev[i].entries| <= 1 then i + 1
    else PassEnd(prev, i + 1)
  }

  /** Lines 63-65: grow to twice the buckets when `count / bucketCount >= 2`. */
  function GrowIfNeeded<V>(t: Table<V>): (r: (Table<V>, Outcome))
    requires Shaped(t)
  {
    if t.count >= 2 * t.bucketCount then Resize(t, 2 * t.bucketCount) else (t, Done)
  }

  /** `insert(key, value)`. */
  function Insert<V>(t: Table<V>, key: string, value: V): (r: (Table<V>, Outcome))
    requires Shaped(t)
    ensures Shaped(r.0)
    ensures r.0.bucketCount == if t.count >= 2 * t.bucketCount then 2 * t.bucketCount else t.bucketCount
    ensures r.0.count == if r.1.Done? then t.count + 1 else t.count
    ensures r.1 != Fail(KeyNotFound)
  {
    var (t1, o1) := GrowIfNeeded(t);
    if o1.Fail? then (t1, o1) else Place(t1, key, value)
  }

  /** `get(key)`: the value of the first entry with `key` in its chain. */
  function Get<V>(t: Table<V>, key: string): Lookup<V>
    requires t.bucketCount >= 1
  {
    match At(t.buckets, Hash(key, t.bucketCount))
    case Hole => NotFound
    case Chain(es, _) =>
      match Find(es, key)
      case Some(m) => Found(es[m].value)
      case None => NotFound
  }

  /** Lines 123-125: shrink to half the buckets when `count / bucketCount <= 0.5`. */
  function ShrinkIfNeeded<V>(t: Table<V>): (r: (Table<V>, Outcome))
    requires Shaped(t) && (t.count > 0 || t.bucketCount > 1)
  {
    if 2 * t.count <= t.bucketCount then Resize(t, t.bucketCount / 2) else (t, Done)
  }

  /** Lines 127-157 of `delete`, after the load check: unlink the first node
      with `key`. Removing a lone head empties the slot; removing a tail
      leaves its predecessor's `next` as `undefined`; a key missing from a
      non-empty chain runs the walk off its end. */
  function Unlink<V>(t: Table<V>, key: string): (r: (Table<V>, Outcome))
    requires t.bucketCount >= 1 && ChainsNonEmpty(t.buckets)
    ensures r.0.bucketCount == t.bucketCount && ChainsNonEmpty(r.0.buckets)
    ensures r.0.count == if r.1.Done? then t.count - 1 else t.count
  {
    var h := Hash(key, t.bucketCount);
    match At(t.buckets, h)
    case Hole => (t, Fail(KeyNotFound))
    case Chain(es, undefinedTail) =>
      if es[0].key == key then
        var rest := if |es| == 1 then Hole else Chain(es[1..], undefinedTail);
        (t.(buckets := Put(t.buckets, h, rest), count := t.count - 1), Done)
      else
        match Find(es, key)
        case None => (t, Fail(TypeError))
        case Some(m) =>
          var rest := Chain(es[..m] + es[m + 1..], if m + 1 == |es| then true else undefinedTail);
          (t.(buckets := Put(t.buckets, h, rest), count := t.count - 1), Done)
  }

  /** `delete(key)`. */
  function Delete<V>(t: Table<V>, key: string): (r: (Table<V>, Outcome))
    requires Shaped(t) && (t.count > 0 || t.bucketCount > 1)
    ensures r.0.bucketCount == if 2 * t.count <= t.bucketCount then t.bucketCount / 2 else t.bucketCount
    ensures r.0.count == if r.1.Done? then t.count - 1 else t.count
  {
    var (t1, o1) := ShrinkIfNeeded(t);
    if o1.Fail? then (t1, o1) else Unlink(t1, key)
  }
}
