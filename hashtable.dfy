/** The `HashTable` class of hashtable.js: separate chaining over a JavaScript
    array of buckets, growing before an insert and shrinking before a delete.
    Each method does what the source does, step by step, and is proved to
    end in the state and outcome that the matching function of TableModel
    gives for the state it started from. */
module HashTables {
  import opened Hashing
  import opened Chains
  import opened TableModel
  import TableProperties
  import ResizeProofs

  class HashTable<V> {
    var bucketCount: int
    var count: int
    var buckets: seq<Slot<V>>

    /** The fields as a TableModel value. */
    ghost function State(): Table<V>
      reads this
    {
      Table(bucketCount, count, buckets)
    }

    ghost predicate Valid()
      reads this
    {
      Inv(State())
    }

    constructor ()
      ensures State() == Empty() && Valid()
    {
      bucketCount := 1;
      buckets := [];
      count := 0;
    }

    /** `hash(key)`: a running sum of the character codes, reduced modulo
        the bucket count after every character. */
    method Hash(key: string) returns (result: int)
      requires bucketCount >= 1
      ensures result == Hashing.Hash(key, bucketCount)
      ensures 0 <= result < bucketCount
    {
      result := 0;
      for i := 0 to |key|
        invariant result == Hashing.Hash(key[..i], bucketCount)
      {
        assert key[..i + 1][..i] == key[..i];
        result := (result + key[i] as int) % bucketCount;
      }
      assert key[..|key|] == key;
    }

    /** `#resize(newBucketCount)`: rebuild the buckets by calling `insert`
        on every old entry, undoing each increment of `count`. */
    method Resize(newBucketCount: int) returns (o: Outcome)
      requires Shaped(State()) && IsPow2(newBucketCount) && count < 2 * newBucketCount
      modifies this
      decreases 3
      ensures (State(), o) == TableModel.Resize(old(State()), newBucketCount)
      ensures Shaped(State())
    {
      ghost var goal := TableModel.Resize(State(), newBucketCount);
      var oldBuckets := buckets;
      bucketCount := newBucketCount;
      buckets := [];
      o := Done;
      for i := 0 to |oldBuckets|
        invariant bucketCount == newBucketCount && count == old(count)
        invariant ChainsNonEmpty(buckets) && ChainsNonEmpty(oldBuckets)
        invariant Reinsert(State(), oldBuckets, i) == goal
        invariant o == Done
      {
        var hash := oldBuckets[i];
        assert At(oldBuckets, i) == hash;
        if hash.Hole? {
          // `hash.key` reads a field of `undefined`
          o := Fail(TypeError);
          return;
        }
        ghost var slotStart := State();
        var es := hash.entries;
        ResizeProofs.ReinsertStep(slotStart, oldBuckets, i);
        ResizeProofs.ReinsertEntriesStep(slotStart, es, 0);
        o := Readd(es[0].key, es[0].value);
        if o.Fail? {
          return;
        }
        if !Next(hash, 0).Node? {
          assert ReinsertEntries(State(), es, 1) == (State(), Done);
          return;
        }
        o := ReinsertRest(hash);
        if o.Fail? {
          return;
        }
      }
    }

    /** The inner `while (true)` loop of `#resize`: re-insert the nodes of
        one old chain after its head, undoing each increment of `count`. */
    method ReinsertRest(hash: Slot<V>) returns (o: Outcome)
      requires hash.Chain? && |hash.entries| > 1
      requires bucketCount >= 1 && IsPow2(bucketCount) && 0 <= count < 2 * bucketCount
      requires ChainsNonEmpty(buckets)
      modifies this
      decreases 2
      ensures (State(), o) == ReinsertEntries(old(State()), hash.entries, 1)
    {
      var es := hash.entries;
      ghost var chainEnd := ReinsertEntries(State(), es, 1);
      var item := 1;
      o := Done;
      while true
        invariant 1 <= item < |es|
        invariant bucketCount == old(bucketCount) && count == old(count)
        invariant ChainsNonEmpty(buckets)
        invariant ReinsertEntries(State(), es, item) == chainEnd
        decreases |es| - item
      {
        ResizeProofs.ReinsertEntriesStep(State(), es, item);
        o := Readd(es[item].key, es[item].value);
        if o.Fail? {
          return;
        }
        var next := Next(hash, item);
        if !next.Node? {
          break;
        }
        item := next.index;
      }
    }

    /** `this.insert(key, value); this.count--;`, the step `#resize` takes
        for every old node: the load check cannot fire, so the node is
        placed, and `count` is restored unless the insert threw. */
    method Readd(key: string, value: V) returns (o: Outcome)
      requires bucketCount >= 1 && IsPow2(bucketCount) && 0 <= count < 2 * bucketCount
      requires ChainsNonEmpty(buckets)
      modifies this
      decreases 1
      ensures var p := TableModel.Place(old(State()), key, value);
        (State(), o) == if p.1.Fail? then p else (p.0.(count := p.0.count - 1), Done)
    {
      o := Insert(key, value);
      if o.Fail? {
        return;
      }
      count := count - 1;
    }

    /** `insert(key, value)`. */
    method Insert(key: string, value: V) returns (o: Outcome)
      requires Shaped(State())
      modifies this
      decreases if count >= 2 * bucketCount then 4 else 0
      ensures (State(), o) == TableModel.Insert(old(State()), key, value)
      ensures Shaped(State())
      ensures old(Valid()) ==> Valid()
    {
      TableProperties.InsertKeepsInv(State(), key, value);
      o := Done;
      if count >= 2 * bucketCount {
        TableProperties.Pow2Double(bucketCount);
        o := Resize(bucketCount * 2);
        if o.Fail? {
          return;
        }
      }
      o := Place(key, value);
    }

    /** The part of `insert` after the load check: start a chain in an
        empty slot, reject a key equal to the chain head, or walk to the
        tail and append there. */
    method Place(key: string, value: V) returns (o: Outcome)
      requires bucketCount >= 1 && ChainsNonEmpty(buckets)
      modifies this
      ensures (State(), o) == TableModel.Place(old(State()), key, value)
    {
      o := Done;
      var hashedKey := Hash(key);
      var slot := At(buckets, hashedKey);
      if slot.Hole? {
        buckets := Put(buckets, hashedKey, Chain([Entry(key, value)], false));
        count := count + 1;
        return;
      }
      var es := slot.entries;
      if es[0].key == key {
        o := Fail(DuplicateKey);
        return;
      }
      var item := 0;
      while true
        invariant 0 <= item < |es|
        decreases |es| - item
      {
        var next := Next(slot, item);
        if next.Null? {
          break;
        }
        if next.Undefined? {
          // `item` becomes `undefined` and the next `item.next` throws
          o := Fail(TypeError);
          return;
        }
        item := next.index;
      }
      buckets := Put(buckets, hashedKey, Chain(es + [Entry(key, value)], false));
      count := count + 1;
    }

    /** `get(key)`: scan the chain head first. */
    method Get(key: string) returns (r: Lookup<V>)
      requires bucketCount >= 1 && ChainsNonEmpty(buckets)
      ensures r == TableModel.Get(State(), key)
      ensures Valid() ==> (r.NotFound? <==> key !in Keys(buckets))
    {
      if Valid() {
        TableProperties.GetMeaning(State(), key);
      }
      var hashedKey := Hash(key);
      var slot := At(buckets, hashedKey);
      if slot.Hole? {
        return NotFound;
      }
      var es := slot.entries;
      if es[0].key == key {
        return Found(es[0].value);
      }
      var item := 0;
      while true
        invariant 0 <= item < |es|
        invariant forall i :: 0 <= i <= item ==> es[i].key != key
        decreases |es| - item
      {
        var next := Next(slot, item);
        if !next.Node? {
          return NotFound;
        }
        if es[next.index].key == key {
          return Found(es[next.index].value);
        }
        item := next.index;
      }
    }

    /** `delete(key)`: shrink first, then unlink. */
    method Delete(key: string) returns (o: Outcome)
      requires Shaped(State()) && (count > 0 || bucketCount > 1)
      modifies this
      ensures (State(), o) == TableModel.Delete(old(State()), key)
      ensures old(Valid()) ==> Valid()
    {
      if Valid() {
        TableProperties.DeleteKeepsInv(State(), key);
      }
      o := Done;
      if 2 * count <= bucketCount {
        TableProperties.Pow2Half(bucketCount);
        o := Resize(bucketCount / 2);
        if o.Fail? {
          return;
        }
      }
      o := Unlink(key);
    }

    /** The part of `delete` after the load check: find the first node with
        `key` in its chain and unlink it. */
    method Unlink(key: string) returns (o: Outcome)
      requires bucketCount >= 1 && ChainsNonEmpty(buckets)
      modifies this
      ensures (State(), o) == TableModel.Unlink(old(State()), key)
    {
      var hashedKey := Hash(key);
      var slot := At(buckets, hashedKey);
      if slot.Hole? {
        return Fail(KeyNotFound);
      }
      var es := slot.entries;
      if es[0].key == key {
        if !Next(slot, 0).Node? {
          buckets := Put(buckets, hashedKey, Hole);
          count := count - 1;
          return Done;
        }
        buckets := Put(buckets, hashedKey, Chain(es[1..], slot.undefinedTail));
        count := count - 1;
        return Done;
      }
      o := UnlinkAfterHead(key, hashedKey);
    }

    /** The walk of `delete` past a chain head that does not hold `key`:
        look at the node after `item` and splice it out when it has `key`. */
    method UnlinkAfterHead(key: string, hashedKey: int) returns (o: Outcome)
      requires bucketCount >= 1 && ChainsNonEmpty(buckets)
      requires hashedKey == Hashing.Hash(key, bucketCount)
      requires At(buckets, hashedKey).Chain? && At(buckets, hashedKey).entries[0].key != key
      modifies this
      ensures (State(), o) == TableModel.Unlink(old(State()), key)
    {
      var slot := At(buckets, hashedKey);
      var es := slot.entries;
      var item := 0;
      while true
        invariant 0 <= item < |es|
        invariant forall i :: 0 <= i <= item ==> es[i].key != key
        invariant State() == old(State())
        decreases |es| - item
      {
        var next := Next(slot, item);
        if !next.Node? {
          // `item.next.key` reads a field of `null` or `undefined`
          return Fail(TypeError);
        }
        var m := next.index;
        if es[m].key == key {
          FindUnique(es, key, m);
          var rest;
          if !Next(slot, m).Node? {
            // `item.next = undefined`
            assert es[..m] + es[m + 1..] == es[..m];
            rest := Chain(es[..m], true);
          } else {
            rest := Chain(es[..m] + es[m + 1..], slot.undefinedTail);
          }
          buckets := Put(buckets, hashedKey, rest);
          count := count - 1;
          return Done;
        }
        item := m;
      }
    }
  }
}
