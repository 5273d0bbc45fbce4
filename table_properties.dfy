/** What hashtable.js promises about `insert`, `get` and `delete`, proved of
    the TableModel functions: the table invariant each keeps, what `get`
    finds, and the effect of each call on the one chain it touches. */
module TableProperties {
  import opened Hashing
  import opened Chains
  import opened TableModel
  import opened ResizeProofs

  lemma Pow2Double(n: int)
    requires IsPow2(n)
    ensures IsPow2(2 * n)
  {
    assert (2 * n) / 2 == n;
  }

  lemma Pow2Half(n: int)
    requires IsPow2(n) && n > 1
    ensures IsPow2(n / 2) && 2 * (n / 2) == n
  {
  }

  /** In a keyed table a key is stored exactly when the chain it hashes to
      holds it. */
  lemma KeyedKeys<V>(b: seq<Slot<V>>, n: int, key: string)
    requires n >= 1 && Keyed(b, n)
    ensures key in Keys(b) <==> key in KeysOf(Entries(At(b, Hash(key, n))))
  {
    var h := Hash(key, n);
    if key in Keys(b) {
      var e :| e in Flatten(b) && e.key == key;
      var j := FlattenSlot(b, e);
      assert At(b, j) == b[j];
    }
    if key in KeysOf(Entries(At(b, h))) {
      var e :| e in Entries(At(b, h)) && e.key == key;
      SlotInFlatten(b, h);
      assert e in multiset(Flatten(b));
    }
  }

  /** `get` reports KeyNotFound exactly when the key is stored nowhere. */
  lemma GetMeaning<V>(t: Table<V>, key: string)
    requires Inv(t)
    ensures TableModel.Get(t, key).NotFound? <==> key !in Keys(t.buckets)
  {
    KeyedKeys(t.buckets, t.bucketCount, key);
  }

  /** `get` returns the value of the first entry with the key in the chain
      of its hash, scanning head first. */
  lemma GetFirst<V>(t: Table<V>, key: string, v: V)
    requires t.bucketCount >= 1
    ensures var es := Entries(At(t.buckets, Hash(key, t.bucketCount)));
      TableModel.Get(t, key) == Found(v) <==>
        exists m :: 0 <= m < |es| && es[m] == Entry(key, v) && forall i :: 0 <= i < m ==> es[i].key != key
  {
    var es := Entries(At(t.buckets, Hash(key, t.bucketCount)));
    if TableModel.Get(t, key) == Found(v) {
      var m := Find(es, key).value;
      assert es[m] == Entry(key, v);
    }
    if exists m :: 0 <= m < |es| && es[m] == Entry(key, v) && forall i :: 0 <= i < m ==> es[i].key != key {
      var m :| 0 <= m < |es| && es[m] == Entry(key, v) && forall i :: 0 <= i < m ==> es[i].key != key;
      assert es[m].key == key;
      var f := Find(es, key);
      assert f.Some? && f.value == m;
      assert At(t.buckets, Hash(key, t.bucketCount)).Chain?;
      assert TableModel.Get(t, key) == Found(es[m].value);
    }
  }

  /** `get` reads only the chain of the key's hash. */
  lemma GetByChain<V>(t: Table<V>, key: string)
    requires t.bucketCount >= 1
    ensures var es := Entries(At(t.buckets, Hash(key, t.bucketCount)));
      TableModel.Get(t, key) == match Find(es, key) { case Some(m) => Found(es[m].value) case None => NotFound }
  {
  }

  /** `#resize` to a power of two that keeps `count` within its bound keeps
      the invariant, whether it succeeds or throws half-way. */
  lemma ResizeKeepsInv<V>(t: Table<V>, newBucketCount: int)
    requires Inv(t) && IsPow2(newBucketCount) && t.count < 2 * newBucketCount
    ensures Inv(TableModel.Resize(t, newBucketCount).0)
  {
    var r := TableModel.Resize(t, newBucketCount);
    ResizeRebuilt(t, newBucketCount);
    ResizeContents(t, newBucketCount);
    SubMultisetSize(multiset(Flatten(r.0.buckets)), multiset(Flatten(t.buckets)));
  }

  /** The load check of `insert` keeps the invariant. */
  lemma GrowKeepsInv<V>(t: Table<V>)
    requires Inv(t)
    ensures Inv(GrowIfNeeded(t).0)
  {
    if t.count >= 2 * t.bucketCount {
      Pow2Double(t.bucketCount);
      ResizeKeepsInv(t, 2 * t.bucketCount);
    }
  }

  /** Placing an entry below the load bound keeps the invariant. */
  lemma PlaceKeepsInv<V>(t: Table<V>, key: string, value: V)
    requires Inv(t) && t.count < 2 * t.bucketCount
    ensures Inv(Place(t, key, value).0)
  {
    var r := Place(t, key, value);
    PlaceKeyed(t, key, value);
    PlaceAdds(t, key, value);
    if r.1 == Done {
      assert |multiset(Flatten(r.0.buckets))| == |multiset(Flatten(t.buckets))| + 1;
    }
  }

  /** `insert` keeps the invariant. */
  lemma InsertKeepsInv<V>(t: Table<V>, key: string, value: V)
    requires Shaped(t)
    ensures Inv(t) ==> Inv(TableModel.Insert(t, key, value).0)
  {
    if Inv(t) {
      GrowKeepsInv(t);
      var (t1, o1) := GrowIfNeeded(t);
      if o1.Done? {
        PlaceKeepsInv(t1, key, value);
      }
    }
  }

  /** What the part of `delete` after its load check does: it succeeds
      exactly when the chain of the key's hash holds the key, and then
      takes the first entry with that key out of that chain alone; it
      reports KeyNotFound on an empty slot and throws a TypeError when the
      walk runs off the chain. */
  lemma UnlinkEffect<V>(t: Table<V>, key: string)
    requires t.bucketCount >= 1 && ChainsNonEmpty(t.buckets)
    ensures var r := Unlink(t, key);
      var h := Hash(key, t.bucketCount);
      var slot := At(t.buckets, h);
      var es := Entries(slot);
      && (r.1 == Done <==> key in KeysOf(es))
      && (r.1 == Fail(KeyNotFound) <==> slot.Hole?)
      && (r.1 == Fail(TypeError) <==> slot.Chain? && key !in KeysOf(es))
      && (r.1.Fail? ==> r.0 == t)
      && (r.1 == Done ==>
            && Entries(At(r.0.buckets, h)) == RemoveFirst(es, key)
            && (At(r.0.buckets, h).Hole? <==> |es| == 1)
            && (forall j: nat :: j != h ==> At(r.0.buckets, j) == At(t.buckets, j))
            && |r.0.buckets| == |t.buckets|)
  {
    var h := Hash(key, t.bucketCount);
    var slot := At(t.buckets, h);
    if slot.Chain? {
      var es := slot.entries;
      assert es[0] in es;
      if es[0].key != key {
        match Find(es, key)
        case Some(m) =>
          RemoveFirstAt(es, key, m);
          assert es[0] in RemoveFirst(es, key);
        case None =>
      }
    }
  }

  /** Deleting the last entry of a chain other than its head leaves the
      new last node's `next` as `undefined`; every other removal keeps the
      chain's tail as it was. */
  lemma UnlinkTail<V>(t: Table<V>, key: string)
    requires t.bucketCount >= 1 && ChainsNonEmpty(t.buckets)
    ensures var r := Unlink(t, key);
      var h := Hash(key, t.bucketCount);
      var slot := At(t.buckets, h);
      r.1 == Done && At(r.0.buckets, h).Chain? ==>
        (At(r.0.buckets, h).undefinedTail <==>
           slot.undefinedTail || (slot.entries[0].key != key && Find(slot.entries, key) == Some(|slot.entries| - 1)))
  {
  }

  /** A successful unlink removes one entry from the table. */
  lemma UnlinkSize<V>(t: Table<V>, key: string)
    requires t.bucketCount >= 1 && ChainsNonEmpty(t.buckets)
    ensures var r := Unlink(t, key);
      r.1 == Done ==> |Flatten(r.0.buckets)| + 1 == |Flatten(t.buckets)|
  {
    var r := Unlink(t, key);
    var h := Hash(key, t.bucketCount);
    var es := Entries(At(t.buckets, h));
    UnlinkEffect(t, key);
    if r.1 == Done {
      var s := At(r.0.buckets, h);
      assert r.0.buckets == Put(t.buckets, h, s);
      RemoveFirstMultiset(es, key);
      assert |multiset(RemoveFirst(es, key))| + 1 == |multiset(es)|;
      FlattenPutSize(t.buckets, h, s);
    }
  }

  /** A successful unlink keeps every entry in the chain of its hash. */
  lemma UnlinkKeyed<V>(t: Table<V>, key: string)
    requires t.bucketCount >= 1 && ChainsNonEmpty(t.buckets) && Keyed(t.buckets, t.bucketCount)
    ensures Keyed(Unlink(t, key).0.buckets, t.bucketCount)
  {
    var r := Unlink(t, key);
    var h := Hash(key, t.bucketCount);
    var es := Entries(At(t.buckets, h));
    UnlinkEffect(t, key);
    if r.1 == Done {
      RemoveFirstMultiset(es, key);
      forall j: nat, e | e in Entries(At(r.0.buckets, j)) ensures Hash(e.key, t.bucketCount) == j {
        if j == h {
          assert e in multiset(RemoveFirst(es, key));
          assert e in multiset(es);
        } else {
          assert e in Entries(At(t.buckets, j));
        }
      }
    }
  }

  /** The part of `delete` after its load check keeps the invariant. */
  lemma UnlinkKeepsInv<V>(t: Table<V>, key: string)
    requires Inv(t)
    ensures Inv(Unlink(t, key).0)
  {
    UnlinkEffect(t, key);
    UnlinkSize(t, key);
    UnlinkKeyed(t, key);
  }

  /** The load check of `delete` keeps the invariant. */
  lemma ShrinkKeepsInv<V>(t: Table<V>)
    requires Inv(t) && (t.count > 0 || t.bucketCount > 1)
    ensures Inv(ShrinkIfNeeded(t).0)
  {
    if 2 * t.count <= t.bucketCount {
      Pow2Half(t.bucketCount);
      ResizeKeepsInv(t, t.bucketCount / 2);
    }
  }

  /** `delete` keeps the invariant. */
  lemma DeleteKeepsInv<V>(t: Table<V>, key: string)
    requires Inv(t) && (t.count > 0 || t.bucketCount > 1)
    ensures Inv(TableModel.Delete(t, key).0)
  {
    ShrinkKeepsInv(t);
    var (t1, o1) := ShrinkIfNeeded(t);
    if o1.Done? {
      UnlinkKeepsInv(t1, key);
    }
  }

  /** A key absent from the table stays absent while the load check
      rebuilds it. */
  lemma GrowKeepsAbsent<V>(t: Table<V>, key: string)
    requires Inv(t) && key !in Keys(t.buckets)
    ensures key !in Keys(GrowIfNeeded(t).0.buckets)
  {
    if t.count >= 2 * t.bucketCount {
      var r := TableModel.Resize(t, 2 * t.bucketCount);
      ResizeContents(t, 2 * t.bucketCount);
      KeysOfSub(Flatten(r.0.buckets), Flatten(t.buckets));
    }
  }

  /** Inserting a key the table does not hold: after the load check it
      appends the entry at the tail of the chain of the key's hash, leaves
      every other slot alone, adds one to `count`, and `get` then finds the
      new value. It fails only on a chain whose tail `delete` left as
      `undefined`, which a successful grow never leaves. */
  lemma InsertNewKey<V>(t: Table<V>, key: string, value: V)
    requires Inv(t) && key !in Keys(t.buckets)
    ensures var (t1, o1) := GrowIfNeeded(t);
      var r := TableModel.Insert(t, key, value);
      var h := Hash(key, t1.bucketCount);
      var slot := At(t1.buckets, h);
      o1 == Done ==>
        && (r.1 == Done <==> !(slot.Chain? && slot.undefinedTail))
        && (t.count >= 2 * t.bucketCount ==> r.1 == Done)
        && (r.1 == Done ==>
              && r.0.count == t.count + 1
              && Entries(At(r.0.buckets, h)) == Entries(slot) + [Entry(key, value)]
              && (forall j: nat :: j != h ==> At(r.0.buckets, j) == At(t1.buckets, j))
              && TableModel.Get(r.0, key) == Found(value))
  {
    var (t1, o1) := GrowIfNeeded(t);
    if o1 == Done {
      GrowKeepsInv(t);
      GrowKeepsAbsent(t, key);
      var h := Hash(key, t1.bucketCount);
      var slot := At(t1.buckets, h);
      KeyedKeys(t1.buckets, t1.bucketCount, key);
      if slot.Chain? {
        assert slot.entries[0] in slot.entries;
      }
      PlaceEffect(t1, key, value);
      if t.count >= 2 * t.bucketCount {
        ResizeRebuilt(t, 2 * t.bucketCount);
      }
      FindAppend(Entries(slot), Entry(key, value), key);
    }
  }

  /** `insert` rejects a key exactly when, after the load check, it equals
      the key at the head of the chain of its hash; the rejected call leaves
      the table as the load check left it. */
  lemma InsertHeadDuplicate<V>(t: Table<V>, key: string, value: V)
    requires Shaped(t)
    ensures var (t1, o1) := GrowIfNeeded(t);
      var slot := At(t1.buckets, Hash(key, t1.bucketCount));
      var r := TableModel.Insert(t, key, value);
      && (r.1 == Fail(DuplicateKey) <==>
            o1 == Fail(DuplicateKey) || (o1 == Done && slot.Chain? && slot.entries[0].key == key))
      && (o1 == Done && r.1 == Fail(DuplicateKey) ==> r.0 == t1)
  {
    var (t1, o1) := GrowIfNeeded(t);
    if o1 == Done {
      PlaceEffect(t1, key, value);
    }
  }

  /** A key that occurs in a chain only past its head is not caught: a
      second entry is appended, and `get` keeps returning the older value. */
  lemma InsertLaterDuplicate<V>(t: Table<V>, key: string, value: V)
    requires Shaped(t)
    ensures var (t1, o1) := GrowIfNeeded(t);
      var h := Hash(key, t1.bucketCount);
      var slot := At(t1.buckets, h);
      var r := TableModel.Insert(t, key, value);
      o1 == Done && slot.Chain? && slot.entries[0].key != key && !slot.undefinedTail
        && key in KeysOf(slot.entries) ==>
          && r.1 == Done
          && Entries(At(r.0.buckets, h)) == slot.entries + [Entry(key, value)]
          && TableModel.Get(r.0, key) == TableModel.Get(t1, key)
          && TableModel.Get(t1, key).Found?
  {
    var (t1, o1) := GrowIfNeeded(t);
    if o1 == Done {
      var h := Hash(key, t1.bucketCount);
      var slot := At(t1.buckets, h);
      PlaceEffect(t1, key, value);
      FindAppend(Entries(slot), Entry(key, value), key);
    }
  }

  /** Deleting a key the chain of its hash holds, after the load check:
      the first entry with that key leaves that chain and the rest keep
      their order, the slot empties when that entry was alone, no other
      slot changes, `count` drops by one, every other key reads as before,
      and the key is gone when it occurred once. */
  lemma DeleteFound<V>(t: Table<V>, key: string)
    requires Shaped(t) && (t.count > 0 || t.bucketCount > 1)
    ensures var (t1, o1) := ShrinkIfNeeded(t);
      var h := Hash(key, t1.bucketCount);
      var es := Entries(At(t1.buckets, h));
      var r := TableModel.Delete(t, key);
      o1 == Done && key in KeysOf(es) ==>
        && r.1 == Done
        && r.0.count == t.count - 1
        && Entries(At(r.0.buckets, h)) == RemoveFirst(es, key)
        && (At(r.0.buckets, h).Hole? <==> |es| == 1)
        && (forall j: nat :: j != h ==> At(r.0.buckets, j) == At(t1.buckets, j))
        && (forall k :: k != key ==> TableModel.Get(r.0, k) == TableModel.Get(t1, k))
        && (AtMostOnce(es, key) ==> TableModel.Get(r.0, key) == NotFound)
  {
    var (t1, o1) := ShrinkIfNeeded(t);
    var h := Hash(key, t1.bucketCount);
    var es := Entries(At(t1.buckets, h));
    if o1 == Done && key in KeysOf(es) {
      var r := TableModel.Delete(t, key);
      assert r == Unlink(t1, key);
      UnlinkEffect(t1, key);
      forall k | k != key ensures TableModel.Get(r.0, k) == TableModel.Get(t1, k) {
        GetByChain(r.0, k);
        GetByChain(t1, k);
        if Hash(k, t1.bucketCount) == h {
          RemoveFirstKeepsOthers(es, key, k);
        }
      }
      if AtMostOnce(es, key) {
        RemoveFirstOnly(es, key);
        GetByChain(r.0, key);
      }
    }
  }

  /** Deleting a key the chain of its hash does not hold fails after the
      load check, keeping whatever shrink the check made: with KeyNotFound
      on an empty slot, and with a TypeError once the walk runs off a
      non-empty chain. */
  lemma DeleteMissing<V>(t: Table<V>, key: string)
    requires Shaped(t) && (t.count > 0 || t.bucketCount > 1)
    ensures var (t1, o1) := ShrinkIfNeeded(t);
      var slot := At(t1.buckets, Hash(key, t1.bucketCount));
      o1 == Done && key !in KeysOf(Entries(slot)) ==>
        TableModel.Delete(t, key) == (t1, Fail(if slot.Hole? then KeyNotFound else TypeError))
  {
    var (t1, o1) := ShrinkIfNeeded(t);
    if o1 == Done {
      UnlinkEffect(t1, key);
    }
  }
}
