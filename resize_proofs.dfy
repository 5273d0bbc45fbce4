/** What `#resize` does to the entries of the table: it re-inserts, in old
    slot order and chain order, the entries of the old slots up to the
    first slot holding a single entry, drops every later slot, crashes on
    a hole among the slots it visits, and keeps `count`. */
module ResizeProofs {
  import opened Hashing
  import opened Chains
  import opened TableModel

  /** What holds of the buckets `#resize` is building: every chain in them
      was built by `insert`, so none ends in `undefined`. */
  ghost predicate Rebuilt<V>(t: Table<V>)
  {
    && Appendable(t)
    && |t.buckets| <= t.bucketCount
    && Keyed(t.buckets, t.bucketCount)
  }

  /** Every chain can be appended to: none ends in `undefined`. */
  ghost predicate Appendable<V>(t: Table<V>)
  {
    t.bucketCount >= 1 && ChainsNonEmpty(t.buckets) && NoUndefinedTail(t.buckets)
  }

  /** The entries of `es` whose key hashes to `k` under `n` buckets, in order. */
  function Rehashed<V>(es: seq<Entry<V>>, n: int, k: nat): (r: seq<Entry<V>>)
    requires n >= 1
    ensures forall e :: e in r ==> e in es && Hash(e.key, n) == k
  {
    if es == [] then []
    else (if Hash(es[0].key, n) == k then [es[0]] else []) + Rehashed(es[1..], n, k)
  }

  /** The entries of a suffix that hash to `k`: its first entry if it does,
      then those of the rest. */
  lemma RehashedStep<V>(es: seq<Entry<V>>, j: nat, n: int, k: nat)
    requires n >= 1 && j < |es|
    ensures Rehashed(es[j..], n, k)
         == (if Hash(es[j].key, n) == k then [es[j]] else []) + Rehashed(es[j + 1..], n, k)
  {
    assert es[j..][1..] == es[j + 1..];
  }

  lemma {:induction false} RehashedConcat<V>(a: seq<Entry<V>>, b: seq<Entry<V>>, n: int, k: nat)
    requires n >= 1
    ensures Rehashed(a + b, n, k) == Rehashed(a, n, k) + Rehashed(b, n, k)
  {
    if a != [] {
      assert (a + b)[1..] == a[1..] + b;
      RehashedConcat(a[1..], b, n, k);
    } else {
      assert a + b == b;
    }
  }

  /** `insert` without its load check: it succeeds exactly when the slot is
      empty or its head has another key and its tail is `null`, and then
      it appends the entry to that chain and to no other. */
  lemma PlaceEffect<V>(t: Table<V>, key: string, value: V)
    requires t.bucketCount >= 1 && ChainsNonEmpty(t.buckets)
    ensures var r := Place(t, key, value);
      var h := Hash(key, t.bucketCount);
      var slot := At(t.buckets, h);
      && (r.1 == Done <==> slot.Hole? || (slot.entries[0].key != key && !slot.undefinedTail))
      && (r.1 == Fail(DuplicateKey) <==> slot.Chain? && slot.entries[0].key == key)
      && (r.1 == Done ==> r.0.buckets == Put(t.buckets, h, Chain(Entries(slot) + [Entry(key, value)], false)))
  {
    var slot := At(t.buckets, Hash(key, t.bucketCount));
    if slot.Hole? {
      assert Entries(slot) + [Entry(key, value)] == [Entry(key, value)];
    }
  }

  /** A successful placement adds exactly the new entry to the table. */
  lemma PlaceAdds<V>(t: Table<V>, key: string, value: V)
    requires t.bucketCount >= 1 && ChainsNonEmpty(t.buckets)
    ensures var r := Place(t, key, value);
      r.1 == Done ==> multiset(Flatten(r.0.buckets)) == multiset(Flatten(t.buckets)) + multiset{Entry(key, value)}
  {
    var h := Hash(key, t.bucketCount);
    var slot := At(t.buckets, h);
    var e := Entry(key, value);
    var grown := Chain(Entries(slot) + [e], false);
    var r := Place(t, key, value);
    PlaceEffect(t, key, value);
    if r.1 == Done {
      FlattenPut(t.buckets, h, grown);
      assert multiset(Entries(grown)) == multiset(Entries(slot)) + multiset{e};
      MultisetCancel(multiset(Flatten(r.0.buckets)), multiset(Flatten(t.buckets)) + multiset{e}, multiset(Entries(slot)));
    }
  }

  /** A successful placement appends the entry to the chain of its hash and
      leaves every other chain as it was. */
  lemma PlaceAppends<V>(t: Table<V>, key: string, value: V, k: nat)
    requires t.bucketCount >= 1 && ChainsNonEmpty(t.buckets)
    ensures var r := Place(t, key, value);
      r.1 == Done ==>
        Entries(At(r.0.buckets, k))
          == Entries(At(t.buckets, k)) + (if Hash(key, t.bucketCount) == k then [Entry(key, value)] else [])
  {
    PlaceEffect(t, key, value);
  }

  /** Placing an entry keeps every entry in the chain of its hash and the
      array within the bucket count. */
  lemma PlaceKeyed<V>(t: Table<V>, key: string, value: V)
    requires t.bucketCount >= 1 && ChainsNonEmpty(t.buckets)
    requires Keyed(t.buckets, t.bucketCount) && |t.buckets| <= t.bucketCount
    ensures var r := Place(t, key, value);
      Keyed(r.0.buckets, t.bucketCount) && |r.0.buckets| <= t.bucketCount
  {
    PlaceEffect(t, key, value);
    var h := Hash(key, t.bucketCount);
    var slot := At(t.buckets, h);
    var r := Place(t, key, value);
    if r.1 == Done {
      forall j: nat, e | e in Entries(At(r.0.buckets, j)) ensures Hash(e.key, t.bucketCount) == j {
        if j == h {
          assert e in Entries(slot) || e == Entry(key, value);
        } else {
          assert e in Entries(At(t.buckets, j));
        }
      }
    }
  }

  /** Inserting into the buckets under construction keeps them rebuilt,
      and fails, if at all, only on a duplicate head. */
  lemma PlaceRebuilt<V>(t: Table<V>, key: string, value: V)
    requires Rebuilt(t)
    ensures var r := Place(t, key, value);
      Rebuilt(r.0) && (r.1 == Done || r.1 == Fail(DuplicateKey))
  {
    PlaceEffect(t, key, value);
    PlaceKeyed(t, key, value);
  }

  /** A successful placement adds its key to the keys of the table. */
  lemma PlaceKeys<V>(t: Table<V>, key: string, value: V)
    requires t.bucketCount >= 1 && ChainsNonEmpty(t.buckets)
    ensures var r := Place(t, key, value);
      r.1 == Done ==> Keys(r.0.buckets) == Keys(t.buckets) + {key}
  {
    var r := Place(t, key, value);
    PlaceAdds(t, key, value);
    if r.1 == Done {
      KeysOfSum(Flatten(r.0.buckets), Flatten(t.buckets), [Entry(key, value)]);
      assert KeysOf([Entry(key, value)]) == {key};
    }
  }

  /** Placing a key the table does not hold into appendable chains succeeds
      and keeps them appendable. */
  lemma PlaceFresh<V>(t: Table<V>, key: string, value: V)
    requires Appendable(t) && key !in Keys(t.buckets)
    ensures var r := Place(t, key, value);
      r.1 == Done && Appendable(r.0)
  {
    PlaceEffect(t, key, value);
    var h := Hash(key, t.bucketCount);
    var slot := At(t.buckets, h);
    if slot.Chain? {
      SlotInFlatten(t.buckets, h);
      assert slot.entries[0] in multiset(Flatten(t.buckets));
    }
  }

  /** The first entry of a run of distinct keys, none in `known`, is not
      in `known`, and the rest of the run is distinct and avoids it too. */
  lemma FreshRun<V>(es: seq<Entry<V>>, j: nat, known: set<string>)
    requires j < |es| && DistinctKeys(es[j..]) && KeysOf(es[j..]) !! known
    ensures es[j].key !in known
    ensures DistinctKeys(es[j + 1..]) && KeysOf(es[j + 1..]) !! known + {es[j].key}
  {
    SuffixFirst(es, j);
    assert es[j].key in KeysOf(es[j..]);
    DistinctKeysConcat([es[j]], es[j + 1..]);
    KeysOfSum(es[j..], [es[j]], es[j + 1..]);
    assert KeysOf([es[j]]) == {es[j].key};
  }

  /** One step of the re-insertion of a chain. */
  lemma ReinsertEntriesStep<V>(t: Table<V>, es: seq<Entry<V>>, j: nat)
    requires t.bucketCount >= 1 && ChainsNonEmpty(t.buckets) && j < |es|
    ensures var p := Place(t, es[j].key, es[j].value);
      ReinsertEntries(t, es, j)
        == if p.1.Fail? then p else ReinsertEntries(p.0.(count := p.0.count - 1), es, j + 1)
  {
  }

  /** Re-inserting a chain keeps the new buckets rebuilt and fails, if at
      all, only on a duplicate head: never on a `null` or `undefined` link. */
  lemma {:induction false} ReinsertEntriesRebuilt<V>(t: Table<V>, es: seq<Entry<V>>, j: nat)
    requires Rebuilt(t) && j <= |es|
    ensures var r := ReinsertEntries(t, es, j);
      Rebuilt(r.0) && (r.1 == Done || r.1 == Fail(DuplicateKey))
    decreases |es| - j
  {
    if j < |es| {
      var p := Place(t, es[j].key, es[j].value);
      ReinsertEntriesStep(t, es, j);
      PlaceRebuilt(t, es[j].key, es[j].value);
      if p.1.Done? {
        ReinsertEntriesRebuilt(p.0.(count := p.0.count - 1), es, j + 1);
      }
    }
  }

  /** Re-inserting the entries `es[j..]` adds exactly those entries when it
      succeeds, and at most those when it fails. */
  lemma {:induction false} ReinsertEntriesAdds<V>(t: Table<V>, es: seq<Entry<V>>, j: nat)
    requires t.bucketCount >= 1 && ChainsNonEmpty(t.buckets) && j <= |es|
    ensures var r := ReinsertEntries(t, es, j);
      && multiset(Flatten(r.0.buckets)) <= multiset(Flatten(t.buckets)) + multiset(es[j..])
      && (r.1 == Done ==> multiset(Flatten(r.0.buckets)) == multiset(Flatten(t.buckets)) + multiset(es[j..]))
    decreases |es| - j
  {
    if j == |es| {
      assert es[j..] == [];
    } else {
      var e := es[j];
      var p := Place(t, e.key, e.value);
      ReinsertEntriesStep(t, es, j);
      if p.1.Done? {
        var t' := p.0.(count := p.0.count - 1);
        assert ReinsertEntries(t, es, j) == ReinsertEntries(t', es, j + 1);
        ReinsertEntriesAdds(t', es, j + 1);
        PlaceAdds(t, e.key, e.value);
        SuffixFirst(es, j);
        var before, added, rest := multiset(Flatten(t.buckets)), multiset{e}, multiset(es[j + 1..]);
        assert multiset(Flatten(t'.buckets)) == before + added;
        assert (before + added) + rest == before + (added + rest);
      }
    }
  }

  /** Re-inserting entries whose keys are distinct and new to the buckets
      under construction succeeds. */
  lemma {:induction false} ReinsertEntriesSucceeds<V>(t: Table<V>, es: seq<Entry<V>>, j: nat)
    requires Appendable(t) && j <= |es|
    requires DistinctKeys(es[j..]) && KeysOf(es[j..]) !! Keys(t.buckets)
    ensures ReinsertEntries(t, es, j).1 == Done
    decreases |es| - j
  {
    if j < |es| {
      var e := es[j];
      var p := Place(t, e.key, e.value);
      ReinsertEntriesStep(t, es, j);
      FreshRun(es, j, Keys(t.buckets));
      PlaceFresh(t, e.key, e.value);
      var t' := p.0.(count := p.0.count - 1);
      assert ReinsertEntries(t, es, j) == ReinsertEntries(t', es, j + 1);
      PlaceKeys(t, e.key, e.value);
      ReinsertEntriesSucceeds(t', es, j + 1);
    }
  }

  /** A successful re-insertion of `es[j..]` appends to chain `k` the
      entries that hash to it, in their order in `es`. */
  lemma {:induction false} ReinsertEntriesOrder<V>(t: Table<V>, es: seq<Entry<V>>, j: nat, k: nat)
    requires t.bucketCount >= 1 && ChainsNonEmpty(t.buckets) && j <= |es|
    ensures var r := ReinsertEntries(t, es, j);
      r.1 == Done ==>
        Entries(At(r.0.buckets, k)) == Entries(At(t.buckets, k)) + Rehashed(es[j..], t.bucketCount, k)
    decreases |es| - j
  {
    if j == |es| {
      assert es[j..] == [];
    } else {
      var e := es[j];
      var p := Place(t, e.key, e.value);
      ReinsertEntriesStep(t, es, j);
      if p.1.Done? {
        var t' := p.0.(count := p.0.count - 1);
        var r := ReinsertEntries(t', es, j + 1);
        assert ReinsertEntries(t, es, j) == r;
        if r.1 == Done {
          ReinsertEntriesOrder(t', es, j + 1, k);
          PlaceAppends(t, e.key, e.value, k);
          RehashedStep(es, j, t.bucketCount, k);
          var mine := if Hash(e.key, t.bucketCount) == k then [e] else [];
          var before, after := Entries(At(t.buckets, k)), Rehashed(es[j + 1..], t.bucketCount, k);
          assert Entries(At(t'.buckets, k)) == before + mine;
          assert Entries(At(r.0.buckets, k)) == (before + mine) + after;
          assert (before + mine) + after == before + (mine + after);
        }
      }
    }
  }

  /** One step of the pass over the old slots, at a slot holding a chain. */
  lemma ReinsertStep<V>(t: Table<V>, prev: seq<Slot<V>>, i: nat)
    requires t.bucketCount >= 1 && ChainsNonEmpty(t.buckets)
    requires ChainsNonEmpty(prev) && i < |prev| && prev[i].Chain?
    ensures |prev[i].entries| > 0
    ensures var q := ReinsertEntries(t, prev[i].entries, 0);
      Reinsert(t, prev, i)
        == if q.1.Fail? then q
           else if |prev[i].entries| == 1 then (q.0, Done)
           else Reinsert(q.0, prev, i + 1)
  {
    assert At(prev, i) == prev[i];
  }

  /** Whether the pass from slot `i` reaches a hole as its last visited slot. */
  predicate EndsInHole<V>(prev: seq<Slot<V>>, i: nat)
    requires i <= |prev|
  {
    var e := PassEnd(prev, i);
    e > i && prev[e - 1].Hole?
  }

  /** Where the pass from a slot holding a chain ends. */
  lemma PassEndChain<V>(prev: seq<Slot<V>>, i: nat)
    requires i < |prev| && prev[i].Chain? && |prev[i].entries| > 0
    ensures PassEnd(prev, i) == if |prev[i].entries| == 1 then i + 1 else PassEnd(prev, i + 1)
    ensures EndsInHole(prev, i) == (|prev[i].entries| > 1 && EndsInHole(prev, i + 1))
  {
  }

  /** The entries the pass visits from a slot holding a chain: that chain,
      then, unless it is a single entry, what the pass visits from the
      next slot. */
  lemma VisitedChain<V>(prev: seq<Slot<V>>, i: nat)
    requires i < |prev| && prev[i].Chain? && |prev[i].entries| > 0
    ensures var e := PassEnd(prev, i);
      Flatten(prev[i..e])
        == prev[i].entries + if |prev[i].entries| == 1 then [] else Flatten(prev[i + 1..e])
  {
    var e := PassEnd(prev, i);
    assert prev[i..e] == [prev[i]] + prev[i + 1..e];
    FlattenConcat([prev[i]], prev[i + 1..e]);
    FlattenSingle(prev[i]);
    if |prev[i].entries| == 1 {
      assert prev[i + 1..e] == [];
    }
  }

  /** The pass keeps the new buckets rebuilt. */
  lemma {:induction false} ReinsertRebuilt<V>(t: Table<V>, prev: seq<Slot<V>>, i: nat)
    requires Rebuilt(t) && ChainsNonEmpty(prev) && i <= |prev|
    ensures Rebuilt(Reinsert(t, prev, i).0)
    decreases |prev| - i
  {
    if i < |prev| && prev[i].Chain? {
      ReinsertStep(t, prev, i);
      var q := ReinsertEntries(t, prev[i].entries, 0);
      ReinsertEntriesRebuilt(t, prev[i].entries, 0);
      if q.1.Done? && |prev[i].entries| > 1 {
        ReinsertRebuilt(q.0, prev, i + 1);
      }
    }
  }

  /** A successful pass met no hole among the slots it visited. */
  lemma {:induction false} ReinsertNoHole<V>(t: Table<V>, prev: seq<Slot<V>>, i: nat)
    requires t.bucketCount >= 1 && ChainsNonEmpty(t.buckets) && ChainsNonEmpty(prev) && i <= |prev|
    ensures Reinsert(t, prev, i).1 == Done ==> forall j :: i <= j < PassEnd(prev, i) ==> prev[j].Chain?
    decreases |prev| - i
  {
    if i < |prev| && prev[i].Chain? {
      ReinsertStep(t, prev, i);
      PassEndChain(prev, i);
      var q := ReinsertEntries(t, prev[i].entries, 0);
      if q.1.Done? && |prev[i].entries| > 1 {
        ReinsertNoHole(q.0, prev, i + 1);
      }
    }
  }

  /** The pass from slot `i` adds at most the entries it visits, and
      exactly those when it succeeds. */
  lemma ReinsertAdds<V>(t: Table<V>, prev: seq<Slot<V>>, i: nat)
    requires t.bucketCount >= 1 && ChainsNonEmpty(t.buckets) && ChainsNonEmpty(prev) && i <= |prev|
    ensures var r := Reinsert(t, prev, i);
      var e := PassEnd(prev, i);
      var visited := Flatten(prev[i..e]);
      && multiset(Flatten(r.0.buckets)) <= multiset(Flatten(t.buckets)) + multiset(visited)
      && (r.1 == Done ==> multiset(Flatten(r.0.buckets)) == multiset(Flatten(t.buckets)) + multiset(visited))
  {
    ReinsertAddsAtMost(t, prev, i);
    ReinsertAddsExact(t, prev, i);
  }

  lemma {:induction false} ReinsertAddsAtMost<V>(t: Table<V>, prev: seq<Slot<V>>, i: nat)
    requires t.bucketCount >= 1 && ChainsNonEmpty(t.buckets) && ChainsNonEmpty(prev) && i <= |prev|
    ensures multiset(Flatten(Reinsert(t, prev, i).0.buckets))
         <= multiset(Flatten(t.buckets)) + multiset(Flatten(prev[i..PassEnd(prev, i)]))
    decreases |prev| - i
  {
    var e := PassEnd(prev, i);
    var before := multiset(Flatten(t.buckets));
    var r := Reinsert(t, prev, i);
    if i == |prev| || prev[i].Hole? {
      assert r.0 == t;
    } else {
      var es := prev[i].entries;
      ReinsertStep(t, prev, i);
      VisitedChain(prev, i);
      PassEndChain(prev, i);
      var q := ReinsertEntries(t, es, 0);
      assert es[0..] == es;
      ReinsertEntriesAdds(t, es, 0);
      var mine, mid := multiset(es), multiset(Flatten(q.0.buckets));
      var rest := if |es| == 1 then multiset{} else multiset(Flatten(prev[i + 1..e]));
      assert multiset(Flatten(prev[i..e])) == mine + rest;
      if q.1.Fail? || |es| == 1 {
        assert r.0 == q.0;
        assert mid <= before + mine;
      } else {
        assert mid == before + mine;
        assert r == Reinsert(q.0, prev, i + 1);
        ReinsertAddsAtMost(q.0, prev, i + 1);
        assert multiset(Flatten(r.0.buckets)) <= mid + rest;
      }
    }
  }

  lemma {:induction false} ReinsertAddsExact<V>(t: Table<V>, prev: seq<Slot<V>>, i: nat)
    requires t.bucketCount >= 1 && ChainsNonEmpty(t.buckets) && ChainsNonEmpty(prev) && i <= |prev|
    ensures Reinsert(t, prev, i).1 == Done ==>
      multiset(Flatten(Reinsert(t, prev, i).0.buckets))
        == multiset(Flatten(t.buckets)) + multiset(Flatten(prev[i..PassEnd(prev, i)]))
    decreases |prev| - i
  {
    var e := PassEnd(prev, i);
    var r := Reinsert(t, prev, i);
    if i == |prev| {
      assert prev[i..e] == [];
    } else if prev[i].Chain? && r.1 == Done {
      var es := prev[i].entries;
      ReinsertStep(t, prev, i);
      VisitedChain(prev, i);
      PassEndChain(prev, i);
      var q := ReinsertEntries(t, es, 0);
      assert q.1 == Done;
      assert es[0..] == es;
      ReinsertEntriesAdds(t, es, 0);
      var before, mine, mid := multiset(Flatten(t.buckets)), multiset(es), multiset(Flatten(q.0.buckets));
      assert mid == before + mine;
      if |es| == 1 {
        assert r.0 == q.0;
        assert prev[i..e] == [prev[i]];
        FlattenSingle(prev[i]);
      } else {
        var rest := multiset(Flatten(prev[i + 1..e]));
        assert multiset(Flatten(prev[i..e])) == mine + rest;
        assert r == Reinsert(q.0, prev, i + 1);
        ReinsertAddsExact(q.0, prev, i + 1);
        assert multiset(Flatten(r.0.buckets)) == mid + rest;
      }
    }
  }

  /** Re-inserting the first chain of a run of distinct, new keys succeeds
      and leaves the rest of the run distinct and new. */
  lemma ChainThenRest<V>(t: Table<V>, es: seq<Entry<V>>, rest: seq<Entry<V>>)
    requires Rebuilt(t) && DistinctKeys(es + rest) && KeysOf(es + rest) !! Keys(t.buckets)
    ensures var q := ReinsertEntries(t, es, 0);
      && q.1 == Done && Rebuilt(q.0)
      && DistinctKeys(rest) && KeysOf(rest) !! Keys(q.0.buckets)
  {
    var q := ReinsertEntries(t, es, 0);
    DistinctKeysConcat(es, rest);
    KeysOfSum(es + rest, es, rest);
    assert es[0..] == es;
    ReinsertEntriesSucceeds(t, es, 0);
    ReinsertEntriesRebuilt(t, es, 0);
    ReinsertEntriesAdds(t, es, 0);
    KeysOfSum(Flatten(q.0.buckets), Flatten(t.buckets), es);
  }

  /** With distinct visited keys not yet in the new buckets, the pass fails
      only on a hole, which it reaches as its last visited slot. */
  lemma {:induction false} ReinsertSucceeds<V>(t: Table<V>, prev: seq<Slot<V>>, i: nat)
    requires Rebuilt(t) && ChainsNonEmpty(prev) && i <= |prev|
    requires var visited := Flatten(prev[i..PassEnd(prev, i)]);
      DistinctKeys(visited) && KeysOf(visited) !! Keys(t.buckets)
    ensures Reinsert(t, prev, i).1 == if EndsInHole(prev, i) then Fail(TypeError) else Done
    decreases |prev| - i
  {
    var e := PassEnd(prev, i);
    if i == |prev| {
      assert Reinsert(t, prev, i) == (t, Done);
    } else if prev[i].Hole? {
      assert Reinsert(t, prev, i) == (t, Fail(TypeError));
      assert e == i + 1;
    } else {
      var es := prev[i].entries;
      ReinsertStep(t, prev, i);
      var q := ReinsertEntries(t, es, 0);
      var r := Reinsert(t, prev, i);
      VisitedChain(prev, i);
      PassEndChain(prev, i);
      if |es| == 1 {
        assert Flatten(prev[i..e]) == es + [];
        ChainThenRest(t, es, []);
        assert r == (q.0, Done);
      } else {
        var rest := Flatten(prev[i + 1..e]);
        assert e == PassEnd(prev, i + 1);
        ChainThenRest(t, es, rest);
        assert r == Reinsert(q.0, prev, i + 1);
        ReinsertSucceeds(q.0, prev, i + 1);
      }
    }
  }

  /** A successful pass appends to chain `k` the visited entries that
      hash to it, in old slot order and chain order. */
  lemma {:induction false} ReinsertOrder<V>(t: Table<V>, prev: seq<Slot<V>>, i: nat, k: nat)
    requires t.bucketCount >= 1 && ChainsNonEmpty(t.buckets) && ChainsNonEmpty(prev) && i <= |prev|
    ensures var r := Reinsert(t, prev, i);
      var visited := Flatten(prev[i..PassEnd(prev, i)]);
      r.1 == Done ==>
        Entries(At(r.0.buckets, k)) == Entries(At(t.buckets, k)) + Rehashed(visited, t.bucketCount, k)
    decreases |prev| - i
  {
    var e := PassEnd(prev, i);
    if i == |prev| {
      assert prev[i..e] == [];
    } else if prev[i].Chain? {
      var es := prev[i].entries;
      ReinsertStep(t, prev, i);
      var q := ReinsertEntries(t, es, 0);
      var r := Reinsert(t, prev, i);
      if q.1.Fail? {
        assert r == q;
      } else if |es| == 1 {
        assert r == (q.0, Done);
        VisitedChain(prev, i);
        PassEndChain(prev, i);
        assert Flatten(prev[i..e]) == es;
        assert es[0..] == es;
        ReinsertEntriesOrder(t, es, 0, k);
      } else if r.1 == Done {
        assert r == Reinsert(q.0, prev, i + 1);
        VisitedChain(prev, i);
        PassEndChain(prev, i);
        var rest := Flatten(prev[i + 1..e]);
        assert Flatten(prev[i..e]) == es + rest;
        assert e == PassEnd(prev, i + 1);
        assert es[0..] == es;
        ReinsertEntriesOrder(t, es, 0, k);
        ReinsertOrder(q.0, prev, i + 1, k);
        RehashedConcat(es, rest, t.bucketCount, k);
        var before, mine, after :=
          Entries(At(t.buckets, k)), Rehashed(es, t.bucketCount, k), Rehashed(rest, t.bucketCount, k);
        assert Entries(At(r.0.buckets, k)) == (before + mine) + after;
        assert (before + mine) + after == before + (mine + after);
      }
    }
  }

  /** The empty buckets `#resize` starts from. */
  lemma StartRebuilt<V>(t: Table<V>, newBucketCount: int)
    requires newBucketCount >= 1
    ensures Rebuilt(Table<V>.Table(newBucketCount, t.count, []))
    ensures Flatten<V>([]) == [] && Keys<V>([]) == {}
  {
  }

  /** `#resize` builds chains that each sit under the hash of their keys and
      never end in `undefined`, within the new bucket count. */
  lemma ResizeRebuilt<V>(t: Table<V>, newBucketCount: int)
    requires newBucketCount >= 1 && ChainsNonEmpty(t.buckets) && t.count < 2 * newBucketCount
    ensures var r := Resize(t, newBucketCount);
      && NoUndefinedTail(r.0.buckets) && Keyed(r.0.buckets, newBucketCount)
      && |r.0.buckets| <= newBucketCount
  {
    StartRebuilt(t, newBucketCount);
    ReinsertRebuilt(Table<V>.Table(newBucketCount, t.count, []), t.buckets, 0);
  }

  /** The entries the pass of `#resize` visits: every slot up to and
      including the first one holding a single entry (or a hole). */
  function Visited<V>(b: seq<Slot<V>>): (r: seq<Entry<V>>)
    ensures multiset(r) <= multiset(Flatten(b))
  {
    var e := PassEnd(b, 0);
    assert b == b[..e] + b[e..];
    FlattenConcat(b[..e], b[e..]);
    Flatten(b[..e])
  }

  /** `#resize` keeps at most the visited entries, and exactly those, with
      no hole among the visited slots, when it succeeds. */
  lemma ResizeContents<V>(t: Table<V>, newBucketCount: int)
    requires newBucketCount >= 1 && ChainsNonEmpty(t.buckets) && t.count < 2 * newBucketCount
    ensures var r := Resize(t, newBucketCount);
      && multiset(Flatten(r.0.buckets)) <= multiset(Visited(t.buckets))
      && (r.1 == Done ==>
            && multiset(Flatten(r.0.buckets)) == multiset(Visited(t.buckets))
            && forall j :: 0 <= j < PassEnd(t.buckets, 0) ==> t.buckets[j].Chain?)
  {
    StartRebuilt(t, newBucketCount);
    ReinsertNoHole(Table<V>.Table(newBucketCount, t.count, []), t.buckets, 0);
    ReinsertAdds(Table<V>.Table(newBucketCount, t.count, []), t.buckets, 0);
    assert t.buckets[0..PassEnd(t.buckets, 0)] == t.buckets[..PassEnd(t.buckets, 0)];
  }

  /** With distinct visited keys, `#resize` fails only by reaching a hole. */
  lemma ResizeOutcome<V>(t: Table<V>, newBucketCount: int)
    requires newBucketCount >= 1 && ChainsNonEmpty(t.buckets) && t.count < 2 * newBucketCount
    requires DistinctKeys(Visited(t.buckets))
    ensures Resize(t, newBucketCount).1 == if EndsInHole(t.buckets, 0) then Fail(TypeError) else Done
  {
    StartRebuilt(t, newBucketCount);
    assert t.buckets[0..PassEnd(t.buckets, 0)] == t.buckets[..PassEnd(t.buckets, 0)];
    ReinsertSucceeds(Table<V>.Table(newBucketCount, t.count, []), t.buckets, 0);
  }

  /** After a successful `#resize` each chain holds the visited entries
      whose key hashes to it under the new bucket count, in old slot order
      and chain order. */
  lemma ResizeOrder<V>(t: Table<V>, newBucketCount: int)
    requires newBucketCount >= 1 && ChainsNonEmpty(t.buckets) && t.count < 2 * newBucketCount
    ensures var r := Resize(t, newBucketCount);
      r.1 == Done ==> forall k: nat ::
        Entries(At(r.0.buckets, k)) == Rehashed(Visited(t.buckets), newBucketCount, k)
  {
    StartRebuilt(t, newBucketCount);
    assert t.buckets[0..PassEnd(t.buckets, 0)] == t.buckets[..PassEnd(t.buckets, 0)];
    forall k: nat ensures var r := Resize(t, newBucketCount);
      r.1 == Done ==> Entries(At(r.0.buckets, k)) == Rehashed(Visited(t.buckets), newBucketCount, k)
    {
      ReinsertOrder(Table<V>.Table(newBucketCount, t.count, []), t.buckets, 0, k);
    }
  }
}
