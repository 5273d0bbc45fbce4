/** Chains of entries and the `buckets` array of hashtable.js, with the
    JavaScript array semantics the table relies on: reading past the end
    gives `undefined`, and writing past the end pads the gap with holes. */
module Chains {

  datatype Option<T> = None | Some(value: T)

  /** One chain node: a key and its value (the `next` link is the node's
      position in its chain, see `Next`). */
  datatype Entry<V> = Entry(key: string, value: V)

  /** One slot of `buckets`: a hole (or an explicit `undefined`), or the head
      of a chain. `undefinedTail` records that the `next` field of the last
      node holds `undefined` rather than `null`. */
  datatype Slot<V> = Hole | Chain(entries: seq<Entry<V>>, undefinedTail: bool)

  /** What the `next` field of a node holds. */
  datatype Link = Node(index: nat) | Null | Undefined

  /** The `next` field of node `i` of a chain. */
  function Next<V>(slot: Slot<V>, i: nat): Link
    requires slot.Chain? && i < |slot.entries|
  {
    if i + 1 < |slot.entries| then Node(i + 1)
    else if slot.undefinedTail then Undefined
    else Null
  }

  function Entries<V>(slot: Slot<V>): seq<Entry<V>>
  {
    if slot.Hole? then [] else slot.entries
  }

  /** `buckets[i]`: an index at or past the end reads as `undefined`. */
  function At<V>(b: seq<Slot<V>>, i: nat): Slot<V>
  {
    if i < |b| then b[i] else Hole
  }

  function Holes<V>(n: nat): (r: seq<Slot<V>>)
    ensures |r| == n && forall i :: 0 <= i < n ==> r[i] == Hole
  {
    seq(n, _ => Hole)
  }

  /** `buckets[i] = slot`: the array grows to `i + 1` when `i` is past its
      end, and every other index reads as before. */
  function Put<V>(b: seq<Slot<V>>, i: nat, slot: Slot<V>): (r: seq<Slot<V>>)
    ensures |r| == if i < |b| then |b| else i + 1
    ensures At(r, i) == slot
    ensures forall j: nat :: j != i ==> At(r, j) == At(b, j)
  {
    if i < |b| then b[i := slot] else b + Holes(i - |b|) + [slot]
  }

  /** Writing index 0 of an empty array. */
  lemma PutFresh<V>(slot: Slot<V>)
    ensures Put([], 0, slot) == [slot]
  {
    assert Holes<V>(0) == [];
  }

  /** Every slot that holds a chain holds at least one node. */
  ghost predicate ChainsNonEmpty<V>(b: seq<Slot<V>>)
  {
    forall j: nat :: At(b, j).Chain? ==> |At(b, j).entries| > 0
  }

  /** No chain ends in an `undefined` link. */
  ghost predicate NoUndefinedTail<V>(b: seq<Slot<V>>)
  {
    forall j: nat :: At(b, j).Chain? ==> !At(b, j).undefinedTail
  }

  /** All entries of the table, slot by slot, each chain head first. */
  function Flatten<V>(b: seq<Slot<V>>): seq<Entry<V>>
  {
    if b == [] then [] else Flatten(b[..|b| - 1]) + Entries(b[|b| - 1])
  }

  ghost function KeysOf<V>(es: seq<Entry<V>>): set<string>
  {
    set e | e in es :: e.key
  }

  /** The keys stored anywhere in the table. */
  ghost function Keys<V>(b: seq<Slot<V>>): set<string>
  {
    KeysOf(Flatten(b))
  }

  /** No key occurs twice. */
  ghost predicate DistinctKeys<V>(es: seq<Entry<V>>)
  {
    forall i, j :: 0 <= i < j < |es| ==> es[i].key != es[j].key
  }

  /** Position of the first entry with `key`, scanning head first. */
  function Find<V>(es: seq<Entry<V>>, key: string): (r: Option<nat>)
    ensures r.Some? ==> r.value < |es| && es[r.value].key == key
    ensures r.Some? ==> forall i :: 0 <= i < r.value ==> es[i].key != key
    ensures r.None? <==> key !in KeysOf(es)
  {
    if es == [] then None
    else if es[0].key == key then Some(0)
    else
      var rest := Find(es[1..], key);
      assert KeysOf(es) == {es[0].key} + KeysOf(es[1..]) by {
        assert es == [es[0]] + es[1..];
      }
      match rest
      case None => None
      case Some(m) => Some(m + 1)
  }

  /** The chain without its first entry that has `key`. */
  function RemoveFirst<V>(es: seq<Entry<V>>, key: string): seq<Entry<V>>
  {
    if es == [] then []
    else if es[0].key == key then es[1..]
    else [es[0]] + RemoveFirst(es[1..], key)
  }

  /** Splicing out the first match is removing the first entry with `key`. */
  lemma {:induction false} RemoveFirstAt<V>(es: seq<Entry<V>>, key: string, m: nat)
    requires Find(es, key) == Some(m)
    ensures RemoveFirst(es, key) == es[..m] + es[m + 1..]
  {
    if es[0].key != key {
      var tail := es[1..];
      FindTail(es, key);
      RemoveFirstAt(tail, key, m - 1);
      assert RemoveFirst(es, key) == [es[0]] + RemoveFirst(tail, key);
      SpliceTail(es, m);
    }
  }

  /** Splicing past the head of a sequence is splicing its tail. */
  lemma SpliceTail<T>(s: seq<T>, m: nat)
    requires 0 < m < |s|
    ensures [s[0]] + (s[1..][..m - 1] + s[1..][m..]) == s[..m] + s[m + 1..]
  {
    assert s[1..][..m - 1] == s[1..m];
    assert s[1..][m..] == s[m + 1..];
    assert s[..m] == [s[0]] + s[1..m];
  }

  /** Removing the first entry with `key` leaves the first match of every
      other key where it was. */
  lemma {:induction false} RemoveFirstKeepsOthers<V>(es: seq<Entry<V>>, key: string, other: string)
    requires other != key
    ensures var f := Find(RemoveFirst(es, key), other);
      (f.None? <==> Find(es, other).None?) &&
      (f.Some? ==> RemoveFirst(es, key)[f.value] == es[Find(es, other).value])
  {
    if es == [] {
    } else if es[0].key == key {
      var tail := es[1..];
      assert RemoveFirst(es, key) == tail;
      FindTail(es, other);
    } else if es[0].key == other {
      assert RemoveFirst(es, key)[0] == es[0];
    } else {
      var tail := es[1..];
      var r := RemoveFirst(tail, key);
      RemoveFirstKeepsOthers(tail, key, other);
      assert RemoveFirst(es, key) == [es[0]] + r;
      FindTail(es, other);
      FindTail([es[0]] + r, other);
      assert ([es[0]] + r)[1..] == r;
    }
  }

  /** Past a head without `key`, the first match is one further along. */
  lemma FindTail<V>(es: seq<Entry<V>>, key: string)
    requires es != [] && es[0].key != key
    ensures Find(es, key).None? <==> Find(es[1..], key).None?
    ensures Find(es, key).Some? ==>
      Find(es, key).value == Find(es[1..], key).value + 1 &&
      es[Find(es, key).value] == es[1..][Find(es[1..], key).value]
  {
  }

  lemma {:induction false} FlattenConcat<V>(a: seq<Slot<V>>, b: seq<Slot<V>>)
    ensures Flatten(a + b) == Flatten(a) + Flatten(b)
    decreases |b|
  {
    if b != [] {
      var c := b[..|b| - 1];
      FlattenConcat(a, c);
      assert (a + b)[..|a + b| - 1] == a + c;
      assert (a + b)[|a + b| - 1] == b[|b| - 1];
      assert b[..|b| - 1] == c;
    } else {
      assert a + b == a;
    }
  }

  lemma FlattenSingle<V>(s: Slot<V>)
    ensures Flatten([s]) == Entries(s)
  {
    assert [s][..0] == [];
  }

  lemma {:induction false} FlattenHoles<V>(n: nat)
    ensures Flatten(Holes<V>(n)) == []
  {
    if n > 0 {
      FlattenHoles<V>(n - 1);
      assert Holes<V>(n)[..n - 1] == Holes<V>(n - 1);
    }
  }

  /** Replacing a slot replaces its entries in the table's multiset of entries. */
  lemma {:induction false} FlattenPut<V>(b: seq<Slot<V>>, i: nat, s: Slot<V>)
    ensures multiset(Flatten(Put(b, i, s))) + multiset(Entries(At(b, i)))
         == multiset(Flatten(b)) + multiset(Entries(s))
  {
    if i < |b| {
      FlattenPutInside(b, i, s);
    } else {
      FlattenPutPast(b, i, s);
    }
  }

  lemma {:induction false} FlattenPutInside<V>(b: seq<Slot<V>>, i: nat, s: Slot<V>)
    requires i < |b|
    ensures multiset(Flatten(Put(b, i, s))) + multiset(Entries(b[i]))
         == multiset(Flatten(b)) + multiset(Entries(s))
  {
    var front, back := b[..i], b[i + 1..];
    assert b == front + [b[i]] + back;
    assert Put(b, i, s) == front + [s] + back;
    FlattenAround(front, b[i], back);
    FlattenAround(front, s, back);
  }

  lemma {:induction false} FlattenPutPast<V>(b: seq<Slot<V>>, i: nat, s: Slot<V>)
    requires i >= |b|
    ensures Flatten(Put(b, i, s)) == Flatten(b) + Entries(s)
  {
    var h := Holes<V>(i - |b|);
    var bh := b + h;
    assert Put(b, i, s) == bh + [s];
    FlattenConcat(bh, [s]);
    FlattenConcat(b, h);
    FlattenHoles<V>(i - |b|);
    FlattenSingle(s);
    assert Flatten(bh) == Flatten(b);
  }

  /** The entries of a slot between two runs of slots. */
  lemma {:induction false} FlattenAround<V>(front: seq<Slot<V>>, s: Slot<V>, back: seq<Slot<V>>)
    ensures multiset(Flatten(front + [s] + back))
         == multiset(Flatten(front)) + multiset(Entries(s)) + multiset(Flatten(back))
  {
    FlattenConcat(front + [s], back);
    FlattenConcat(front, [s]);
    FlattenSingle(s);
  }

  /** A suffix is its first entry followed by the rest. */
  lemma SuffixFirst<V>(es: seq<Entry<V>>, j: nat)
    requires j < |es|
    ensures es[j..] == [es[j]] + es[j + 1..]
    ensures multiset(es[j..]) == multiset{es[j]} + multiset(es[j + 1..])
  {
    assert es[j..] == [es[j]] + es[j + 1..];
  }

  /** A sub-multiset is no larger. */
  lemma SubMultisetSize<T>(a: multiset<T>, b: multiset<T>)
    requires a <= b
    ensures |a| <= |b|
  {
    assert b == a + (b - a);
  }

  /** A multiset sum cancels. */
  lemma MultisetCancel<T>(a: multiset<T>, b: multiset<T>, c: multiset<T>)
    requires a + c == b + c
    ensures a == b
  {
    forall x ensures a[x] == b[x] {
      assert (a + c)[x] == (b + c)[x];
    }
  }

  /** Replacing a slot changes the number of entries by the difference. */
  lemma FlattenPutSize<V>(b: seq<Slot<V>>, i: nat, s: Slot<V>)
    ensures |Flatten(Put(b, i, s))| + |Entries(At(b, i))| == |Flatten(b)| + |Entries(s)|
  {
    FlattenPut(b, i, s);
    assert |multiset(Flatten(Put(b, i, s))) + multiset(Entries(At(b, i)))|
        == |multiset(Flatten(b)) + multiset(Entries(s))|;
  }

  /** Every entry of a slot is an entry of the table. */
  lemma SlotInFlatten<V>(b: seq<Slot<V>>, i: nat)
    ensures multiset(Entries(At(b, i))) <= multiset(Flatten(b))
  {
    FlattenPut(b, i, Hole);
    var rest, mine := multiset(Flatten(Put(b, i, Hole))), multiset(Entries(At(b, i)));
    assert multiset(Entries<V>(Hole)) == multiset{};
    assert rest + mine == multiset(Flatten(b));
    assert mine <= rest + mine;
  }

  /** Every entry of the table sits in one of its slots. */
  lemma {:induction false} FlattenSlot<V>(b: seq<Slot<V>>, e: Entry<V>) returns (j: nat)
    requires e in Flatten(b)
    ensures j < |b| && e in Entries(b[j])
  {
    var c := b[..|b| - 1];
    if e in Entries(b[|b| - 1]) {
      j := |b| - 1;
    } else {
      j := FlattenSlot(c, e);
      assert c[j] == b[j];
    }
  }

  /** Removing the first entry with `key` takes exactly that entry out. */
  lemma RemoveFirstMultiset<V>(es: seq<Entry<V>>, key: string)
    requires key in KeysOf(es)
    ensures Find(es, key).Some?
    ensures multiset(RemoveFirst(es, key)) + multiset{es[Find(es, key).value]} == multiset(es)
  {
    var m := Find(es, key).value;
    RemoveFirstAt(es, key, m);
    SpliceMultiset(es, m);
  }

  /** Splicing out position `m` takes exactly that entry out. */
  lemma SpliceMultiset<V>(es: seq<Entry<V>>, m: nat)
    requires m < |es|
    ensures multiset(es[..m] + es[m + 1..]) + multiset{es[m]} == multiset(es)
  {
    var front, back := es[..m], es[m + 1..];
    assert es == front + [es[m]] + back;
    var f, x, b := multiset(front), multiset{es[m]}, multiset(back);
    assert multiset(es) == f + x + b;
    assert multiset(front + back) == f + b;
  }

  /** `Find` gives the first position holding `key`, and no other. */
  lemma FindUnique<V>(es: seq<Entry<V>>, key: string, m: nat)
    requires m < |es| && es[m].key == key
    requires forall i :: 0 <= i < m ==> es[i].key != key
    ensures Find(es, key) == Some(m)
  {
    assert es[m] in es;
    assert key in KeysOf(es);
  }

  /** Appending an entry leaves the first match of a key already present,
      and makes the new entry the first match of a key that was absent. */
  lemma FindAppend<V>(es: seq<Entry<V>>, e: Entry<V>, key: string)
    ensures key in KeysOf(es) ==> Find(es + [e], key) == Find(es, key)
    ensures key !in KeysOf(es) && e.key == key ==> Find(es + [e], key) == Some(|es|)
  {
    var longer := es + [e];
    if key in KeysOf(es) {
      var m := Find(es, key).value;
      assert forall i :: 0 <= i <= m ==> longer[i] == es[i];
      FindUnique(longer, key, m);
    } else if e.key == key {
      forall i | 0 <= i < |es| ensures longer[i].key != key {
        assert longer[i] == es[i] && es[i] in es;
      }
      FindUnique(longer, key, |es|);
    }
  }

  /** `key` occurs at most once in `es`. */
  ghost predicate AtMostOnce<V>(es: seq<Entry<V>>, key: string)
  {
    forall i, j :: 0 <= i < j < |es| && es[i].key == key ==> es[j].key != key
  }

  /** Removing the first match of `key` leaves no match if there was only one. */
  lemma {:induction false} RemoveFirstOnly<V>(es: seq<Entry<V>>, key: string)
    requires AtMostOnce(es, key)
    ensures key !in KeysOf(RemoveFirst(es, key))
  {
    if es != [] {
      if es[0].key == key {
        forall e | e in es[1..] ensures e.key != key {
          var j :| 0 <= j < |es[1..]| && es[1..][j] == e;
          assert es[j + 1] == e;
        }
      } else {
        forall i, j | 0 <= i < j < |es[1..]| && es[1..][i].key == key ensures es[1..][j].key != key {
          assert es[1..][i] == es[i + 1] && es[1..][j] == es[j + 1];
        }
        RemoveFirstOnly(es[1..], key);
        assert RemoveFirst(es, key) == [es[0]] + RemoveFirst(es[1..], key);
      }
    }
  }

  /** Keys of a multiset union are the union of the keys. */
  lemma KeysOfSum<V>(a: seq<Entry<V>>, b: seq<Entry<V>>, c: seq<Entry<V>>)
    requires multiset(a) == multiset(b) + multiset(c)
    ensures KeysOf(a) == KeysOf(b) + KeysOf(c)
  {
    forall k | k in KeysOf(a) ensures k in KeysOf(b) + KeysOf(c) {
      var e :| e in a && e.key == k;
      assert e in multiset(a);
    }
    forall k | k in KeysOf(b) + KeysOf(c) ensures k in KeysOf(a) {
      if k in KeysOf(b) {
        var e :| e in b && e.key == k;
        assert e in multiset(b);
        assert e in multiset(a);
      } else {
        var e :| e in c && e.key == k;
        assert e in multiset(c);
        assert e in multiset(a);
      }
    }
  }

  /** Keys of a sub-multiset are among the keys. */
  lemma KeysOfSub<V>(a: seq<Entry<V>>, b: seq<Entry<V>>)
    requires multiset(a) <= multiset(b)
    ensures KeysOf(a) <= KeysOf(b)
  {
    forall k | k in KeysOf(a) ensures k in KeysOf(b) {
      var e :| e in a && e.key == k;
      assert e in multiset(a);
      assert e in multiset(b);
    }
  }

  /** Distinct keys in a concatenation: distinct in each part, and no key shared. */
  lemma DistinctKeysConcat<V>(a: seq<Entry<V>>, b: seq<Entry<V>>)
    requires DistinctKeys(a + b)
    ensures DistinctKeys(a) && DistinctKeys(b) && KeysOf(a) !! KeysOf(b)
  {
    forall i, j | 0 <= i < j < |b| ensures b[i].key != b[j].key {
      assert (a + b)[|a| + i] == b[i] && (a + b)[|a| + j] == b[j];
    }
    forall i, j | 0 <= i < j < |a| ensures a[i].key != a[j].key {
      assert (a + b)[i] == a[i] && (a + b)[j] == a[j];
    }
    forall x, y | x in a && y in b ensures x.key != y.key {
      var i :| 0 <= i < |a| && a[i] == x;
      var j :| 0 <= j < |b| && b[j] == y;
      assert (a + b)[i] == x && (a + b)[|a| + j] == y;
    }
  }
}
