/** Concrete runs of the table: the tests of main.js, and short call
    sequences that show the behaviours of hashtable.js the properties in
    TableProperties describe in general. Single-character keys keep the
    hashes small: the code of "a" is 97, of "b" 98, and so on. */
module Scenarios {
  import opened Hashing
  import opened Chains
  import opened TableModel

  /** `testInsertion` and `testRetrieval`: a value inserted into a new
      table is what `get` returns for its key, whatever the key. */
  lemma InsertionTest<V>(key: string, value: V)
    ensures var r := Insert(Empty<V>(), key, value);
      r == (Table(1, 1, [Chain([Entry(key, value)], false)]), Done)
      && Get(r.0, key) == Found(value)
  {
    HashDegenerate(key, 1);
    PutFresh(Chain([Entry(key, value)], false));
  }

  /** `testDeletion`: deleting the only key of a one-entry table succeeds
      without shrinking it, and `get` then reports the key missing. */
  lemma DeletionTest<V>(key: string, value: V)
    ensures var r1 := Insert(Empty<V>(), key, value);
      var r2 := Delete(r1.0, key);
      && r2 == (Table(1, 0, [Hole]), Done)
      && Get(r2.0, key) == NotFound
  {
    InsertionTest(key, value);
    var t1 := Table(1, 1, [Chain([Entry(key, value)], false)]);
    assert Put(t1.buckets, 0, Hole) == [Hole];
  }

  /** `testDuplicateKeys`: inserting a key a second time into a table that
      holds only that key is rejected and leaves the table as it was. */
  lemma DuplicateTest<V>(key: string, value: V, again: V)
    ensures var r1 := Insert(Empty<V>(), key, value);
      && r1.1 == Done
      && Insert(r1.0, key, again) == (r1.0, Fail(DuplicateKey))
  {
    InsertionTest(key, value);
  }

  /** Two inserts into a new table reach `count == 2 * bucketCount`, the
      largest load the table can be left with. */
  lemma FullLoad()
    ensures var r1 := Insert(Empty<int>(), "a", 1);
      var r2 := Insert(r1.0, "b", 2);
      r2.1 == Done && r2.0.count == 2 * r2.0.bucketCount
  {
    HashDegenerate("a", 1);
    PutFresh(Chain([Entry("a", 1)], false));
    HashDegenerate("b", 1);
  }

  // Entries of the runs below: each key's value is its letter's position.
  const A := Entry("a", 1)
  const B := Entry("b", 2)
  const C := Entry("c", 3)
  const E := Entry("e", 5)
  const F := Entry("f", 6)
  const G := Entry("g", 7)

  // Tables the runs below pass through.
  const TableA := Table(1, 1, [Chain([A], false)])
  const TableAB := Table(1, 2, [Chain([A, B], false)])
  const TableAC := Table(1, 2, [Chain([A, C], false)])
  const GrownAB := Table(2, 2, [Chain([B], false), Chain([A], false)])
  const GrownAC := Table(2, 2, [Hole, Chain([A, C], false)])

  lemma InsertA()
    ensures Insert(Empty<int>(), "a", 1) == (TableA, Done)
  {
    HashDegenerate("a", 1);
    PutFresh(Chain([A], false));
  }

  lemma InsertAB()
    ensures Insert(TableA, "b", 2) == (TableAB, Done)
  {
    HashDegenerate("b", 1);
    assert "a" != "b";
    assert [A] + [B] == [A, B];
    assert Put(TableA.buckets, 0, Chain([A, B], false)) == TableAB.buckets;
  }

  lemma InsertAC()
    ensures Insert(TableA, "c", 3) == (TableAC, Done)
  {
    HashDegenerate("c", 1);
    assert "a" != "c";
    assert [A] + [C] == [A, C];
    assert Put(TableA.buckets, 0, Chain([A, C], false)) == TableAC.buckets;
  }

  /** The grow of the table holding the chain a, b: "a" (97) is odd and
      "b" (98) even, so the chain splits in two. */
  lemma GrowAB()
    ensures GrowIfNeeded(TableAB) == (GrownAB, Done)
  {
    assert Hash("a", 2) == 1 && Hash("b", 2) == 0;
    var start := Table<int>.Table(2, 2, []);
    var s1 := Table(2, 2, [Hole, Chain([A], false)]);
    assert Put<int>([], 1, Chain([A], false)) == s1.buckets by {
      assert Holes<int>(1) == [Hole];
    }
    assert Place(start, "a", 1) == (s1.(count := 3), Done);
    assert Put(s1.buckets, 0, Chain([B], false)) == GrownAB.buckets;
    assert Place(s1, "b", 2) == (GrownAB.(count := 3), Done);
    assert ReinsertEntries(s1, [A, B], 1) == (GrownAB, Done);
    assert ReinsertEntries(start, [A, B], 0) == (GrownAB, Done);
    assert Reinsert(start, TableAB.buckets, 0) == (GrownAB, Done);
  }

  /** The grow of the table holding the chain a, c: both codes are odd, so
      the new array has a hole at index 0 and the whole chain at index 1. */
  lemma GrowAC()
    ensures GrowIfNeeded(TableAC) == (GrownAC, Done)
  {
    assert Hash("a", 2) == 1 && Hash("c", 2) == 1;
    var start := Table<int>.Table(2, 2, []);
    var s1 := Table(2, 2, [Hole, Chain([A], false)]);
    assert Put<int>([], 1, Chain([A], false)) == s1.buckets by {
      assert Holes<int>(1) == [Hole];
    }
    assert Place(start, "a", 1) == (s1.(count := 3), Done);
    assert "a" != "c" && [A] + [C] == [A, C];
    assert Put(s1.buckets, 1, Chain([A, C], false)) == GrownAC.buckets;
    assert Place(s1, "c", 3) == (GrownAC.(count := 3), Done);
    assert ReinsertEntries(s1, [A, C], 1) == (GrownAC, Done);
    assert ReinsertEntries(start, [A, C], 0) == (GrownAC, Done);
    assert Reinsert(start, TableAC.buckets, 0) == (GrownAC, Done);
  }

  /** A key further down a chain than its head is inserted again, and
      `get` keeps returning the older value. The third insert first grows
      the table to two buckets, where "a" and "c" share chain 1. */
  lemma LaterDuplicateAccepted()
    ensures var r1 := Insert(Empty<int>(), "a", 1);
      var r2 := Insert(r1.0, "c", 3);
      var r3 := Insert(r2.0, "c", 33);
      && r3 == (Table(2, 3, [Hole, Chain([A, C, Entry("c", 33)], false)]), Done)
      && Get(r3.0, "c") == Found(3)
  {
    InsertA();
    InsertAC();
    GrowAC();
    assert Hash("c", 2) == 1 && "a" != "c";
    assert [A, C] + [Entry("c", 33)] == [A, C, Entry("c", 33)];
    assert Put(GrownAC.buckets, 1, Chain([A, C, Entry("c", 33)], false))
        == [Hole, Chain([A, C, Entry("c", 33)], false)];
    assert Find([A, C, Entry("c", 33)], "c") == Some(1);
  }

  /** Deleting the last node of a chain leaves `undefined` in its
      predecessor's `next`, and the next insert into that chain throws. */
  lemma TailDeleteThenInsert()
    ensures var r1 := Insert(Empty<int>(), "a", 1);
      var r2 := Insert(r1.0, "b", 2);
      var r3 := Delete(r2.0, "b");
      && r3 == (Table(1, 1, [Chain([A], true)]), Done)
      && Insert(r3.0, "c", 3) == (r3.0, Fail(TypeError))
  {
    InsertA();
    InsertAB();
    HashDegenerate("b", 1);
    HashDegenerate("c", 1);
    assert Find([A, B], "b") == Some(1);
    assert [A, B][..1] + [A, B][2..] == [A];
    assert Put(TableAB.buckets, 0, Chain([A], true)) == [Chain([A], true)];
    assert "a" != "c";
  }

  /** The grow at the fifth insert stops after the first old slot, which
      holds the single entry "b": "a", "c" and "e" are lost, `count` still
      says five entries, and `get` no longer finds "a". */
  lemma BreakLosesEntries()
    ensures var r1 := Insert(Empty<int>(), "a", 1);
      var r2 := Insert(r1.0, "b", 2);
      var r3 := Insert(r2.0, "c", 3);
      var r4 := Insert(r3.0, "e", 5);
      var r5 := Insert(r4.0, "f", 6);
      && r4 == (BeforeBreak, Done)
      && r5 == (AfterBreak, Done)
      && |Flatten(r5.0.buckets)| == 2 < r5.0.count
      && Get(r4.0, "a") == Found(1) && Get(r5.0, "a") == NotFound
  {
    InsertA();
    InsertAB();
    GrowAB();
    InsertBACE();
    GrowBreaks();
    BrokenTable();
  }

  /** The table the break leaves behind holds two entries while `count`
      says five, and "a" is found before the grow but not after it. */
  lemma BrokenTable()
    ensures |Flatten(AfterBreak.buckets)| == 2 < AfterBreak.count
    ensures Get(BeforeBreak, "a") == Found(1) && Get(AfterBreak, "a") == NotFound
  {
    assert Hash("a", 2) == 1 && Hash("a", 4) == 1;
    var b := AfterBreak.buckets;
    var b1 := b[..1];
    var b2 := b[..2];
    assert b1 == [Hole] && b1[..0] == [] && b2[..1] == b1 && b[..2] == b2 && b2 == [Hole, Hole];
    assert Flatten(b1) == [];
    assert Flatten(b2) == [];
    assert Flatten(b) == [B, F];
  }

  const BeforeBreak := Table(2, 4, [Chain([B], false), Chain([A, C, E], false)])
  const AfterBreak := Table(4, 5, [Hole, Hole, Chain([B, F], false)])

  /** The third and fourth inserts of the run a, b, c, e: "c" (99) and
      "e" (101) join "a" in chain 1. */
  lemma InsertBACE()
    ensures var r3 := Insert(TableAB, "c", 3);
      r3 == (Table(2, 3, [Chain([B], false), Chain([A, C], false)]), Done)
      && Insert(r3.0, "e", 5) == (BeforeBreak, Done)
  {
    GrowAB();
    assert Hash("c", 2) == 1 && Hash("e", 2) == 1;
    assert "a" != "c" && "a" != "e";
    assert [A] + [C] == [A, C] && [A, C] + [E] == [A, C, E];
    var t3 := Table(2, 3, [Chain([B], false), Chain([A, C], false)]);
    assert Put(GrownAB.buckets, 1, Chain([A, C], false)) == t3.buckets;
    assert Put(t3.buckets, 1, Chain([A, C, E], false)) == BeforeBreak.buckets;
  }

  /** The fifth insert: the grow re-inserts "b" and breaks off, then "f"
      (102) joins it in chain 2. */
  lemma GrowBreaks()
    ensures Insert(BeforeBreak, "f", 6) == (AfterBreak, Done)
  {
    assert Hash("b", 4) == 2 && Hash("f", 4) == 2;
    var start := Table<int>.Table(4, 4, []);
    var s1 := Table(4, 4, [Hole, Hole, Chain([B], false)]);
    assert Put<int>([], 2, Chain([B], false)) == s1.buckets by {
      assert Holes<int>(2) == [Hole, Hole];
    }
    assert Place(start, "b", 2) == (s1.(count := 5), Done);
    assert ReinsertEntries(start, [B], 0) == (s1, Done);
    assert Reinsert(start, BeforeBreak.buckets, 0) == (s1, Done);
    assert "b" != "f" && [B] + [F] == [B, F];
    assert Put(s1.buckets, 2, Chain([B, F], false)) == AfterBreak.buckets;
  }

  /** After the grow at the third insert the array has a hole at index 0;
      the grow at the fifth insert reads `key` of that hole and throws,
      leaving the new, empty array behind with `count` still four. */
  lemma HoleCrashesGrow()
    ensures var r1 := Insert(Empty<int>(), "a", 1);
      var r2 := Insert(r1.0, "c", 3);
      var r3 := Insert(r2.0, "e", 5);
      var r4 := Insert(r3.0, "g", 7);
      var r5 := Insert(r4.0, "i", 9);
      && r4 == (HoleFirst, Done)
      && r5 == (Table(4, 4, []), Fail(TypeError))
  {
    InsertA();
    InsertAC();
    InsertACEG();
    assert Reinsert(Table<int>.Table(4, 4, []), HoleFirst.buckets, 0) == (Table(4, 4, []), Fail(TypeError));
  }

  const HoleFirst := Table(2, 4, [Hole, Chain([A, C, E, G], false)])

  /** The third and fourth inserts of the run a, c, e, g: the grow leaves a
      hole at index 0 and "e" (101) and "g" (103) join chain 1. */
  lemma InsertACEG()
    ensures var r3 := Insert(TableAC, "e", 5);
      r3 == (Table(2, 3, [Hole, Chain([A, C, E], false)]), Done)
      && Insert(r3.0, "g", 7) == (HoleFirst, Done)
  {
    GrowAC();
    assert Hash("e", 2) == 1 && Hash("g", 2) == 1;
    assert "a" != "e" && "a" != "g";
    assert [A, C] + [E] == [A, C, E] && [A, C, E] + [G] == [A, C, E, G];
    var t3 := Table(2, 3, [Hole, Chain([A, C, E], false)]);
    assert Put(GrownAC.buckets, 1, Chain([A, C, E], false)) == t3.buckets;
    assert Put(t3.buckets, 1, Chain([A, C, E, G], false)) == HoleFirst.buckets;
  }
}
