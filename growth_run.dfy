/** `testResizing` of main.js: ten inserts into a new table, keys "key1" to
    "key10", grow the bucket count from 1 to 2, 4 and 8, and `get` then
    finds every value. Neither defect of `#resize` is hit on the way: no
    old slot is a hole, and every old chain has two entries, so the pass
    never breaks off early. */
module GrowthRun {
  import opened Hashing
  import opened Chains
  import opened TableModel

  /** The codes of "k", "e" and "y" sum to 329. */
  lemma KeyCode()
    ensures CodeSum("key") == 329
  {
    assert "key"[..2] == "ke" && "ke"[..1] == "k" && "k"[..0] == "";
  }

  /** A key's hash with two, four and eight buckets follows from its code sum. */
  lemma SumHash(key: string, sum: int)
    requires CodeSum(key) == sum
    ensures Hash(key, 2) == sum % 2 && Hash(key, 4) == sum % 4 && Hash(key, 8) == sum % 8
  {
    HashIsSumMod(key, 2);
    HashIsSumMod(key, 4);
    HashIsSumMod(key, 8);
  }

  /** Where the first eight keys go with two and four buckets. */
  lemma SmallHashes()
    ensures Hash("key1", 2) == 0 && Hash("key2", 2) == 1 && Hash("key3", 2) == 0 && Hash("key4", 2) == 1
    ensures Hash("key1", 4) == 2 && Hash("key2", 4) == 3 && Hash("key3", 4) == 0 && Hash("key4", 4) == 1
    ensures Hash("key5", 4) == 2 && Hash("key6", 4) == 3 && Hash("key7", 4) == 0 && Hash("key8", 4) == 1
  {
    KeyCode();
    assert "key1"[..3] == "key"; SumHash("key1", 378);
    assert "key2"[..3] == "key"; SumHash("key2", 379);
    assert "key3"[..3] == "key"; SumHash("key3", 380);
    assert "key4"[..3] == "key"; SumHash("key4", 381);
    assert "key5"[..3] == "key"; SumHash("key5", 382);
    assert "key6"[..3] == "key"; SumHash("key6", 383);
    assert "key7"[..3] == "key"; SumHash("key7", 384);
    assert "key8"[..3] == "key"; SumHash("key8", 385);
  }

  /** Where all ten keys go with eight buckets: only "key9" and "key10"
      share a slot, with "key1". */
  lemma LargeHashes()
    ensures Hash("key1", 8) == 2 && Hash("key2", 8) == 3 && Hash("key3", 8) == 4 && Hash("key4", 8) == 5
    ensures Hash("key5", 8) == 6 && Hash("key6", 8) == 7 && Hash("key7", 8) == 0 && Hash("key8", 8) == 1
    ensures Hash("key9", 8) == 2 && Hash("key10", 8) == 2
  {
    KeyCode();
    assert "key1"[..3] == "key"; SumHash("key1", 378);
    assert "key2"[..3] == "key"; SumHash("key2", 379);
    assert "key3"[..3] == "key"; SumHash("key3", 380);
    assert "key4"[..3] == "key"; SumHash("key4", 381);
    assert "key5"[..3] == "key"; SumHash("key5", 382);
    assert "key6"[..3] == "key"; SumHash("key6", 383);
    assert "key7"[..3] == "key"; SumHash("key7", 384);
    assert "key8"[..3] == "key"; SumHash("key8", 385);
    assert "key9"[..3] == "key"; SumHash("key9", 386);
    assert "key10"[..4] == "key1"; SumHash("key10", 426);
  }

  const K1 := Entry("key1", "value1")
  const K2 := Entry("key2", "value2")
  const K3 := Entry("key3", "value3")
  const K4 := Entry("key4", "value4")
  const K5 := Entry("key5", "value5")
  const K6 := Entry("key6", "value6")
  const K7 := Entry("key7", "value7")
  const K8 := Entry("key8", "value8")
  const K9 := Entry("key9", "value9")
  const K10 := Entry("key10", "value10")

  function Single(e: Entry<string>): Slot<string>
  {
    Chain([e], false)
  }

  // The tables the run passes through.
  const Two := Table(1, 2, [Chain([K1, K2], false)])
  const GrownTwo := Table(2, 2, [Single(K1), Single(K2)])
  const Four := Table(2, 4, [Chain([K1, K3], false), Chain([K2, K4], false)])
  const GrownFour := Table(4, 4, [Single(K3), Single(K4), Single(K1), Single(K2)])
  const Eight := Table(4, 8, [Chain([K3, K7], false), Chain([K4, K8], false), Chain([K1, K5], false), Chain([K2, K6], false)])
  const GrownEight := Table(8, 8, [Single(K7), Single(K8), Single(K1), Single(K2), Single(K3), Single(K4), Single(K5), Single(K6)])
  const Ten := Table(8, 10, [Single(K7), Single(K8), Chain([K1, K9, K10], false), Single(K2), Single(K3), Single(K4), Single(K5), Single(K6)])

  /** The first two inserts share the single bucket. */
  lemma FirstTwo()
    ensures var r1 := Insert(Empty<string>(), "key1", "value1");
      r1 == (Table(1, 1, [Single(K1)]), Done) && Insert(r1.0, "key2", "value2") == (Two, Done)
  {
    HashDegenerate("key1", 1);
    HashDegenerate("key2", 1);
    PutFresh(Single(K1));
    assert "key1" != "key2" && [K1] + [K2] == [K1, K2];
    assert Put([Single(K1)], 0, Chain([K1, K2], false)) == Two.buckets;
  }

  /** The third insert doubles the bucket count to 2: "key1" is even and
      "key2" odd. */
  lemma GrowToTwo()
    ensures GrowIfNeeded(Two) == (GrownTwo, Done)
  {
    SmallHashes();
    var start := Table<string>.Table(2, 2, []);
    var s1 := Table(2, 2, [Single(K1)]);
    PutFresh(Single(K1));
    assert Place(start, "key1", "value1") == (s1.(count := 3), Done);
    assert Put(s1.buckets, 1, Single(K2)) == GrownTwo.buckets by {
      assert Holes<string>(0) == [];
    }
    assert Place(s1, "key2", "value2") == (GrownTwo.(count := 3), Done);
    assert ReinsertEntries(s1, [K1, K2], 1) == (GrownTwo, Done);
    assert ReinsertEntries(start, [K1, K2], 0) == (GrownTwo, Done);
    assert Reinsert(start, Two.buckets, 0) == (GrownTwo, Done);
  }

  /** The third and fourth inserts: "key3" joins "key1", "key4" joins "key2". */
  lemma ThirdFourth()
    ensures var r3 := Insert(Two, "key3", "value3");
      r3 == (Table(2, 3, [Chain([K1, K3], false), Single(K2)]), Done)
      && Insert(r3.0, "key4", "value4") == (Four, Done)
  {
    GrowToTwo();
    SmallHashes();
    assert "key1" != "key3" && "key2" != "key4";
    assert [K1] + [K3] == [K1, K3] && [K2] + [K4] == [K2, K4];
    var t3 := Table(2, 3, [Chain([K1, K3], false), Single(K2)]);
    assert Put(GrownTwo.buckets, 0, Chain([K1, K3], false)) == t3.buckets;
    assert Put(t3.buckets, 1, Chain([K2, K4], false)) == Four.buckets;
  }

  /** The grow to four buckets, old slot 0: "key1" goes to 2, "key3" to 0. */
  lemma GrowToFourFirst()
    ensures ReinsertEntries(Table(4, 4, []), [K1, K3], 0)
         == (Table(4, 4, [Single(K3), Hole, Single(K1)]), Done)
  {
    SmallHashes();
    var start := Table<string>.Table(4, 4, []);
    var s1 := Table(4, 4, [Hole, Hole, Single(K1)]);
    var s2 := Table(4, 4, [Single(K3), Hole, Single(K1)]);
    assert Put<string>([], 2, Single(K1)) == s1.buckets by {
      assert Holes<string>(2) == [Hole, Hole];
    }
    assert Place(start, "key1", "value1") == (s1.(count := 5), Done);
    assert Put(s1.buckets, 0, Single(K3)) == s2.buckets;
    assert Place(s1, "key3", "value3") == (s2.(count := 5), Done);
    assert ReinsertEntries(s1, [K1, K3], 1) == (s2, Done);
  }

  /** The grow to four buckets, old slot 1: "key2" goes to 3, "key4" to 1. */
  lemma GrowToFourSecond()
    ensures ReinsertEntries(Table(4, 4, [Single(K3), Hole, Single(K1)]), [K2, K4], 0) == (GrownFour, Done)
  {
    SmallHashes();
    var s2 := Table(4, 4, [Single(K3), Hole, Single(K1)]);
    var s3 := Table(4, 4, [Single(K3), Hole, Single(K1), Single(K2)]);
    assert Put(s2.buckets, 3, Single(K2)) == s3.buckets by {
      assert Holes<string>(0) == [];
    }
    assert Place(s2, "key2", "value2") == (s3.(count := 5), Done);
    assert Put(s3.buckets, 1, Single(K4)) == GrownFour.buckets;
    assert Place(s3, "key4", "value4") == (GrownFour.(count := 5), Done);
    assert ReinsertEntries(s3, [K2, K4], 1) == (GrownFour, Done);
  }

  /** The fifth insert doubles the bucket count to 4 and spreads the four
      keys over all four slots. */
  lemma GrowToFour()
    ensures GrowIfNeeded(Four) == (GrownFour, Done)
  {
    GrowToFourFirst();
    GrowToFourSecond();
    var start := Table<string>.Table(4, 4, []);
    var s2 := Table(4, 4, [Single(K3), Hole, Single(K1)]);
    assert Reinsert(GrownFour, Four.buckets, 2) == (GrownFour, Done);
    assert Reinsert(s2, Four.buckets, 1) == (GrownFour, Done);
    assert Reinsert(start, Four.buckets, 0) == (GrownFour, Done);
  }

  /** The fifth and sixth inserts, with four buckets: "key5" joins "key1"
      and "key6" joins "key2". */
  lemma FifthSixth()
    ensures var r5 := Insert(Four, "key5", "value5");
      r5 == (Table(4, 5, [Single(K3), Single(K4), Chain([K1, K5], false), Single(K2)]), Done)
      && Insert(r5.0, "key6", "value6")
         == (Table(4, 6, [Single(K3), Single(K4), Chain([K1, K5], false), Chain([K2, K6], false)]), Done)
  {
    GrowToFour();
    SmallHashes();
    assert "key1" != "key5" && "key2" != "key6";
    assert [K1] + [K5] == [K1, K5] && [K2] + [K6] == [K2, K6];
    var t5 := Table(4, 5, [Single(K3), Single(K4), Chain([K1, K5], false), Single(K2)]);
    var t6 := Table(4, 6, [Single(K3), Single(K4), Chain([K1, K5], false), Chain([K2, K6], false)]);
    assert Put(GrownFour.buckets, 2, Chain([K1, K5], false)) == t5.buckets;
    assert Put(t5.buckets, 3, Chain([K2, K6], false)) == t6.buckets;
  }

  /** The seventh and eighth inserts: "key7" joins "key3" and "key8" joins
      "key4". */
  lemma SeventhEighth()
    ensures var t6 := Table(4, 6, [Single(K3), Single(K4), Chain([K1, K5], false), Chain([K2, K6], false)]);
      var r7 := Insert(t6, "key7", "value7");
      r7 == (Table(4, 7, [Chain([K3, K7], false), Single(K4), Chain([K1, K5], false), Chain([K2, K6], false)]), Done)
      && Insert(r7.0, "key8", "value8") == (Eight, Done)
  {
    SmallHashes();
    assert "key3" != "key7" && "key4" != "key8";
    assert [K3] + [K7] == [K3, K7] && [K4] + [K8] == [K4, K8];
    var t6 := Table(4, 6, [Single(K3), Single(K4), Chain([K1, K5], false), Chain([K2, K6], false)]);
    var t7 := Table(4, 7, [Chain([K3, K7], false), Single(K4), Chain([K1, K5], false), Chain([K2, K6], false)]);
    assert Put(t6.buckets, 0, Chain([K3, K7], false)) == t7.buckets;
    assert Put(t7.buckets, 1, Chain([K4, K8], false)) == Eight.buckets;
  }

  // The new array of the grow to eight buckets after each old slot.
  const AfterSlot0 := Table(8, 8, [Single(K7), Hole, Hole, Hole, Single(K3)])
  const AfterSlot1 := Table(8, 8, [Single(K7), Single(K8), Hole, Hole, Single(K3), Single(K4)])
  const AfterSlot2 := Table(8, 8, [Single(K7), Single(K8), Single(K1), Hole, Single(K3), Single(K4), Single(K5)])

  /** Old slot 0: "key3" goes to 4, "key7" to 0. */
  lemma GrowToEightSlot0()
    ensures ReinsertEntries(Table(8, 8, []), [K3, K7], 0) == (AfterSlot0, Done)
  {
    LargeHashes();
    var start := Table<string>.Table(8, 8, []);
    var s1 := Table(8, 8, [Hole, Hole, Hole, Hole, Single(K3)]);
    assert Put<string>([], 4, Single(K3)) == s1.buckets by {
      assert Holes<string>(4) == [Hole, Hole, Hole, Hole];
    }
    assert Place(start, "key3", "value3") == (s1.(count := 9), Done);
    assert Put(s1.buckets, 0, Single(K7)) == AfterSlot0.buckets;
    assert Place(s1, "key7", "value7") == (AfterSlot0.(count := 9), Done);
    assert ReinsertEntries(s1, [K3, K7], 1) == (AfterSlot0, Done);
  }

  /** Old slot 1: "key4" goes to 5, "key8" to 1. */
  lemma GrowToEightSlot1()
    ensures ReinsertEntries(AfterSlot0, [K4, K8], 0) == (AfterSlot1, Done)
  {
    LargeHashes();
    var s1 := Table(8, 8, [Single(K7), Hole, Hole, Hole, Single(K3), Single(K4)]);
    assert Put(AfterSlot0.buckets, 5, Single(K4)) == s1.buckets by {
      assert Holes<string>(0) == [];
    }
    assert Place(AfterSlot0, "key4", "value4") == (s1.(count := 9), Done);
    assert Put(s1.buckets, 1, Single(K8)) == AfterSlot1.buckets;
    assert Place(s1, "key8", "value8") == (AfterSlot1.(count := 9), Done);
    assert ReinsertEntries(s1, [K4, K8], 1) == (AfterSlot1, Done);
  }

  /** Old slot 2: "key1" goes to 2, "key5" to 6. */
  lemma GrowToEightSlot2()
    ensures ReinsertEntries(AfterSlot1, [K1, K5], 0) == (AfterSlot2, Done)
  {
    LargeHashes();
    var s1 := Table(8, 8, [Single(K7), Single(K8), Single(K1), Hole, Single(K3), Single(K4)]);
    assert Put(AfterSlot1.buckets, 2, Single(K1)) == s1.buckets;
    assert Place(AfterSlot1, "key1", "value1") == (s1.(count := 9), Done);
    assert Put(s1.buckets, 6, Single(K5)) == AfterSlot2.buckets by {
      assert Holes<string>(0) == [];
    }
    assert Place(s1, "key5", "value5") == (AfterSlot2.(count := 9), Done);
    assert ReinsertEntries(s1, [K1, K5], 1) == (AfterSlot2, Done);
  }

  /** Old slot 3: "key2" goes to 3, "key6" to 7. */
  lemma GrowToEightSlot3()
    ensures ReinsertEntries(AfterSlot2, [K2, K6], 0) == (GrownEight, Done)
  {
    LargeHashes();
    var s1 := Table(8, 8, [Single(K7), Single(K8), Single(K1), Single(K2), Single(K3), Single(K4), Single(K5)]);
    assert Put(AfterSlot2.buckets, 3, Single(K2)) == s1.buckets;
    assert Place(AfterSlot2, "key2", "value2") == (s1.(count := 9), Done);
    assert Put(s1.buckets, 7, Single(K6)) == GrownEight.buckets by {
      assert Holes<string>(0) == [];
    }
    assert Place(s1, "key6", "value6") == (GrownEight.(count := 9), Done);
    assert ReinsertEntries(s1, [K2, K6], 1) == (GrownEight, Done);
  }

  /** The pass of the grow to eight buckets from old slot 2 on. */
  lemma GrowToEightLate()
    ensures Reinsert(AfterSlot1, Eight.buckets, 2) == (GrownEight, Done)
  {
    GrowToEightSlot2();
    GrowToEightSlot3();
    var prev := Eight.buckets;
    assert Reinsert(GrownEight, prev, 4) == (GrownEight, Done);
    assert Reinsert(AfterSlot2, prev, 3) == (GrownEight, Done);
  }

  /** The pass of the grow to eight buckets from old slot 1 on. */
  lemma GrowToEightMiddle()
    ensures Reinsert(AfterSlot0, Eight.buckets, 1) == (GrownEight, Done)
  {
    GrowToEightSlot1();
    GrowToEightLate();
  }

  /** The ninth insert doubles the bucket count to 8, and every key gets a
      slot of its own. */
  lemma GrowToEight()
    ensures GrowIfNeeded(Eight) == (GrownEight, Done)
  {
    GrowToEightSlot0();
    GrowToEightMiddle();
  }

  /** The ninth and tenth inserts: "key9" and "key10" both join "key1". */
  lemma NinthTenth()
    ensures var r9 := Insert(Eight, "key9", "value9");
      r9 == (Table(8, 9, [Single(K7), Single(K8), Chain([K1, K9], false), Single(K2), Single(K3), Single(K4), Single(K5), Single(K6)]), Done)
      && Insert(r9.0, "key10", "value10") == (Ten, Done)
  {
    GrowToEight();
    LargeHashes();
    assert "key1" != "key9" && "key1" != "key10";
    assert [K1] + [K9] == [K1, K9] && [K1, K9] + [K10] == [K1, K9, K10];
    var t9 := Table(8, 9, [Single(K7), Single(K8), Chain([K1, K9], false), Single(K2), Single(K3), Single(K4), Single(K5), Single(K6)]);
    assert Put(GrownEight.buckets, 2, Chain([K1, K9], false)) == t9.buckets;
    assert Put(t9.buckets, 2, Chain([K1, K9, K10], false)) == Ten.buckets;
  }

  /** The keys alone in slots 3 to 5 are found with their values. */
  lemma MiddleFound()
    ensures Get(Ten, "key2") == Found("value2") && Get(Ten, "key3") == Found("value3")
    ensures Get(Ten, "key4") == Found("value4")
  {
    LargeHashes();
  }

  /** The keys alone in slots 0, 1, 6 and 7 are found with their values. */
  lemma OuterFound()
    ensures Get(Ten, "key5") == Found("value5") && Get(Ten, "key6") == Found("value6")
    ensures Get(Ten, "key7") == Found("value7") && Get(Ten, "key8") == Found("value8")
  {
    LargeHashes();
  }

  /** The three keys sharing slot 2 are found with their values: "key9"
      and "key10" sit behind "key1". */
  lemma ChainFound()
    ensures Get(Ten, "key1") == Found("value1") && Get(Ten, "key9") == Found("value9")
    ensures Get(Ten, "key10") == Found("value10")
  {
    LargeHashes();
    assert "key1" != "key9" && "key1" != "key10" && "key9" != "key10";
    FindUnique([K1, K9, K10], "key9", 1);
    FindUnique([K1, K9, K10], "key10", 2);
  }

  /** `testResizing`: the ten inserts succeed, the bucket count ends at 8
      with all ten entries in place, and `get` returns every value. */
  lemma ResizingTest()
    ensures var r1 := Insert(Empty<string>(), "key1", "value1");
      var r2 := Insert(r1.0, "key2", "value2");
      var r3 := Insert(r2.0, "key3", "value3");
      var r4 := Insert(r3.0, "key4", "value4");
      var r5 := Insert(r4.0, "key5", "value5");
      var r6 := Insert(r5.0, "key6", "value6");
      var r7 := Insert(r6.0, "key7", "value7");
      var r8 := Insert(r7.0, "key8", "value8");
      var r9 := Insert(r8.0, "key9", "value9");
      var r10 := Insert(r9.0, "key10", "value10");
      && r2.0.bucketCount == 1 && r4.0.bucketCount == 2 && r8.0.bucketCount == 4
      && r10 == (Ten, Done)
      && Get(r10.0, "key1") == Found("value1") && Get(r10.0, "key2") == Found("value2")
      && Get(r10.0, "key3") == Found("value3") && Get(r10.0, "key4") == Found("value4")
      && Get(r10.0, "key5") == Found("value5") && Get(r10.0, "key6") == Found("value6")
      && Get(r10.0, "key7") == Found("value7") && Get(r10.0, "key8") == Found("value8")
      && Get(r10.0, "key9") == Found("value9") && Get(r10.0, "key10") == Found("value10")
  {
    FirstTwo();
    ThirdFourth();
    FifthSixth();
    SeventhEighth();
    NinthTenth();
    MiddleFound();
    OuterFound();
    ChainFound();
  }
}
