/**
 * Worked examples on small tables: collisions under linear probing,
 * lookups past a tombstone, tombstone reuse, a full table, and the
 * duplicate an insert stores when its walk meets a tombstone before the
 * live copy of its key.
 */
module Scenarios {
  import opened Types
  import opened HashFunctions
  import opened Probing
  import opened TableSpec

  /** Byte-sum primary hash, length secondary hash, linear probing. */
  function SumLinear(): Strategies
  {
    Strategies(BySum, ByLength, Linear)
  }

  /** The table after "a" (97) and "f" (102), both hashing to 2 in a table of size 5. */
  function AF(): seq<Slot<int>>
  {
    [Empty, Empty, Used([97], 1), Used([102], 2), Empty]
  }

  /**
   * "a" then "f" into a fresh table of size 5: "a" lands in slot 2, "f"
   * collides there and lands in slot 3; both are found, "z" (122, also
   * hashing to 2) is not.
   */
  lemma CollidingInserts()
    ensures var s1 := InsertResult(SumLinear(), seq<Slot<int>>(5, _ => Empty), [97], 1);
      && s1 == InsertOutcome([Empty, Empty, Used([97], 1), Empty, Empty], 2, 1)
      && InsertResult(SumLinear(), s1.slots, [102], 2) == InsertOutcome(AF(), 3, 2)
    ensures LookupResult(SumLinear(), AF(), [97]) == LookupOutcome(Some(1), 1)
    ensures LookupResult(SumLinear(), AF(), [102]) == LookupOutcome(Some(2), 2)
    ensures LookupResult(SumLinear(), AF(), [122]) == LookupOutcome(None, 3)
  {
    var st := SumLinear();
    assert Candidate(st, [97], 5, 0) == 2;
    assert Candidate(st, [102], 5, 0) == 2 && Candidate(st, [102], 5, 1) == 3;
    assert Candidate(st, [122], 5, 0) == 2 && Candidate(st, [122], 5, 1) == 3 && Candidate(st, [122], 5, 2) == 4;
    SearchFindsFirstStop(st, seq<Slot<int>>(5, _ => Empty), [97], true, 0);
    SearchFindsFirstStop(st, [Empty, Empty, Used([97], 1), Empty, Empty], [102], true, 1);
    SearchFindsFirstStop(st, AF(), [97], false, 0);
    SearchFindsFirstStop(st, AF(), [102], false, 1);
    SearchFindsFirstStop(st, AF(), [122], false, 2);
  }

  /**
   * Deleting "a" leaves a tombstone in slot 2; a lookup of "f" passes over
   * it and still finds "f"; a new key "k" (107, hashing to 2) lands on the
   * tombstone.
   */
  lemma TombstoneSkippedThenReused()
    ensures var s3 := DeleteResult(SumLinear(), AF(), [97]);
      && s3 == DeleteOutcome([Empty, Empty, Deleted([97], 1), Used([102], 2), Empty], Some(1), 1)
      && LookupResult(SumLinear(), s3.slots, [102]) == LookupOutcome(Some(2), 2)
      && InsertResult(SumLinear(), s3.slots, [107], 3)
         == InsertOutcome([Empty, Empty, Used([107], 3), Used([102], 2), Empty], 2, 1)
  {
    var st := SumLinear();
    var s3: seq<Slot<int>> := [Empty, Empty, Deleted([97], 1), Used([102], 2), Empty];
    assert Candidate(st, [97], 5, 0) == 2;
    assert Candidate(st, [102], 5, 0) == 2 && Candidate(st, [102], 5, 1) == 3;
    assert Candidate(st, [107], 5, 0) == 2;
    SearchFindsFirstStop(st, AF(), [97], false, 0);
    SearchFindsFirstStop(st, s3, [102], false, 1);
    SearchFindsFirstStop(st, s3, [107], true, 0);
  }

  /** Three keys fill a table of size 3; a fourth insert reports -1 and changes nothing. */
  lemma FullTable()
    ensures var st := Strategies(BySum, ByLength, Linear);
      var s1 := InsertResult(st, seq<Slot<int>>(3, _ => Empty), [1], 10);
      var s2 := InsertResult(st, s1.slots, [2], 20);
      var s3 := InsertResult(st, s2.slots, [3], 30);
      && s1.index == 1 && s2.index == 2 && s3.index == 0
      && s3.slots == [Used([3], 30), Used([1], 10), Used([2], 20)]
      && InsertResult(st, s3.slots, [4], 40) == InsertOutcome(s3.slots, -1, 3)
  {
    var st := Strategies(BySum, ByLength, Linear);
    assert Candidate(st, [1], 3, 0) == 1 && Candidate(st, [2], 3, 0) == 2 && Candidate(st, [3], 3, 0) == 0;
    SearchFindsFirstStop(st, seq<Slot<int>>(3, _ => Empty), [1], true, 0);
    SearchFindsFirstStop(st, [Empty, Used([1], 10), Empty], [2], true, 0);
    SearchFindsFirstStop(st, [Empty, Used([1], 10), Used([2], 20)], [3], true, 0);
    FullTableRejects(st, [Used([3], 30), Used([1], 10), Used([2], 20)], [4], 40);
    assert Bound(st, [4], 3) == 3;
  }

  /**
   * As written, inserting "f" again after "a" was deleted stops at the
   * tombstone in slot 2, before the live "f" in slot 3, and stores "f" a
   * second time.
   */
  lemma InsertPastTombstoneDuplicates()
    ensures var s3 := DeleteResult(SumLinear(), AF(), [97]).slots;
      var s4 := InsertResult(SumLinear(), s3, [102], 3);
      && s4 == InsertOutcome([Empty, Empty, Used([102], 3), Used([102], 2), Empty], 2, 1)
      && !UniqueKeys(s4.slots)
      && !Findable(SumLinear(), s4.slots)
  {
    var st := SumLinear();
    var s3: seq<Slot<int>> := [Empty, Empty, Deleted([97], 1), Used([102], 2), Empty];
    var s4: seq<Slot<int>> := [Empty, Empty, Used([102], 3), Used([102], 2), Empty];
    TombstoneSkippedThenReused();
    assert Candidate(st, [102], 5, 0) == 2;
    SearchFindsFirstStop(st, s3, [102], true, 0);
    assert s4[2].key == s4[3].key;
    SearchFindsFirstStop(st, s4, [102], false, 0);
    assert Search(st, s4, s4[3].key, false).index != 3;
  }

  /** Deleting "f" from that table removes the newer copy; a lookup still finds the old value. */
  lemma StaleCopyFound()
    ensures var s5 := DeleteResult(SumLinear(), [Empty, Empty, Used([102], 3), Used([102], 2), Empty], [102]);
      && s5 == DeleteOutcome([Empty, Empty, Deleted([102], 3), Used([102], 2), Empty], Some(3), 1)
      && LookupResult(SumLinear(), s5.slots, [102]) == LookupOutcome(Some(2), 2)
  {
    var st := SumLinear();
    assert Candidate(st, [102], 5, 0) == 2 && Candidate(st, [102], 5, 1) == 3;
    SearchFindsFirstStop(st, [Empty, Empty, Used([102], 3), Used([102], 2), Empty], [102], false, 0);
    SearchFindsFirstStop(st, [Empty, Empty, Deleted([102], 3), Used([102], 2), Empty], [102], false, 1);
  }

  /** The checked insert refuses "f" in the same situation and changes nothing. */
  lemma InsertCheckedRefusesDuplicate()
    ensures var s3 := [Empty, Empty, Deleted([97], 1), Used([102], 2), Empty];
      InsertChecked(SumLinear(), s3, [102], 3) == InsertOutcome(s3, -1, 0)
  {
    var st := SumLinear();
    var s3: seq<Slot<int>> := [Empty, Empty, Deleted([97], 1), Used([102], 2), Empty];
    assert Candidate(st, [102], 5, 0) == 2 && Candidate(st, [102], 5, 1) == 3;
    SearchFindsFirstStop(st, s3, [102], false, 1);
  }
}
