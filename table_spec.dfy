/**
 * The associative array's operations on the contents of its table, as
 * functions from the slots before to the slots after: where insert,
 * lookup and delete probe, what they change and what they report.
 * The class in module HashTable runs these on its array.
 */
module TableSpec {
  import opened Types
  import opened HashFunctions
  import opened Probing

  /** The strategies a table is created with. */
  datatype Strategies = Strategies(primary: HashAlgorithm, secondary: HashAlgorithm, probe: ProbeStrategy)

  /** The primary hash of a key: where every probe for it starts. */
  function Start(st: Strategies, key: Key, size: nat): (h: nat)
    requires size > 0
    ensures h < size
  {
    Hash(st.primary, key, size)
  }

  /** The step the key's walk uses (meaningful for double hashing only). */
  function Step(st: Strategies, key: Key, size: nat): nat
    requires size > 0
  {
    StepSize(st.probe, st.secondary, key, size)
  }

  /** Candidate k of the key's walk through a table of the given size. */
  function Candidate(st: Strategies, key: Key, size: nat, k: nat): (j: nat)
    requires size > 0
    ensures j < size
  {
    ProbeIndex(st.probe, Start(st, key, size), Step(st, key, size), size, k)
  }

  /** How many candidates the key's walk may examine. */
  function Bound(st: Strategies, key: Key, size: nat): (b: nat)
    requires size > 0
    ensures 1 <= b <= size
  {
    ProbeBound(st.probe, Start(st, key, size), Step(st, key, size), size)
  }

  /**
   * The probe an operation runs for a key: from the key's primary hash,
   * with the table's probing strategy; invalidEndsSearch is true when
   * inserting and false when looking up or deleting.
   */
  function Search<V>(st: Strategies, slots: seq<Slot<V>>, key: Key, invalidEndsSearch: bool): (o: ProbeOutcome)
    requires |slots| > 0
    ensures o.index == -1 || 0 <= o.index < |slots|
    ensures 1 <= o.cost <= Bound(st, key, |slots|)
    ensures o.index >= 0 ==>
      o.index == Candidate(st, key, |slots|, o.cost - 1) && StopsSearch(slots[o.index], key, invalidEndsSearch)
    ensures o.index == -1 ==> o.cost == Bound(st, key, |slots|)
    ensures forall i :: 0 <= i < o.cost && (o.index == -1 || i < o.cost - 1) ==>
      !StopsSearch(slots[Candidate(st, key, |slots|, i)], key, invalidEndsSearch)
  {
    Probe(st.probe, st.secondary, slots, key, Start(st, key, |slots|), invalidEndsSearch)
  }

  /** The search in table terms reports the first candidate whose slot stops it. */
  lemma SearchFindsFirstStop<V>(st: Strategies, slots: seq<Slot<V>>, key: Key, invalidEndsSearch: bool, m: nat)
    requires |slots| > 0 && m < Bound(st, key, |slots|)
    requires StopsSearch(slots[Candidate(st, key, |slots|, m)], key, invalidEndsSearch)
    requires forall i :: 0 <= i < m ==> !StopsSearch(slots[Candidate(st, key, |slots|, i)], key, invalidEndsSearch)
    ensures Search(st, slots, key, invalidEndsSearch) == ProbeOutcome(Candidate(st, key, |slots|, m), m + 1)
  {
    var start, step := Start(st, key, |slots|), Step(st, key, |slots|);
    forall i | 0 <= i < m
      ensures !StopsSearch(slots[ProbeIndex(st.probe, start, step, |slots|, i)], key, invalidEndsSearch)
    {
      assert Candidate(st, key, |slots|, i) == ProbeIndex(st.probe, start, step, |slots|, i);
    }
    WalkReachesFirstStop(slots, key, invalidEndsSearch, st.probe, start, step, 0, m);
  }

  /**
   * A search depends on the slots only through its stopping test: two
   * tables of the same size whose slots agree on the test give the same
   * outcome.
   */
  lemma SameTestsSameSearch<V>(st: Strategies, s1: seq<Slot<V>>, s2: seq<Slot<V>>, key: Key, invalidEndsSearch: bool)
    requires |s1| == |s2| > 0
    requires forall i :: 0 <= i < |s1| ==> StopsSearch(s1[i], key, invalidEndsSearch) == StopsSearch(s2[i], key, invalidEndsSearch)
    ensures Search(st, s1, key, invalidEndsSearch) == Search(st, s2, key, invalidEndsSearch)
  {
    ProbeSameTests(st.probe, st.secondary, s1, s2, key, Start(st, key, |s1|), invalidEndsSearch);
  }

  /** A search for which candidate m stops reports an index, at candidate m or before. */
  lemma SearchStopsNoLaterThan<V>(st: Strategies, slots: seq<Slot<V>>, key: Key, invalidEndsSearch: bool, m: nat)
    requires |slots| > 0 && m < Bound(st, key, |slots|)
    requires StopsSearch(slots[Candidate(st, key, |slots|, m)], key, invalidEndsSearch)
    ensures var o := Search(st, slots, key, invalidEndsSearch); o.index >= 0 && o.cost <= m + 1
  {
    ProbeStopsNoLaterThan(st.probe, st.secondary, slots, key, Start(st, key, |slots|), invalidEndsSearch, m);
  }

  /** The number of slots holding a live entry (the table's nEntries). */
  function CountUsed<V>(slots: seq<Slot<V>>): nat
  {
    if slots == [] then 0 else (if slots[0].Used? then 1 else 0) + CountUsed(slots[1..])
  }

  /** There are never more live entries than slots. */
  lemma {:induction false} CountUsedAtMostSize<V>(slots: seq<Slot<V>>)
    ensures CountUsed(slots) <= |slots|
  {
    if slots != [] {
      CountUsedAtMostSize(slots[1..]);
    }
  }

  /** Replacing one slot changes the live count by what the two slots contribute. */
  lemma {:induction false} CountUsedUpdate<V>(slots: seq<Slot<V>>, i: nat, slot: Slot<V>)
    requires i < |slots|
    ensures CountUsed(slots[i := slot])
            == CountUsed(slots) - (if slots[i].Used? then 1 else 0) + (if slot.Used? then 1 else 0)
  {
    if i > 0 {
      CountUsedUpdate(slots[1..], i - 1, slot);
      assert slots[i := slot][1..] == slots[1..][i - 1 := slot];
    }
  }

  /** No two live slots hold the same key. */
  ghost predicate UniqueKeys<V>(slots: seq<Slot<V>>)
  {
    forall i, j :: 0 <= i < j < |slots| && slots[i].Used? && slots[j].Used? ==> slots[i].key != slots[j].key
  }

  /**
   * Every live entry can be found: a lookup of its key ends at its own
   * slot. This is what open addressing with tombstones relies on.
   */
  ghost predicate Findable<V>(st: Strategies, slots: seq<Slot<V>>)
  {
    |slots| > 0 &&
    forall i :: 0 <= i < |slots| && slots[i].Used? ==> Search(st, slots, slots[i].key, false).index == i
  }

  /** A findable table holds each key at most once. */
  lemma FindableUnique<V>(st: Strategies, slots: seq<Slot<V>>)
    requires Findable(st, slots)
    ensures UniqueKeys(slots)
  {
    forall i, j | 0 <= i < j < |slots| && slots[i].Used? && slots[j].Used?
      ensures slots[i].key != slots[j].key
    {
      assert Search(st, slots, slots[i].key, false).index == i;
      assert Search(st, slots, slots[j].key, false).index == j;
    }
  }

  /** A freshly created table, all slots empty, is findable, holds no entry and finds no key. */
  lemma EmptyTableFindable<V>(st: Strategies, n: nat, key: Key)
    requires n > 0
    ensures Findable(st, seq<Slot<V>>(n, _ => Empty))
    ensures CountUsed(seq<Slot<V>>(n, _ => Empty)) == 0
    ensures LookupResult(st, seq<Slot<V>>(n, _ => Empty), key).value == None
  {
    EmptyCount(seq<Slot<V>>(n, _ => Empty));
    LookupAbsent(st, seq<Slot<V>>(n, _ => Empty), key);
  }

  lemma {:induction false} EmptyCount<V>(slots: seq<Slot<V>>)
    requires forall i :: 0 <= i < |slots| ==> slots[i] == Empty
    ensures CountUsed(slots) == 0
  {
    if slots != [] {
      EmptyCount(slots[1..]);
    }
  }

  // ---------------------------------------------------------------- insert

  /** What an insert leaves: the new slots, the index reported, the probe's cost. */
  datatype InsertOutcome<V> = InsertOutcome(slots: seq<Slot<V>>, index: int, cost: nat)

  /**
   * aaInsert on the slots: probe in insert mode; if the probe found no
   * place, or its place holds a live entry (the key is already there),
   * report -1 and change nothing; otherwise store the entry there and
   * report its index.
   */
  function InsertResult<V>(st: Strategies, slots: seq<Slot<V>>, key: Key, value: V): (r: InsertOutcome<V>)
    requires |slots| > 0
    ensures |r.slots| == |slots|
    ensures r.index == -1 || 0 <= r.index < |slots|
  {
    var o := Search(st, slots, key, true);
    if o.index < 0 || slots[o.index].Used? then InsertOutcome(slots, -1, o.cost)
    else InsertOutcome(slots[o.index := Used(key, value)], o.index, o.cost)
  }

  /**
   * A successful insert writes exactly one slot, one that was empty or a
   * tombstone, at the first candidate of the key's walk that is not a
   * live entry of another key; every candidate before it holds another
   * key. The live count grows by one.
   */
  lemma InsertStoresAtFirstFree<V>(st: Strategies, slots: seq<Slot<V>>, key: Key, value: V)
    requires |slots| > 0
    ensures var r := InsertResult(st, slots, key, value);
      r.index >= 0 ==>
        && !slots[r.index].Used?
        && r.slots == slots[r.index := Used(key, value)]
        && r.index == Candidate(st, key, |slots|, r.cost - 1)
        && (forall i :: 0 <= i < r.cost - 1 ==>
              slots[Candidate(st, key, |slots|, i)].Used? && slots[Candidate(st, key, |slots|, i)].key != key)
        && CountUsed(r.slots) == CountUsed(slots) + 1
  {
    var r := InsertResult(st, slots, key, value);
    if r.index >= 0 {
      InsertSuccessShape(st, slots, key, value);
      CountUsedUpdate(slots, r.index, Used(key, value));
      InsertPassesOtherKeys(st, slots, key);
    }
  }

  /** A successful insert is the insert-mode search's stop, written with the entry. */
  lemma InsertSuccessShape<V>(st: Strategies, slots: seq<Slot<V>>, key: Key, value: V)
    requires |slots| > 0
    ensures var r := InsertResult(st, slots, key, value);
      var o := Search(st, slots, key, true);
      r.index >= 0 ==>
        && r.index == o.index && r.cost == o.cost && !slots[r.index].Used?
        && r.slots == slots[r.index := Used(key, value)]
        && r.index == Candidate(st, key, |slots|, r.cost - 1)
  {
  }

  /** Every candidate an insert-mode search passes over holds another key. */
  lemma InsertPassesOtherKeys<V>(st: Strategies, slots: seq<Slot<V>>, key: Key)
    requires |slots| > 0
    ensures var o := Search(st, slots, key, true);
      forall i :: 0 <= i < o.cost - 1 ==>
        slots[Candidate(st, key, |slots|, i)].Used? && slots[Candidate(st, key, |slots|, i)].key != key
  {
    var o := Search(st, slots, key, true);
    forall i | 0 <= i < o.cost - 1
      ensures slots[Candidate(st, key, |slots|, i)].Used? && slots[Candidate(st, key, |slots|, i)].key != key
    {
      var x := Candidate(st, key, |slots|, i);
      assert !StopsSearch(slots[x], key, true);
    }
  }

  /**
   * An insert fails, changing nothing, in exactly two situations: the
   * key's walk used up its whole bound on live entries of other keys, or
   * it reached a live copy of the key at candidate cost - 1 after live
   * entries of other keys only.
   */
  lemma InsertFailsOnlyWhenFullOrPresent<V>(st: Strategies, slots: seq<Slot<V>>, key: Key, value: V)
    requires |slots| > 0
    ensures var r := InsertResult(st, slots, key, value);
      r.index == -1 ==>
        && r.slots == slots
        && 1 <= r.cost <= Bound(st, key, |slots|)
        && (forall i :: 0 <= i < r.cost - 1 ==>
              slots[Candidate(st, key, |slots|, i)].Used? && slots[Candidate(st, key, |slots|, i)].key != key)
        && ((r.cost == Bound(st, key, |slots|)
             && slots[Candidate(st, key, |slots|, r.cost - 1)].Used?
             && slots[Candidate(st, key, |slots|, r.cost - 1)].key != key)
            || (slots[Candidate(st, key, |slots|, r.cost - 1)].Used?
                && slots[Candidate(st, key, |slots|, r.cost - 1)].key == key))
  {
    var o := Search(st, slots, key, true);
    InsertPassesOtherKeys(st, slots, key);
    var x := Candidate(st, key, |slots|, o.cost - 1);
    if o.index >= 0 && slots[o.index].Used? {
      assert o.index == x && slots[x].key == key;
    } else if o.index < 0 {
      assert !StopsSearch(slots[x], key, true);
    }
  }

  /** Round trip: after a successful insert, looking the key up yields the inserted value. */
  lemma InsertThenLookup<V>(st: Strategies, slots: seq<Slot<V>>, key: Key, value: V)
    requires |slots| > 0
    requires InsertResult(st, slots, key, value).index >= 0
    ensures LookupResult(st, InsertResult(st, slots, key, value).slots, key).value == Some(value)
  {
    var r := InsertResult(st, slots, key, value);
    var m := r.cost - 1;
    var n := |slots|;
    forall i | 0 <= i < m
      ensures !StopsSearch(r.slots[Candidate(st, key, n, i)], key, false)
    {
      assert !StopsSearch(slots[Candidate(st, key, n, i)], key, true);
      assert slots[Candidate(st, key, n, i)].Used?;
    }
    SearchFindsFirstStop(st, r.slots, key, false, m);
  }

  /** When every slot holds another key, an insert fails and changes nothing, whatever the strategy. */
  lemma FullTableRejects<V>(st: Strategies, slots: seq<Slot<V>>, key: Key, value: V)
    requires |slots| > 0
    requires forall i :: 0 <= i < |slots| ==> slots[i].Used? && slots[i].key != key
    ensures InsertResult(st, slots, key, value) == InsertOutcome(slots, -1, Bound(st, key, |slots|))
  {
  }

  /**
   * With linear probing an insert of a key that is not stored succeeds
   * whenever some slot is empty or a tombstone.
   */
  lemma LinearInsertFindsRoom<V>(st: Strategies, slots: seq<Slot<V>>, key: Key, value: V, i: nat)
    requires st.probe == Linear && i < |slots| && !slots[i].Used?
    requires forall x :: 0 <= x < |slots| && slots[x].Used? ==> slots[x].key != key
    ensures InsertResult(st, slots, key, value).index >= 0
  {
    var o := Search(st, slots, key, true);
    if o.index < 0 {
      LinearProbeCoversTable(st.secondary, slots, key, Start(st, key, |slots|), true);
      assert StopsSearch(slots[i], key, true);
    } else {
      assert StopsSearch(slots[o.index], key, true);
    }
  }

  /**
   * Duplicate keys are refused while no tombstone lies on their walk: in
   * a findable table without tombstones, inserting a stored key fails
   * and leaves the slots, hence the entry count, as they were.
   */
  lemma InsertPresentFails<V>(st: Strategies, slots: seq<Slot<V>>, key: Key, value: V, i: nat)
    requires Findable(st, slots) && i < |slots| && slots[i].Used? && slots[i].key == key
    requires forall x :: 0 <= x < |slots| ==> !slots[x].Deleted?
    ensures InsertResult(st, slots, key, value).index == -1
    ensures InsertResult(st, slots, key, value).slots == slots
  {
    assert Search(st, slots, slots[i].key, false).index == i;
    InsertSearchMeetsLookup(st, slots, key);
  }

  /**
   * Without tombstones the insert-mode and lookup-mode tests agree on every
   * slot, so a lookup that stops at a slot makes the insert's probe stop
   * there too.
   */
  lemma InsertSearchMeetsLookup<V>(st: Strategies, slots: seq<Slot<V>>, key: Key)
    requires |slots| > 0 && Search(st, slots, key, false).index >= 0
    requires forall x :: 0 <= x < |slots| ==> !slots[x].Deleted?
    ensures Search(st, slots, key, true) == Search(st, slots, key, false)
  {
    var n := |slots|;
    var ol := Search(st, slots, key, false);
    var m := ol.cost - 1;
    forall c | 0 <= c < m
      ensures !StopsSearch(slots[Candidate(st, key, n, c)], key, true)
    {
      var x := Candidate(st, key, n, c);
      assert !StopsSearch(slots[x], key, false) && !slots[x].Deleted?;
    }
    SearchFindsFirstStop(st, slots, key, true, m);
  }

  // ---------------------------------------------------------------- lookup

  /** What a lookup reports: the value found, if any, and the probe's cost. */
  datatype LookupOutcome<V> = LookupOutcome(value: Option<V>, cost: nat)

  /**
   * aaLookup on the slots: probe in lookup mode (tombstones are passed
   * over); report the value when the probe ends on a live entry whose key
   * matches, nothing otherwise.
   */
  function LookupResult<V>(st: Strategies, slots: seq<Slot<V>>, key: Key): (r: LookupOutcome<V>)
    requires |slots| > 0
    ensures 1 <= r.cost <= |slots|
  {
    var o := Search(st, slots, key, false);
    if o.index >= 0 && slots[o.index].Used? && KeysMatch(slots[o.index].key, key)
    then LookupOutcome(Some(slots[o.index].value), o.cost)
    else LookupOutcome(None, o.cost)
  }

  /** A value found by lookup is stored live under that key. */
  lemma LookupSound<V>(st: Strategies, slots: seq<Slot<V>>, key: Key)
    requires |slots| > 0
    ensures var r := LookupResult(st, slots, key);
      r.value.Some? ==> exists i :: 0 <= i < |slots| && slots[i] == Used(key, r.value.value)
  {
    var o := Search(st, slots, key, false);
    if LookupResult(st, slots, key).value.Some? {
      assert slots[o.index] == Used(key, LookupResult(st, slots, key).value.value);
    }
  }

  /** A key that is stored nowhere is not found. */
  lemma LookupAbsent<V>(st: Strategies, slots: seq<Slot<V>>, key: Key)
    requires |slots| > 0
    requires forall i :: 0 <= i < |slots| && slots[i].Used? ==> slots[i].key != key
    ensures LookupResult(st, slots, key).value == None
  {
    LookupSound(st, slots, key);
  }

  /** In a findable table every live entry is found by its key, with its value. */
  lemma FindableLookup<V>(st: Strategies, slots: seq<Slot<V>>, i: nat)
    requires Findable(st, slots) && i < |slots| && slots[i].Used?
    ensures LookupResult(st, slots, slots[i].key).value == Some(slots[i].value)
  {
    assert Search(st, slots, slots[i].key, false).index == i;
  }

  /** In a findable table a lookup finds nothing exactly when the key is stored nowhere. */
  lemma FindableLookupNone<V>(st: Strategies, slots: seq<Slot<V>>, key: Key)
    requires Findable(st, slots)
    ensures LookupResult(st, slots, key).value == None
            <==> forall i :: 0 <= i < |slots| && slots[i].Used? ==> slots[i].key != key
  {
    if LookupResult(st, slots, key).value == None {
      forall i | 0 <= i < |slots| && slots[i].Used?
        ensures slots[i].key != key
      {
        FindableLookup(st, slots, i);
      }
    } else {
      LookupSound(st, slots, key);
    }
  }

  // ---------------------------------------------------------------- delete

  /** What a delete leaves: the new slots, the value removed if any, the probe's cost. */
  datatype DeleteOutcome<V> = DeleteOutcome(slots: seq<Slot<V>>, value: Option<V>, cost: nat)

  /**
   * aaDelete on the slots: probe as lookup does; when it ends on a live
   * entry with the key, turn that slot into a tombstone that keeps the
   * key and value, and report the value; otherwise change nothing.
   */
  function DeleteResult<V>(st: Strategies, slots: seq<Slot<V>>, key: Key): (r: DeleteOutcome<V>)
    requires |slots| > 0
    ensures |r.slots| == |slots|
  {
    var o := Search(st, slots, key, false);
    if o.index >= 0 && slots[o.index].Used? && KeysMatch(slots[o.index].key, key)
    then DeleteOutcome(slots[o.index := Deleted(slots[o.index].key, slots[o.index].value)],
                       Some(slots[o.index].value), o.cost)
    else DeleteOutcome(slots, None, o.cost)
  }

  /**
   * Delete removes what lookup finds: it reports the value lookup would
   * report, at the same cost; when it removes an entry, exactly that slot
   * becomes a tombstone of the same key and value and the live count
   * drops by one; when it finds nothing, nothing changes.
   */
  lemma DeleteRemovesWhatLookupFinds<V>(st: Strategies, slots: seq<Slot<V>>, key: Key)
    requires |slots| > 0
    ensures var d := DeleteResult(st, slots, key);
      && d.value == LookupResult(st, slots, key).value
      && d.cost == LookupResult(st, slots, key).cost
      && (d.value.Some? ==> exists i :: 0 <= i < |slots| && slots[i] == Used(key, d.value.value)
                                       && d.slots == slots[i := Deleted(key, d.value.value)])
      && (d.value.None? ==> d.slots == slots)
      && CountUsed(d.slots) == CountUsed(slots) - (if d.value.Some? then 1 else 0)
  {
    var o := Search(st, slots, key, false);
    var d := DeleteResult(st, slots, key);
    if d.value.Some? {
      CountUsedUpdate(slots, o.index, Deleted(key, d.value.value));
      assert slots[o.index] == Used(key, d.value.value);
    }
  }

  /** Delete keeps every live entry findable. */
  lemma DeleteKeepsFindable<V>(st: Strategies, slots: seq<Slot<V>>, key: Key)
    requires Findable(st, slots)
    ensures Findable(st, DeleteResult(st, slots, key).slots)
  {
    var d := DeleteResult(st, slots, key);
    var o := Search(st, slots, key, false);
    if d.value.Some? {
      var j := o.index;
      forall i | 0 <= i < |d.slots| && d.slots[i].Used?
        ensures Search(st, d.slots, d.slots[i].key, false).index == i
      {
        var k := slots[i].key;
        assert i != j;
        // the deleted slot held a different key, so neither before nor after does it stop k's lookup
        assert Search(st, slots, k, false).index == i;
        assert k != key by { FindableUnique(st, slots); }
        forall x | 0 <= x < |slots|
          ensures StopsSearch(slots[x], k, false) == StopsSearch(d.slots[x], k, false)
        {
        }
        SameTestsSameSearch(st, slots, d.slots, k, false);
      }
    }
  }

  /** Under findability, a key deleted is no longer found. */
  lemma DeleteThenLookupAbsent<V>(st: Strategies, slots: seq<Slot<V>>, key: Key)
    requires Findable(st, slots)
    ensures LookupResult(st, DeleteResult(st, slots, key).slots, key).value == None
  {
    var d := DeleteResult(st, slots, key);
    if d.value.Some? {
      FindableUnique(st, slots);
      var j := Search(st, slots, key, false).index;
      forall i | 0 <= i < |d.slots| && d.slots[i].Used?
        ensures d.slots[i].key != key
      {
        assert i != j;
        assert slots[i].Used? && slots[j].Used?;
        assert slots[j].key == key;
      }
      LookupAbsent(st, d.slots, key);
    }
  }

  /**
   * After deleting a key, inserting it again succeeds: the walk reaches
   * the tombstone just made, or an earlier one.
   */
  lemma DeleteThenInsertSucceeds<V>(st: Strategies, slots: seq<Slot<V>>, key: Key, value: V)
    requires |slots| > 0
    requires DeleteResult(st, slots, key).value.Some?
    ensures InsertResult(st, DeleteResult(st, slots, key).slots, key, value).index >= 0
  {
    var n := |slots|;
    var d := DeleteResult(st, slots, key);
    var od := Search(st, slots, key, false);
    var m := od.cost - 1;
    var j := od.index;
    // candidate m, the tombstone just made, stops the insert's walk, so the walk stops there or earlier
    assert Candidate(st, key, n, m) == j;
    SearchStopsNoLaterThan(st, d.slots, key, true, m);
    var o := Search(st, d.slots, key, true);
    if o.cost - 1 < m {
      // an earlier candidate: untouched by the delete and passed over by the lookup, so not live
      var y := Candidate(st, key, n, o.cost - 1);
      assert !StopsSearch(slots[y], key, false);
      assert d.slots[y] == slots[y];
    }
  }

  // ------------------------------------------------- insert with tombstones

  /**
   * An insert of a key that is not stored keeps every live entry findable,
   * the new one included.
   */
  lemma InsertAbsentKeepsFindable<V>(st: Strategies, slots: seq<Slot<V>>, key: Key, value: V)
    requires Findable(st, slots)
    requires LookupResult(st, slots, key).value == None
    ensures Findable(st, InsertResult(st, slots, key, value).slots)
  {
    var r := InsertResult(st, slots, key, value);
    var n := |slots|;
    if r.index >= 0 {
      var x := r.index;
      FindableLookupNone(st, slots, key);
      forall i | 0 <= i < n && r.slots[i].Used?
        ensures Search(st, r.slots, r.slots[i].key, false).index == i
      {
        if i == x {
          InsertThenLookup(st, slots, key, value);
        } else {
          OtherKeyStillFound(st, slots, key, value, i);
        }
      }
    }
  }

  /** The walk of another stored key is not disturbed by the slot an insert writes. */
  lemma OtherKeyStillFound<V>(st: Strategies, slots: seq<Slot<V>>, key: Key, value: V, i: nat)
    requires Findable(st, slots)
    requires InsertResult(st, slots, key, value).index >= 0
    requires i < |slots| && i != InsertResult(st, slots, key, value).index
    requires slots[i].Used? && slots[i].key != key
    ensures Search(st, InsertResult(st, slots, key, value).slots, slots[i].key, false).index == i
  {
    var r := InsertResult(st, slots, key, value);
    var n := |slots|;
    var x := r.index;
    var k := slots[i].key;
    var ok := Search(st, slots, k, false);
    assert ok.index == i;
    var m := ok.cost - 1;
    forall c | 0 <= c < m
      ensures !StopsSearch(r.slots[Candidate(st, k, n, c)], k, false)
    {
      var y := Candidate(st, k, n, c);
      assert !StopsSearch(slots[y], k, false);
      if y == x {
        // the written slot was passed over by k's lookup, so it was a tombstone
        assert slots[x].Deleted?;
      }
    }
    SearchFindsFirstStop(st, r.slots, k, false, m);
  }

  /**
   * On any table, duplicates included, a key that a lookup finds is still
   * found, with the same value at the same cost, after inserting another key.
   */
  lemma InsertKeepsOtherLookup<V>(st: Strategies, slots: seq<Slot<V>>, k: Key, key: Key, value: V)
    requires |slots| > 0 && k != key && LookupResult(st, slots, k).value.Some?
    ensures LookupResult(st, InsertResult(st, slots, key, value).slots, k) == LookupResult(st, slots, k)
  {
    var r := InsertResult(st, slots, key, value);
    var n := |slots|;
    var ok := Search(st, slots, k, false);
    var m := ok.cost - 1;
    assert slots[ok.index].Used? && slots[ok.index].key == k;
    assert r.slots[ok.index] == slots[ok.index];
    forall c | 0 <= c < m
      ensures !StopsSearch(r.slots[Candidate(st, k, n, c)], k, false)
    {
      var y := Candidate(st, k, n, c);
      assert !StopsSearch(slots[y], k, false);
    }
    SearchFindsFirstStop(st, r.slots, k, false, m);
  }

  /**
   * On any table, deleting one key leaves the lookup of every other key
   * exactly as it was: a live entry of another key and its tombstone both
   * let a lookup pass.
   */
  lemma DeleteKeepsOtherLookup<V>(st: Strategies, slots: seq<Slot<V>>, k: Key, key: Key)
    requires |slots| > 0 && k != key
    ensures LookupResult(st, DeleteResult(st, slots, key).slots, k) == LookupResult(st, slots, k)
  {
    var d := DeleteResult(st, slots, key);
    forall x | 0 <= x < |slots|
      ensures StopsSearch(slots[x], k, false) == StopsSearch(d.slots[x], k, false)
    {
      assert slots[x] == d.slots[x] || (slots[x].Used? && slots[x].key == key);
    }
    SameTestsSameSearch(st, slots, d.slots, k, false);
    var o := Search(st, slots, k, false);
    if o.index >= 0 && slots[o.index].Used? && slots[o.index].key == k {
      assert d.slots[o.index] == slots[o.index];
    }
  }

  /**
   * The evidently intended insert: look the key up first and refuse a
   * key that is already stored (no insert probe is run then), otherwise
   * insert as before. The cost reported is that of the insert probe.
   */
  function InsertChecked<V>(st: Strategies, slots: seq<Slot<V>>, key: Key, value: V): (r: InsertOutcome<V>)
    requires |slots| > 0
    ensures |r.slots| == |slots|
    ensures r.index == -1 || 0 <= r.index < |slots|
  {
    if LookupResult(st, slots, key).value.Some? then InsertOutcome(slots, -1, 0)
    else InsertResult(st, slots, key, value)
  }

  /**
   * The checked insert keeps every live entry findable, hence never
   * stores a key twice, and refuses a key that is already stored.
   */
  lemma InsertCheckedKeepsFindable<V>(st: Strategies, slots: seq<Slot<V>>, key: Key, value: V)
    requires Findable(st, slots)
    ensures var r := InsertChecked(st, slots, key, value);
      && Findable(st, r.slots)
      && UniqueKeys(r.slots)
      && ((exists i :: 0 <= i < |slots| && slots[i].Used? && slots[i].key == key) ==> r.index == -1 && r.slots == slots)
  {
    var r := InsertChecked(st, slots, key, value);
    FindableLookupNone(st, slots, key);
    if LookupResult(st, slots, key).value == None {
      InsertAbsentKeepsFindable(st, slots, key, value);
    }
    FindableUnique(st, r.slots);
  }

  // --------------------------------------------------------------- iterate

  /** The live entries in table order, as (key, value) pairs. */
  function UsedEntries<V>(slots: seq<Slot<V>>): (entries: seq<(Key, V)>)
    ensures |entries| == CountUsed(slots)
  {
    if slots == [] then []
    else if slots[0].Used? then [(slots[0].key, slots[0].value)] + UsedEntries(slots[1..])
    else UsedEntries(slots[1..])
  }

  /** Every listed entry is a live slot of the table, and every live slot is listed. */
  lemma {:induction false} UsedEntriesAreLive<V>(slots: seq<Slot<V>>)
    ensures forall e: (Key, V) :: e in UsedEntries(slots) <==> exists i :: 0 <= i < |slots| && slots[i] == Used(e.0, e.1)
  {
    if slots != [] {
      UsedEntriesAreLive(slots[1..]);
      forall e: (Key, V)
        ensures (exists i :: 0 <= i < |slots| && slots[i] == Used(e.0, e.1))
                <==> (slots[0] == Used(e.0, e.1) || exists i :: 0 <= i < |slots[1..]| && slots[1..][i] == Used(e.0, e.1))
      {
        if exists i :: 0 <= i < |slots| && slots[i] == Used(e.0, e.1) {
          var i :| 0 <= i < |slots| && slots[i] == Used(e.0, e.1);
          if i > 0 {
            assert slots[1..][i - 1] == Used(e.0, e.1);
          }
        }
        if exists i :: 0 <= i < |slots[1..]| && slots[1..][i] == Used(e.0, e.1) {
          var i :| 0 <= i < |slots[1..]| && slots[1..][i] == Used(e.0, e.1);
          assert slots[i + 1] == Used(e.0, e.1);
        }
      }
    }
  }

  /**
   * aaIterateAction over a list of entries: call the action on each in
   * turn, threading the user data through; stop with -1 as soon as a call
   * reports a negative status, and report 1 when every call succeeded.
   */
  function Fold<V, U>(entries: seq<(Key, V)>, action: (Key, V, U) -> (int, U), userdata: U): (r: (int, U))
    ensures r.0 == 1 || r.0 == -1
  {
    if entries == [] then (1, userdata)
    else
      var (status, data) := action(entries[0].0, entries[0].1, userdata);
      if status < 0 then (-1, data) else Fold(entries[1..], action, data)
  }

  /** The user data after calling the action on every entry, none of them failing. */
  function Thread<V, U>(entries: seq<(Key, V)>, action: (Key, V, U) -> (int, U), userdata: U): U
  {
    if entries == [] then userdata
    else Thread(entries[1..], action, action(entries[0].0, entries[0].1, userdata).1)
  }

  /** The call made on entry n when every call before it has succeeded. */
  function CallAt<V, U>(entries: seq<(Key, V)>, action: (Key, V, U) -> (int, U), userdata: U, n: nat): (int, U)
    requires n < |entries|
  {
    action(entries[n].0, entries[n].1, Thread(entries[..n], action, userdata))
  }

  /**
   * The iteration reports 1 exactly when no call fails, and then hands
   * back the data threaded through every entry; otherwise it stops at the
   * first failing call and hands back that call's data.
   */
  lemma {:induction false} FoldStopsAtFirstFailure<V, U>(entries: seq<(Key, V)>, action: (Key, V, U) -> (int, U), userdata: U)
    ensures var r := Fold(entries, action, userdata);
      && (r.0 == 1 <==> forall n :: 0 <= n < |entries| ==> CallAt(entries, action, userdata, n).0 >= 0)
      && (r.0 == 1 ==> r.1 == Thread(entries, action, userdata))
      && (r.0 == -1 ==> exists n ::
            && 0 <= n < |entries|
            && CallAt(entries, action, userdata, n).0 < 0
            && r.1 == CallAt(entries, action, userdata, n).1
            && (forall p :: 0 <= p < n ==> CallAt(entries, action, userdata, p).0 >= 0))
  {
    if entries != [] {
      var first := action(entries[0].0, entries[0].1, userdata);
      var rest := entries[1..];
      assert CallAt(entries, action, userdata, 0) == first by {
        assert entries[..0] == [];
      }
      forall n | 1 <= n < |entries|
        ensures CallAt(entries, action, userdata, n) == CallAt(rest, action, first.1, n - 1)
      {
        assert entries[..n][1..] == rest[..n - 1];
        assert entries[n] == rest[n - 1];
      }
      if first.0 >= 0 {
        FoldStopsAtFirstFailure(rest, action, first.1);
        var r := Fold(rest, action, first.1);
        if r.0 == -1 {
          var n' :|
            && 0 <= n' < |rest|
            && CallAt(rest, action, first.1, n').0 < 0
            && r.1 == CallAt(rest, action, first.1, n').1
            && (forall p :: 0 <= p < n' ==> CallAt(rest, action, first.1, p).0 >= 0);
          assert CallAt(entries, action, userdata, n' + 1) == CallAt(rest, action, first.1, n');
          forall p | 0 <= p < n' + 1
            ensures CallAt(entries, action, userdata, p).0 >= 0
          {
            if p > 0 {
              assert CallAt(entries, action, userdata, p) == CallAt(rest, action, first.1, p - 1);
            }
          }
        } else {
          forall n | 0 <= n < |entries|
            ensures CallAt(entries, action, userdata, n).0 >= 0
          {
            if n > 0 {
              assert CallAt(entries, action, userdata, n) == CallAt(rest, action, first.1, n - 1);
            }
          }
        }
      }
    }
  }

  /** Iteration over a slot table: the fold over its live entries in table order. */
  function IterateResult<V, U>(slots: seq<Slot<V>>, action: (Key, V, U) -> (int, U), userdata: U): (r: (int, U))
    ensures r.0 == 1 || r.0 == -1
  {
    Fold(UsedEntries(slots), action, userdata)
  }
}
