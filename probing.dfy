/**
 * The three collision-resolution walks (linear, quadratic and double
 * hashing). Each walks a fixed sequence of slot indices from the primary
 * hash index and stops at the first slot that ends the search, or gives
 * up with -1 when its bound is reached, counting every slot it examines.
 */
module Probing {
  import opened Types
  import opened Arith
  import opened HashFunctions

  /** The probing strategies a table can be configured with. */
  datatype ProbeStrategy = Linear | Quadratic | DoubleHash

  /**
   * The test a probe applies to each slot it examines: a Used slot holding
   * the sought key, any Empty slot, and, when the caller is looking for a
   * place to insert (invalidEndsSearch), a Deleted slot end the search.
   */
  predicate StopsSearch<V>(slot: Slot<V>, key: Key, invalidEndsSearch: bool)
  {
    match slot
    case Used(k, _) => KeysMatch(k, key)
    case Empty => true
    case Deleted(_, _) => invalidEndsSearch
  }

  /**
   * The k-th index of a walk that moves a fixed step at a time: the start
   * index, then one step further (modulo size) each time. The linear walk
   * moves by one, the double-hash walk by the key's secondary hash.
   */
  function StepIndex(start: nat, step: nat, size: nat, k: nat): (j: nat)
    requires start < size
    ensures j < size
  {
    if k == 0 then start else (StepIndex(start, step, size, k - 1) + step) % size
  }

  /** A stepping walk's k-th index in closed form: start + k * step, modulo size. */
  lemma {:induction false} StepIndexClosedForm(start: nat, step: nat, size: nat, k: nat)
    requires start < size
    ensures StepIndex(start, step, size, k) == (start + k * step) % size
  {
    if k == 0 {
      ModUnique(start, size, 0, start);
    } else {
      StepIndexClosedForm(start, step, size, k - 1);
      var before, after := start + (k - 1) * step, start + k * step;
      assert after == before + step by { MulPred(k, step); }
      ModStep(StepIndex(start, step, size, k - 1), before, step, after, size);
    }
  }

  /**
   * The k-th index of the quadratic walk, moving from one square to the
   * next: the start index, then 1, 3, 5, ... further (modulo size).
   */
  function QuadraticIndex(start: nat, size: nat, k: nat): (j: nat)
    requires start < size
    ensures j < size
  {
    if k == 0 then start else (QuadraticIndex(start, size, k - 1) + (2 * k - 1)) % size
  }

  /** The quadratic walk's k-th index in closed form: start + k * k, modulo size. */
  lemma {:induction false} QuadraticIndexClosedForm(start: nat, size: nat, k: nat)
    requires start < size
    ensures QuadraticIndex(start, size, k) == (start + k * k) % size
  {
    if k == 0 {
      ModUnique(start, size, 0, start);
    } else {
      QuadraticIndexClosedForm(start, size, k - 1);
      var before, after := start + (k - 1) * (k - 1), start + k * k;
      assert after == before + (2 * k - 1) by { SquarePred(k); }
      ModStep(QuadraticIndex(start, size, k - 1), before, 2 * k - 1, after, size);
    }
  }

  /**
   * The k-th index a walk examines (k = 0 is the start index): the linear
   * walk steps by one (start + k modulo size, by StepIndexClosedForm), the
   * quadratic walk examines start + k * k modulo size (by
   * QuadraticIndexClosedForm), the double-hash walk steps by the given step.
   */
  function ProbeIndex(strategy: ProbeStrategy, start: nat, step: nat, size: nat, k: nat): (j: nat)
    requires start < size
    ensures j < size
  {
    match strategy
    case Linear => StepIndex(start, 1, size, k)
    case Quadratic => QuadraticIndex(start, size, k)
    case DoubleHash => StepIndex(start, step, size, k)
  }

  /**
   * The first k at or after the given one at which the double-hash walk is
   * back at its start index; the walk is back there at the latest after
   * size steps.
   */
  function ReturnTime(start: nat, step: nat, size: nat, k: nat): (t: nat)
    requires start < size && 1 <= k <= size
    ensures k <= t <= size
    ensures ProbeIndex(DoubleHash, start, step, size, t) == start
    ensures forall i :: k <= i < t ==> ProbeIndex(DoubleHash, start, step, size, i) != start
    decreases size - k
  {
    if k == size then
      StepIndexClosedForm(start, step, size, k);
      ModAddMultiple(start, size, step);
      ModUnique(start, size, 0, start);
      k
    else if ProbeIndex(DoubleHash, start, step, size, k) == start then k
    else ReturnTime(start, step, size, k + 1)
  }

  /**
   * How many slots a walk may examine before it gives up: the linear and
   * quadratic walks stop after size slots, the double-hash walk when it
   * comes back to its start index.
   */
  function ProbeBound(strategy: ProbeStrategy, start: nat, step: nat, size: nat): (b: nat)
    requires start < size
    ensures 1 <= b <= size
  {
    if strategy == DoubleHash then ReturnTime(start, step, size, 1) else size
  }

  /** The step of a walk: the secondary hash of the key for double hashing, unused otherwise. */
  function StepSize(strategy: ProbeStrategy, secondary: HashAlgorithm, key: Key, size: nat): nat
    requires size > 0
  {
    if strategy == DoubleHash then Hash(secondary, key, size) else 0
  }

  /** What a probe reports: an index or -1, and how many slots it examined. */
  datatype ProbeOutcome = ProbeOutcome(index: int, cost: nat)

  /**
   * The rest of a walk that has already examined its candidates 0 .. k-1
   * without stopping: examine candidate k, stop there if its slot ends the
   * search, report -1 once all candidates are used up.
   */
  function Walk<V>(slots: seq<Slot<V>>, key: Key, invalidEndsSearch: bool,
                   strategy: ProbeStrategy, start: nat, step: nat, k: nat): ProbeOutcome
    requires start < |slots| && k <= ProbeBound(strategy, start, step, |slots|)
    decreases ProbeBound(strategy, start, step, |slots|) - k
  {
    if k == ProbeBound(strategy, start, step, |slots|) then ProbeOutcome(-1, k)
    else
      var j := ProbeIndex(strategy, start, step, |slots|, k);
      if StopsSearch(slots[j], key, invalidEndsSearch) then ProbeOutcome(j, k + 1)
      else Walk(slots, key, invalidEndsSearch, strategy, start, step, k + 1)
  }

  /**
   * A walk from candidate k reports an index in range or -1; it examines
   * between k and the bound many candidates in all; a reported index is
   * the last candidate examined and its slot ends the search; -1 comes
   * only after the whole bound; and no candidate examined before the last
   * (none at all, for -1) ends the search.
   */
  lemma {:induction false} WalkStopsAtFirst<V>(slots: seq<Slot<V>>, key: Key, invalidEndsSearch: bool,
                                                strategy: ProbeStrategy, start: nat, step: nat, k: nat)
    requires start < |slots| && k <= ProbeBound(strategy, start, step, |slots|)
    ensures var o := Walk(slots, key, invalidEndsSearch, strategy, start, step, k);
      && (o.index == -1 || 0 <= o.index < |slots|)
      && k <= o.cost <= ProbeBound(strategy, start, step, |slots|)
      && (o.index >= 0 ==>
            k < o.cost && o.index == ProbeIndex(strategy, start, step, |slots|, o.cost - 1)
            && StopsSearch(slots[o.index], key, invalidEndsSearch))
      && (o.index == -1 ==> o.cost == ProbeBound(strategy, start, step, |slots|))
      && (forall i :: k <= i < o.cost && (o.index == -1 || i < o.cost - 1) ==>
            !StopsSearch(slots[ProbeIndex(strategy, start, step, |slots|, i)], key, invalidEndsSearch))
    decreases ProbeBound(strategy, start, step, |slots|) - k
  {
    var o := Walk(slots, key, invalidEndsSearch, strategy, start, step, k);
    if k < ProbeBound(strategy, start, step, |slots|) {
      var j := ProbeIndex(strategy, start, step, |slots|, k);
      if StopsSearch(slots[j], key, invalidEndsSearch) {
        assert o == ProbeOutcome(j, k + 1);
      } else {
        WalkStopsAtFirst(slots, key, invalidEndsSearch, strategy, start, step, k + 1);
        assert o == Walk(slots, key, invalidEndsSearch, strategy, start, step, k + 1);
      }
    } else {
      assert o == ProbeOutcome(-1, k);
    }
  }

  /**
   * One iteration of a probe loop: candidate c ends the search, or it was
   * the last candidate and the walk reports -1, or the walk goes on.
   */
  lemma WalkIteration<V>(slots: seq<Slot<V>>, key: Key, invalidEndsSearch: bool,
                         strategy: ProbeStrategy, start: nat, step: nat, c: nat)
    requires start < |slots| && c < ProbeBound(strategy, start, step, |slots|)
    ensures var j := ProbeIndex(strategy, start, step, |slots|, c);
      Walk(slots, key, invalidEndsSearch, strategy, start, step, c)
      == if StopsSearch(slots[j], key, invalidEndsSearch) then ProbeOutcome(j, c + 1)
         else if c + 1 == ProbeBound(strategy, start, step, |slots|) then ProbeOutcome(-1, c + 1)
         else Walk(slots, key, invalidEndsSearch, strategy, start, step, c + 1)
  {
  }

  /**
   * The outcome of a probe from start: the first candidate slot whose test
   * stops the search, and the number of slots examined up to and including
   * it; or -1 after all of the walk's candidates were examined in vain.
   */
  function Probe<V>(strategy: ProbeStrategy, secondary: HashAlgorithm, slots: seq<Slot<V>>,
                    key: Key, start: nat, invalidEndsSearch: bool): (o: ProbeOutcome)
    requires start < |slots|
    ensures o.index == -1 || 0 <= o.index < |slots|
    ensures 1 <= o.cost <= ProbeBound(strategy, start, StepSize(strategy, secondary, key, |slots|), |slots|) <= |slots|
    ensures o.index >= 0 ==>
      o.index == ProbeIndex(strategy, start, StepSize(strategy, secondary, key, |slots|), |slots|, o.cost - 1)
      && StopsSearch(slots[o.index], key, invalidEndsSearch)
    ensures o.index == -1 ==>
      o.cost == ProbeBound(strategy, start, StepSize(strategy, secondary, key, |slots|), |slots|)
    ensures forall i :: 0 <= i < o.cost && (o.index == -1 || i < o.cost - 1) ==>
      !StopsSearch(slots[ProbeIndex(strategy, start, StepSize(strategy, secondary, key, |slots|), |slots|, i)],
                   key, invalidEndsSearch)
  {
    var step := StepSize(strategy, secondary, key, |slots|);
    WalkStopsAtFirst(slots, key, invalidEndsSearch, strategy, start, step, 0);
    Walk(slots, key, invalidEndsSearch, strategy, start, step, 0)
  }

  /**
   * One linear step from candidate c: the next index is candidate c + 1,
   * and it is the start index again exactly when c + 1 == size.
   */
  lemma LinearAdvance(start: nat, c: nat, size: nat)
    requires start < size && c < size
    ensures (ProbeIndex(Linear, start, 0, size, c) + 1) % size == ProbeIndex(Linear, start, 0, size, c + 1)
    ensures ProbeIndex(Linear, start, 0, size, c + 1) == start <==> c + 1 == size
  {
    StepIndexClosedForm(start, 1, size, c + 1);
    if start + c + 1 < size {
      ModUnique(start + c + 1, size, 0, start + c + 1);
    } else {
      ModUnique(start + c + 1, size, 1, start + c + 1 - size);
    }
  }

  /**
   * One double-hash step from candidate c: the next index is candidate
   * c + 1, and it is the start index again exactly when c + 1 is the bound.
   */
  lemma DoubleHashAdvance(start: nat, step: nat, size: nat, c: nat)
    requires start < size && c < ProbeBound(DoubleHash, start, step, size)
    ensures (ProbeIndex(DoubleHash, start, step, size, c) + step) % size
            == ProbeIndex(DoubleHash, start, step, size, c + 1)
    ensures ProbeIndex(DoubleHash, start, step, size, c + 1) == start
            <==> c + 1 == ProbeBound(DoubleHash, start, step, size)
  {
  }

  /**
   * One iteration of the linear loop at candidate c, index j: it stops at
   * j, or the next index is the start again and the walk reports -1, or
   * the walk goes on at the next index, candidate c + 1.
   */
  lemma LinearIteration<V>(slots: seq<Slot<V>>, key: Key, invalidEndsSearch: bool, start: nat, c: nat, j: nat)
    requires start < |slots| && c < |slots| && j == ProbeIndex(Linear, start, 0, |slots|, c)
    ensures Walk(slots, key, invalidEndsSearch, Linear, start, 0, c)
            == if StopsSearch(slots[j], key, invalidEndsSearch) then ProbeOutcome(j, c + 1)
               else if (j + 1) % |slots| == start then ProbeOutcome(-1, c + 1)
               else Walk(slots, key, invalidEndsSearch, Linear, start, 0, c + 1)
    ensures (j + 1) % |slots| != start ==>
              c + 1 < |slots| && (j + 1) % |slots| == ProbeIndex(Linear, start, 0, |slots|, c + 1)
  {
    WalkIteration(slots, key, invalidEndsSearch, Linear, start, 0, c);
    LinearAdvance(start, c, |slots|);
  }

  /**
   * One iteration of the quadratic loop at candidate c: it stops at the
   * candidate's index, or c was the last candidate and the walk reports
   * -1, or the walk goes on.
   */
  lemma QuadraticIteration<V>(slots: seq<Slot<V>>, key: Key, invalidEndsSearch: bool, start: nat, c: nat)
    requires start < |slots| && c < |slots|
    ensures var j := ProbeIndex(Quadratic, start, 0, |slots|, c);
      Walk(slots, key, invalidEndsSearch, Quadratic, start, 0, c)
      == if StopsSearch(slots[j], key, invalidEndsSearch) then ProbeOutcome(j, c + 1)
         else if c + 1 == |slots| then ProbeOutcome(-1, c + 1)
         else Walk(slots, key, invalidEndsSearch, Quadratic, start, 0, c + 1)
  {
    WalkIteration(slots, key, invalidEndsSearch, Quadratic, start, 0, c);
  }

  /** linearProbe: steps by one slot, wrapping around, until it is back at its start index. */
  method LinearProbe<V>(table: array<Slot<V>>, secondary: HashAlgorithm, key: Key,
                        startIndex: nat, invalidEndsSearch: bool) returns (j: int, cost: nat)
    requires startIndex < table.Length
    ensures ProbeOutcome(j, cost) == Probe(Linear, secondary, table[..], key, startIndex, invalidEndsSearch)
  {
    var size := table.Length;
    ghost var slots := table[..];
    j := startIndex;
    cost := 0;
    while true
      invariant cost < size
      invariant j == ProbeIndex(Linear, startIndex, 0, size, cost)
      invariant Probe(Linear, secondary, slots, key, startIndex, invalidEndsSearch)
             == Walk(slots, key, invalidEndsSearch, Linear, startIndex, 0, cost)
      decreases size - cost
    {
      LinearIteration(slots, key, invalidEndsSearch, startIndex, cost, j);
      cost := cost + 1;
      if StopsSearch(table[j], key, invalidEndsSearch) {
        return;
      }
      j := (j + 1) % size;
      if j == startIndex {
        j := -1;
        return;
      }
    }
  }

  /** quadraticProbe: examines start + step * step modulo size for step = 0, 1, ..., size - 1. */
  method QuadraticProbe<V>(table: array<Slot<V>>, secondary: HashAlgorithm, key: Key,
                           startIndex: nat, invalidEndsSearch: bool) returns (j: int, cost: nat)
    requires startIndex < table.Length
    ensures ProbeOutcome(j, cost) == Probe(Quadratic, secondary, table[..], key, startIndex, invalidEndsSearch)
  {
    var size := table.Length;
    ghost var slots := table[..];
    var step := 0;
    j := startIndex;
    cost := 0;
    while true
      invariant step < size && cost == step
      invariant j == ProbeIndex(Quadratic, startIndex, 0, size, step)
      invariant Probe(Quadratic, secondary, slots, key, startIndex, invalidEndsSearch)
             == Walk(slots, key, invalidEndsSearch, Quadratic, startIndex, 0, step)
      decreases size - step
    {
      QuadraticIteration(slots, key, invalidEndsSearch, startIndex, step);
      cost := cost + 1;
      if StopsSearch(table[j], key, invalidEndsSearch) {
        return;
      }
      step := step + 1;
      j := (startIndex + step * step) % size;
      QuadraticIndexClosedForm(startIndex, size, step);
      if step == size {
        j := -1;
        return;
      }
    }
  }

  /**
   * doubleHashProbe: steps by the secondary hash of the key, wrapping
   * around, until it is back at its start index.
   */
  method DoubleHashProbe<V>(table: array<Slot<V>>, secondary: HashAlgorithm, key: Key,
                            startIndex: nat, invalidEndsSearch: bool) returns (j: int, cost: nat)
    requires startIndex < table.Length
    ensures ProbeOutcome(j, cost) == Probe(DoubleHash, secondary, table[..], key, startIndex, invalidEndsSearch)
  {
    var size := table.Length;
    ghost var slots := table[..];
    var step := ComputeHash(secondary, key, size);
    ghost var bound := ProbeBound(DoubleHash, startIndex, step, size);
    j := startIndex;
    cost := 0;
    while true
      invariant cost < bound
      invariant j == ProbeIndex(DoubleHash, startIndex, step, size, cost)
      invariant Probe(DoubleHash, secondary, slots, key, startIndex, invalidEndsSearch)
             == Walk(slots, key, invalidEndsSearch, DoubleHash, startIndex, step, cost)
      decreases bound - cost
    {
      WalkIteration(slots, key, invalidEndsSearch, DoubleHash, startIndex, step, cost);
      DoubleHashAdvance(startIndex, step, size, cost);
      cost := cost + 1;
      if StopsSearch(table[j], key, invalidEndsSearch) {
        return;
      }
      j := (j + step) % size;
      if j == startIndex {
        j := -1;
        return;
      }
    }
  }

  /** A walk from k reaches candidate m when m ends the search and no candidate from k on before it does. */
  lemma {:induction false} WalkReachesFirstStop<V>(slots: seq<Slot<V>>, key: Key, invalidEndsSearch: bool,
                                                    strategy: ProbeStrategy, start: nat, step: nat, k: nat, m: nat)
    requires start < |slots| && k <= m < ProbeBound(strategy, start, step, |slots|)
    requires StopsSearch(slots[ProbeIndex(strategy, start, step, |slots|, m)], key, invalidEndsSearch)
    requires forall i :: k <= i < m ==> !StopsSearch(slots[ProbeIndex(strategy, start, step, |slots|, i)], key, invalidEndsSearch)
    ensures Walk(slots, key, invalidEndsSearch, strategy, start, step, k)
            == ProbeOutcome(ProbeIndex(strategy, start, step, |slots|, m), m + 1)
    decreases m - k
  {
    if k < m {
      WalkReachesFirstStop(slots, key, invalidEndsSearch, strategy, start, step, k + 1, m);
    }
  }

  /** A walk from k that can reach a candidate m ending the search reports an index, at candidate m or before. */
  lemma {:induction false} WalkStopsNoLaterThan<V>(slots: seq<Slot<V>>, key: Key, invalidEndsSearch: bool,
                                                   strategy: ProbeStrategy, start: nat, step: nat, k: nat, m: nat)
    requires start < |slots| && k <= m < ProbeBound(strategy, start, step, |slots|)
    requires StopsSearch(slots[ProbeIndex(strategy, start, step, |slots|, m)], key, invalidEndsSearch)
    ensures var o := Walk(slots, key, invalidEndsSearch, strategy, start, step, k);
      o.index >= 0 && o.cost <= m + 1
    decreases m - k
  {
    if k < m && !StopsSearch(slots[ProbeIndex(strategy, start, step, |slots|, k)], key, invalidEndsSearch) {
      WalkStopsNoLaterThan(slots, key, invalidEndsSearch, strategy, start, step, k + 1, m);
    }
  }

  /** A walk depends on the slots only through their stopping test. */
  lemma {:induction false} WalkSameTests<V>(s1: seq<Slot<V>>, s2: seq<Slot<V>>, key: Key, invalidEndsSearch: bool,
                                            strategy: ProbeStrategy, start: nat, step: nat, k: nat)
    requires start < |s1| == |s2| && k <= ProbeBound(strategy, start, step, |s1|)
    requires forall i :: 0 <= i < |s1| ==> StopsSearch(s1[i], key, invalidEndsSearch) == StopsSearch(s2[i], key, invalidEndsSearch)
    ensures Walk(s1, key, invalidEndsSearch, strategy, start, step, k) == Walk(s2, key, invalidEndsSearch, strategy, start, step, k)
    decreases ProbeBound(strategy, start, step, |s1|) - k
  {
    if k < ProbeBound(strategy, start, step, |s1|) {
      WalkSameTests(s1, s2, key, invalidEndsSearch, strategy, start, step, k + 1);
    }
  }

  /** Two tables of the same size whose slots agree on the stopping test give the same probe outcome. */
  lemma ProbeSameTests<V>(strategy: ProbeStrategy, secondary: HashAlgorithm, s1: seq<Slot<V>>, s2: seq<Slot<V>>,
                          key: Key, start: nat, invalidEndsSearch: bool)
    requires start < |s1| == |s2|
    requires forall i :: 0 <= i < |s1| ==> StopsSearch(s1[i], key, invalidEndsSearch) == StopsSearch(s2[i], key, invalidEndsSearch)
    ensures Probe(strategy, secondary, s1, key, start, invalidEndsSearch) == Probe(strategy, secondary, s2, key, start, invalidEndsSearch)
  {
    WalkSameTests(s1, s2, key, invalidEndsSearch, strategy, start, StepSize(strategy, secondary, key, |s1|), 0);
  }

  /**
   * A probe reports the first candidate whose slot ends the search: if
   * candidate m ends it and none before does, the probe reports m's index
   * after examining m + 1 slots.
   */
  lemma ProbeFindsFirstStop<V>(strategy: ProbeStrategy, secondary: HashAlgorithm, slots: seq<Slot<V>>,
                               key: Key, start: nat, invalidEndsSearch: bool, m: nat)
    requires start < |slots|
    requires m < ProbeBound(strategy, start, StepSize(strategy, secondary, key, |slots|), |slots|)
    requires StopsSearch(slots[ProbeIndex(strategy, start, StepSize(strategy, secondary, key, |slots|), |slots|, m)],
                         key, invalidEndsSearch)
    requires forall i :: 0 <= i < m ==>
      !StopsSearch(slots[ProbeIndex(strategy, start, StepSize(strategy, secondary, key, |slots|), |slots|, i)],
                   key, invalidEndsSearch)
    ensures Probe(strategy, secondary, slots, key, start, invalidEndsSearch)
            == ProbeOutcome(ProbeIndex(strategy, start, StepSize(strategy, secondary, key, |slots|), |slots|, m), m + 1)
  {
    WalkReachesFirstStop(slots, key, invalidEndsSearch, strategy, start,
                         StepSize(strategy, secondary, key, |slots|), 0, m);
  }

  /** A probe for which candidate m ends the search reports an index, at candidate m or before. */
  lemma ProbeStopsNoLaterThan<V>(strategy: ProbeStrategy, secondary: HashAlgorithm, slots: seq<Slot<V>>,
                                 key: Key, start: nat, invalidEndsSearch: bool, m: nat)
    requires start < |slots|
    requires m < ProbeBound(strategy, start, StepSize(strategy, secondary, key, |slots|), |slots|)
    requires StopsSearch(slots[ProbeIndex(strategy, start, StepSize(strategy, secondary, key, |slots|), |slots|, m)],
                         key, invalidEndsSearch)
    ensures var o := Probe(strategy, secondary, slots, key, start, invalidEndsSearch);
      o.index >= 0 && o.cost <= m + 1
  {
    WalkStopsNoLaterThan(slots, key, invalidEndsSearch, strategy, start,
                         StepSize(strategy, secondary, key, |slots|), 0, m);
  }

  /**
   * The linear walk examines every slot: it reports -1 only when no slot
   * of the table ends the search (when inserting: every slot is Used by
   * another key).
   */
  lemma LinearProbeCoversTable<V>(secondary: HashAlgorithm, slots: seq<Slot<V>>, key: Key,
                                  start: nat, invalidEndsSearch: bool)
    requires start < |slots|
    requires Probe(Linear, secondary, slots, key, start, invalidEndsSearch).index == -1
    ensures forall i :: 0 <= i < |slots| ==> !StopsSearch(slots[i], key, invalidEndsSearch)
  {
    var size := |slots|;
    forall i | 0 <= i < size
      ensures !StopsSearch(slots[i], key, invalidEndsSearch)
    {
      var k := if i >= start then i - start else i + size - start;
      if i >= start {
        ModUnique(start + k, size, 0, i);
      } else {
        ModUnique(start + k, size, 1, i);
      }
      StepIndexClosedForm(start, 1, size, k);
      assert ProbeIndex(Linear, start, 0, size, k) == i;
    }
  }

  /**
   * A secondary hash of 0 makes the double-hash walk come back to its start
   * index at once: the probe examines exactly the start slot and reports
   * it or -1, so it cannot loop.
   */
  lemma DoubleHashZeroStep<V>(secondary: HashAlgorithm, slots: seq<Slot<V>>, key: Key,
                              start: nat, invalidEndsSearch: bool)
    requires start < |slots|
    requires Hash(secondary, key, |slots|) == 0
    ensures var o := Probe(DoubleHash, secondary, slots, key, start, invalidEndsSearch);
      o.cost == 1 && o.index == (if StopsSearch(slots[start], key, invalidEndsSearch) then start else -1)
  {
    var size := |slots|;
    ModUnique(start, size, 0, start);
    assert StepIndex(start, 0, size, 1) == start;
    assert ProbeBound(DoubleHash, start, 0, size) == 1;
    assert ProbeIndex(DoubleHash, start, 0, size, 0) == start;
  }

  /**
   * The quadratic walk's bound does not mean the table is full: in a
   * table of 5 slots with slots 2 and 3 Empty, a walk from 0 examines only
   * slots 0, 1 and 4 (0, 1, 4, 9 and 16 modulo 5) and reports -1.
   */
  lemma QuadraticCanMissFreeSlots()
    ensures var slots: seq<Slot<int>> := [Used([1], 10), Used([2], 20), Empty, Empty, Used([3], 30)];
      Probe(Quadratic, BySum, slots, [9], 0, true) == ProbeOutcome(-1, 5)
  {
    var slots: seq<Slot<int>> := [Used([1], 10), Used([2], 20), Empty, Empty, Used([3], 30)];
    assert ProbeIndex(Quadratic, 0, 0, 5, 3) == 4;
    assert ProbeIndex(Quadratic, 0, 0, 5, 4) == 1;
    WalkIteration(slots, [9], true, Quadratic, 0, 0, 0);
    WalkIteration(slots, [9], true, Quadratic, 0, 0, 1);
    WalkIteration(slots, [9], true, Quadratic, 0, 0, 2);
    WalkIteration(slots, [9], true, Quadratic, 0, 0, 3);
    WalkIteration(slots, [9], true, Quadratic, 0, 0, 4);
  }

  /** A call through a table's probe pointer. */
  method RunProbe<V>(strategy: ProbeStrategy, secondary: HashAlgorithm, table: array<Slot<V>>, key: Key,
                     startIndex: nat, invalidEndsSearch: bool) returns (j: int, cost: nat)
    requires startIndex < table.Length
    ensures j == -1 || 0 <= j < table.Length
    ensures ProbeOutcome(j, cost) == Probe(strategy, secondary, table[..], key, startIndex, invalidEndsSearch)
  {
    match strategy
    case Linear => j, cost := LinearProbe(table, secondary, key, startIndex, invalidEndsSearch);
    case Quadratic => j, cost := QuadraticProbe(table, secondary, key, startIndex, invalidEndsSearch);
    case DoubleHash => j, cost := DoubleHashProbe(table, secondary, key, startIndex, invalidEndsSearch);
  }
}
