/**
 * The associative array itself: strategy lookup by name, creation, and
 * insert, lookup, delete and iteration on an array of slots that the
 * operations update in place, with the entry count and the three probe
 * cost counters.
 */
module HashTable {
  import opened Types
  import opened HashFunctions
  import opened Probing
  import opened TableSpec

  /** strncmp(name, prefix, 3) == 0 for a three-character prefix: name starts with it. */
  predicate HasPrefix(name: string, prefix: string)
  {
    |name| >= |prefix| && name[..|prefix|] == prefix
  }

  /**
   * lookupNamedHashStrategy: "sum..." selects the byte sum, "len..." the
   * length, "pri..." the prime hash; any other name falls back to the sum.
   */
  function LookupNamedHashStrategy(name: string): (a: HashAlgorithm)
    ensures a == ByLength <==> !HasPrefix(name, "sum") && HasPrefix(name, "len")
    ensures a == ByPrime <==> !HasPrefix(name, "sum") && !HasPrefix(name, "len") && HasPrefix(name, "pri")
    ensures a == BySum <==> HasPrefix(name, "sum") || (!HasPrefix(name, "len") && !HasPrefix(name, "pri"))
  {
    if HasPrefix(name, "sum") then BySum
    else if HasPrefix(name, "len") then ByLength
    else if HasPrefix(name, "pri") then ByPrime
    else BySum
  }

  /**
   * lookupNamedProbingStrategy: "lin...", "qua..." and "dou..." select the
   * linear, quadratic and double-hash probes; anything else falls back to
   * linear probing.
   */
  function LookupNamedProbingStrategy(name: string): (p: ProbeStrategy)
    ensures p == Quadratic <==> !HasPrefix(name, "lin") && HasPrefix(name, "qua")
    ensures p == DoubleHash <==> !HasPrefix(name, "lin") && !HasPrefix(name, "qua") && HasPrefix(name, "dou")
    ensures p == Linear <==> HasPrefix(name, "lin") || (!HasPrefix(name, "qua") && !HasPrefix(name, "dou"))
  {
    if HasPrefix(name, "lin") then Linear
    else if HasPrefix(name, "qua") then Quadratic
    else if HasPrefix(name, "dou") then DoubleHash
    else Linear
  }

  /** A sample name for each hash algorithm; only its first three letters matter. */
  function HashName(a: HashAlgorithm): string
  {
    match a
    case BySum => "sum"
    case ByLength => "length"
    case ByPrime => "prime"
  }

  /** A sample name for each probing strategy; only its first three letters matter. */
  function ProbeName(p: ProbeStrategy): string
  {
    match p
    case Linear => "linear"
    case Quadratic => "quadratic"
    case DoubleHash => "double"
  }

  /** Every algorithm and strategy is selected by its name, and only the first three letters matter. */
  lemma NamesSelectStrategies(a: HashAlgorithm, p: ProbeStrategy, suffix: string)
    ensures LookupNamedHashStrategy(HashName(a)) == a
    ensures LookupNamedProbingStrategy(ProbeName(p)) == p
    ensures LookupNamedHashStrategy(HashName(a)[..3] + suffix) == a
    ensures LookupNamedProbingStrategy(ProbeName(p)[..3] + suffix) == p
  {
    var h, q := HashName(a)[..3] + suffix, ProbeName(p)[..3] + suffix;
    assert h[..3] == HashName(a)[..3] && q[..3] == ProbeName(p)[..3];
    match a {
      case BySum => assert h[..3] == "sum";
      case ByLength => assert h[..3] == "len";
      case ByPrime => assert h[..3] == "pri";
    }
    match p {
      case Linear => assert q[..3] == "lin";
      case Quadratic => assert q[..3] == "qua";
      case DoubleHash => assert q[..3] == "dou";
    }
  }

  /**
   * An open-addressing table of fixed size: the slot array, the strategies
   * chosen at creation, the number of live entries and the accumulated
   * probe costs of insertions, searches and deletions.
   */
  class AssociativeArray<V> {
    const size: nat
    const table: array<Slot<V>>
    const strategies: Strategies
    var nEntries: int
    var insertCost: nat
    var searchCost: nat
    var deleteCost: nat

    /** The array has the table's size, at least one slot, and nEntries counts its live slots. */
    ghost predicate Valid()
      reads this, table
    {
      table.Length == size && size >= 1 && nEntries == CountUsed(table[..])
    }

    /** A valid table never counts more entries than it has slots. */
    lemma EntriesWithinSize()
      requires Valid()
      ensures 0 <= nEntries <= size
    {
      CountUsedAtMostSize(table[..]);
    }

    /** A table of the given size with every slot empty and all counters zero. */
    constructor(size: nat, strategies: Strategies)
      requires size >= 1
      ensures Valid() && fresh(table)
      ensures this.size == size && this.strategies == strategies
      ensures table[..] == seq(size, _ => Empty)
      ensures nEntries == 0 && insertCost == 0 && searchCost == 0 && deleteCost == 0
    {
      this.size := size;
      this.strategies := strategies;
      table := new Slot<V>[size](_ => Empty);
      nEntries := 0;
      insertCost, searchCost, deleteCost := 0, 0, 0;
      new;
      EmptyCount(table[..]);
    }

    /**
     * aaInsert: probe from the key's primary hash in insert mode, adding
     * the slots examined to insertCost; store the entry where the probe
     * stopped unless it found no place or a live entry there.
     */
    method Insert(key: Key, value: V) returns (index: int)
      requires Valid()
      modifies this, table
      ensures Valid()
      ensures var r := InsertResult(strategies, old(table[..]), key, value);
        index == r.index && table[..] == r.slots && insertCost == old(insertCost) + r.cost
      ensures nEntries == old(nEntries) + (if index >= 0 then 1 else 0)
      ensures searchCost == old(searchCost) && deleteCost == old(deleteCost)
      ensures old(Findable(strategies, table[..]) && LookupResult(strategies, table[..], key).value.None?)
              ==> Findable(strategies, table[..])
    {
      ghost var before := table[..];
      var start := ComputeHash(strategies.primary, key, size);
      var j, cost := RunProbe(strategies.probe, strategies.secondary, table, key, start, true);
      insertCost := insertCost + cost;
      if j < 0 || table[j].Used? {
        index := -1;
      } else {
        CountUsedUpdate(table[..], j, Used(key, value));
        table[j] := Used(key, value);
        nEntries := nEntries + 1;
        index := j;
      }
      if Findable(strategies, before) && LookupResult(strategies, before, key).value.None? {
        InsertAbsentKeepsFindable(strategies, before, key, value);
      }
    }

    /**
     * The insert with the duplicate check: a lookup first, counted in
     * searchCost, and the insert only when the key is not found. It keeps
     * every live entry findable.
     */
    method InsertUnique(key: Key, value: V) returns (index: int)
      requires Valid()
      modifies this, table
      ensures Valid()
      ensures var r := InsertChecked(strategies, old(table[..]), key, value);
        index == r.index && table[..] == r.slots && insertCost == old(insertCost) + r.cost
      ensures searchCost == old(searchCost) + LookupResult(strategies, old(table[..]), key).cost
      ensures nEntries == old(nEntries) + (if index >= 0 then 1 else 0)
      ensures deleteCost == old(deleteCost)
      ensures old(Findable(strategies, table[..])) ==> Findable(strategies, table[..])
    {
      ghost var before := table[..];
      var found := Lookup(key);
      if found.Some? {
        index := -1;
      } else {
        index := Insert(key, value);
      }
      if Findable(strategies, before) {
        InsertCheckedKeepsFindable(strategies, before, key, value);
      }
    }

    /**
     * aaLookup: probe from the key's primary hash in lookup mode, adding
     * the slots examined to searchCost; report the value of the live entry
     * with the key where the probe stopped, if there is one.
     */
    method Lookup(key: Key) returns (value: Option<V>)
      requires Valid()
      modifies this
      ensures Valid()
      ensures var r := LookupResult(strategies, table[..], key);
        value == r.value && searchCost == old(searchCost) + r.cost
      ensures nEntries == old(nEntries) && insertCost == old(insertCost) && deleteCost == old(deleteCost)
    {
      var start := ComputeHash(strategies.primary, key, size);
      var j, cost := RunProbe(strategies.probe, strategies.secondary, table, key, start, false);
      searchCost := searchCost + cost;
      if j >= 0 && table[j].Used? && KeysMatch(table[j].key, key) {
        value := Some(table[j].value);
      } else {
        value := None;
      }
    }

    /**
     * aaDelete: probe as lookup does, adding the slots examined to
     * deleteCost; turn the live entry with the key into a tombstone that
     * keeps key and value, and report the value.
     */
    method Delete(key: Key) returns (value: Option<V>)
      requires Valid()
      modifies this, table
      ensures Valid()
      ensures var r := DeleteResult(strategies, old(table[..]), key);
        value == r.value && table[..] == r.slots && deleteCost == old(deleteCost) + r.cost
      ensures nEntries == old(nEntries) - (if value.Some? then 1 else 0)
      ensures insertCost == old(insertCost) && searchCost == old(searchCost)
      ensures old(Findable(strategies, table[..])) ==> Findable(strategies, table[..])
    {
      ghost var before := table[..];
      var start := ComputeHash(strategies.primary, key, size);
      var j, cost := RunProbe(strategies.probe, strategies.secondary, table, key, start, false);
      deleteCost := deleteCost + cost;
      if j >= 0 && table[j].Used? && KeysMatch(table[j].key, key) {
        var slot := table[j];
        CountUsedUpdate(table[..], j, Deleted(slot.key, slot.value));
        table[j] := Deleted(slot.key, slot.value);
        nEntries := nEntries - 1;
        value := Some(slot.value);
      } else {
        value := None;
      }
      if Findable(strategies, before) {
        DeleteKeepsFindable(strategies, before, key);
      }
    }

    /**
     * aaIterateAction: call the action on every live entry in slot order,
     * passing the user data along; return -1 at the first call that reports
     * a negative status, 1 after the last.
     */
    method IterateAction<U>(action: (Key, V, U) -> (int, U), userdata: U) returns (status: int, data: U)
      requires Valid()
      ensures (status, data) == IterateResult(table[..], action, userdata)
    {
      data := userdata;
      var i := 0;
      while i < size
        invariant 0 <= i <= size
        invariant IterateResult(table[..], action, userdata) == Fold(UsedEntries(table[i..]), action, data)
      {
        assert table[i..][1..] == table[i + 1..];
        if table[i].Used? {
          var result := action(table[i].key, table[i].value, data);
          data := result.1;
          if result.0 < 0 {
            return -1, data;
          }
        }
        i := i + 1;
      }
      status := 1;
    }
  }

  /**
   * aaCreateAssociativeArray: the strategies are looked up by name, the
   * size is rounded up by the given largerPrime; no table is made when
   * that size is below 1, otherwise a table with every slot empty and all
   * counters zero.
   */
  method CreateAssociativeArray<V>(size: nat, largerPrime: nat -> int, probingStrategy: string,
                                   hashPrimary: string, hashSecondary: string)
    returns (aa: AssociativeArray?<V>)
    ensures aa == null <==> largerPrime(size) < 1
    ensures aa != null ==>
      && fresh(aa) && fresh(aa.table) && aa.Valid()
      && aa.size == largerPrime(size)
      && aa.strategies == Strategies(LookupNamedHashStrategy(hashPrimary), LookupNamedHashStrategy(hashSecondary),
                                     LookupNamedProbingStrategy(probingStrategy))
      && aa.table[..] == seq(aa.size, _ => Empty)
      && aa.nEntries == 0 && aa.insertCost == 0 && aa.searchCost == 0 && aa.deleteCost == 0
  {
    var st := Strategies(LookupNamedHashStrategy(hashPrimary), LookupNamedHashStrategy(hashSecondary),
                         LookupNamedProbingStrategy(probingStrategy));
    var n := largerPrime(size);
    if n < 1 {
      return null;
    }
    aa := new AssociativeArray(n, st);
  }
}
