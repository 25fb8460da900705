/**
 * Key comparison and the hash algorithms of the library: every hash
 * maps a key into [0, size) for a table of the given size.
 */
module HashFunctions {
  import opened Types
  import opened Arith

  /** True when the keys agree on every byte from position i up to len (memcmp(...) == 0). */
  function BytesMatchFrom(key1: Key, key2: Key, i: nat, len: nat): (same: bool)
    requires i <= len <= |key1| && len <= |key2|
    ensures same <==> forall j :: i <= j < len ==> key1[j] == key2[j]
    decreases len - i
  {
    i == len || (key1[i] == key2[i] && BytesMatchFrom(key1, key2, i + 1, len))
  }

  /**
   * doKeysMatch: keys of different lengths never match; keys of the same
   * length match when their bytes agree one by one.
   */
  function KeysMatch(key1: Key, key2: Key): (r: bool)
    ensures |key1| != |key2| ==> !r
    ensures r <==> key1 == key2
  {
    if |key1| != |key2| then false else BytesMatchFrom(key1, key2, 0, |key1|)
  }

  /** The hash algorithms a table can be configured with. */
  datatype HashAlgorithm = BySum | ByLength | ByPrime

  /** hashByLength: the key's length reduced into the table. */
  function HashByLength(key: Key, size: nat): (h: nat)
    requires size > 0
    ensures h < size
    ensures |key| < size ==> h == |key|
  {
    |key| % size
  }

  /** The plain sum of the key's bytes, added left to right. */
  function ByteSum(key: Key): nat
  {
    if key == [] then 0 else ByteSum(key[..|key| - 1]) + key[|key| - 1]
  }

  /**
   * hashBySum: adds the bytes left to right, reducing the running sum
   * after every byte so that it never leaves [0, size); the result is
   * the byte sum reduced once at the end.
   */
  method HashBySum(key: Key, size: nat) returns (sum: nat)
    requires size > 0
    ensures sum < size
    ensures sum == ByteSum(key) % size
  {
    sum := 0;
    for i := 0 to |key|
      invariant sum < size
      invariant sum == ByteSum(key[..i]) % size
    {
      assert key[..i + 1][..i] == key[..i];
      ModAddLeft(ByteSum(key[..i]), key[i], size);
      sum := (sum + key[i]) % size;
    }
    assert key[..|key|] == key;
  }

  /**
   * hashByPrime: its formula is not part of these files. This model fixes
   * a polynomial rolling hash with the prime multiplier 31 and relies
   * only on its range.
   */
  function HashByPrime(key: Key, size: nat): (h: nat)
    requires size > 0
    ensures h < size
  {
    if key == [] then 0 else (HashByPrime(key[..|key| - 1], size) * 31 + key[|key| - 1]) % size
  }

  /** The value of the configured hash algorithm for a key. */
  function Hash(algorithm: HashAlgorithm, key: Key, size: nat): (h: nat)
    requires size > 0
    ensures h < size
  {
    match algorithm
    case BySum => ByteSum(key) % size
    case ByLength => HashByLength(key, size)
    case ByPrime => HashByPrime(key, size)
  }

  /** A call through a table's hash algorithm pointer. */
  method ComputeHash(algorithm: HashAlgorithm, key: Key, size: nat) returns (h: nat)
    requires size > 0
    ensures h < size
    ensures h == Hash(algorithm, key, size)
  {
    match algorithm
    case BySum => h := HashBySum(key, size);
    case ByLength => h := HashByLength(key, size);
    case ByPrime => h := HashByPrime(key, size);
  }
}
