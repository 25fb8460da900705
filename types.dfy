/**
 * The record types the library shares between its hash functions
 * and its table engine: the key type, the slot record with its
 * three validity states, and an option type standing for a value
 * pointer that may be NULL.
 */
module Types {

  /** One unsigned key byte. */
  type Byte = b: int | 0 <= b < 256

  /**
   * A key is a length-tagged byte string: its bytes, with the length
   * being the length of the sequence. Keys may contain zero bytes.
   */
  type Key = seq<Byte>

  /** A value that may be absent (the NULL of a void * result). */
  datatype Option<T> = None | Some(value: T)

  /**
   * One slot of the table. A zero-filled slot is Empty and holds nothing;
   * a Used slot holds a copy of its key and the caller's value; a Deleted
   * slot (a tombstone) keeps the key and value it held when it was Used.
   */
  datatype Slot<V> = Empty | Used(key: Key, value: V) | Deleted(key: Key, value: V)
}
