/** The values of the keyspace (server/MRD_server.h:29-60). */
module Entries {
  import opened Bytes
  import opened Hash
  import opened ZSets

  /** The entry's variant; which alternative it holds is the entry's type tag. */
  datatype Value = StrValue(s: Str) | SetValue(z: ZSet)

  /** `heap_idx` of an entry without a deadline: the all-ones index, larger than any position. */
  const NO_SLOT := -1

  class Entry {
    const key: Str
    const hcode: nat
    var val: Value
    /** The position of the entry's item in the deadline heap, written by the heap itself. */
    var heap_idx: int

    constructor (key: Str, val: Value)
      ensures this.key == key && this.val == val && hcode == HashOf(key) && heap_idx == NO_SLOT
    {
      this.key, this.val, hcode, heap_idx := key, val, HashOf(key), NO_SLOT;
    }
  }
}
