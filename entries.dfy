/** The stored entry of the engine (include/map.h, rs_keyval) and the
    value-ownership convention of src/map.c. */
module Entries {
  import opened CdbHash

  /** A caller's pointer, known only by its identity; `Null` is NULL. */
  datatype Ptr = Null | Addr(id: nat)

  /** A non-NULL pointer to a byte buffer whose contents are copied, so that
      its identity plays no role: the adapters' local big-endian buffer and,
      during growth, the map's own copy of an owned value. */
  const Buffer: Ptr := Addr(0)

  /** A stored value: either the map's own copy of the caller's bytes, or the
      caller's pointer itself, kept without copying or taking ownership. */
  datatype Value = Owned(bytes: seq<byte>) | Borrowed(ptr: Ptr)

  /** rs_keyval: the key (its length is key_len), the value and val_len. */
  datatype Entry = Entry(key: Key, value: Value, vlen: nat)

  /** The value the engine stores for a call with pointer `v` and the `vlen`
      bytes `data` found there: a copy when vlen > 0, else the pointer. */
  function Store(v: Ptr, data: seq<byte>): Value
  {
    if |data| > 0 then Owned(data) else Borrowed(v)
  }

  /** The entry an insert or an update writes. It obeys the ownership
      convention, and reading it back as growth does gives the caller's
      bytes and, for a borrowed value, the caller's pointer; together these
      determine the entry. */
  function MakeEntry(k: Key, v: Ptr, data: seq<byte>): (e: Entry)
    ensures e.key == k && WellFormed(e)
    ensures ReinsertData(e) == data
    ensures |data| == 0 ==> ReinsertPtr(e) == v
  {
    Entry(k, Store(v, data), |data|)
  }

  /** The ownership convention: val_len is the length of an owned copy, and
      val_len == 0 exactly when the value is a borrowed pointer. */
  predicate WellFormed(e: Entry) {
    match e.value
    case Owned(bytes) => e.vlen == |bytes| && e.vlen > 0
    case Borrowed(_) => e.vlen == 0
  }

  /** The pointer the engine passes back in when it re-inserts an entry
      during growth: kv->value, the map's copy for an owned value. */
  function ReinsertPtr(e: Entry): Ptr {
    match e.value
    case Owned(_) => Buffer
    case Borrowed(p) => p
  }

  /** The bytes found behind that pointer, kv->val_len of them. */
  function ReinsertData(e: Entry): seq<byte> {
    match e.value
    case Owned(bytes) => bytes
    case Borrowed(_) => []
  }

  /** Re-inserting an entry with its own pointer and length writes the same
      entry back, so growth moves entries without altering them. */
  lemma ReinsertRebuilds(e: Entry)
    requires WellFormed(e)
    ensures MakeEntry(e.key, ReinsertPtr(e), ReinsertData(e)) == e
  {
  }
}
