/** The integer adapters of src/misc.c. A 64-bit key is stored under its
    8-byte big-endian encoding (klen 8); a 64-bit value is handed to the
    engine as an 8-byte big-endian buffer (vlen 8), so the engine keeps its
    own copy of it. Three families: `uv` (integer key, caller's value),
    `vu` (caller's key, integer value) and `uu` (both integers). */
module IntAdapters {
  import opened CdbHash
  import opened Entries
  import opened Dictionary
  import opened BigEndian
  import opened Engine

  /** The outcome of map_vu_select and map_uu_select: the return code and
      the integer written through `v`, which keeps the caller's value `v0`
      when nothing is written. */
  datatype IntSelected = IntSelected(ret: int, v: u64)

  /** map_vu_select on contents `m`: -1 when the key is absent; 0 with the
      decoded value when the key holds exactly 8 bytes; and 0 with `*v` left
      unwritten when the key holds anything else (a borrowed pointer, or a
      copy of another length), which the caller cannot tell from a hit. */
  function SelectInt(m: Dict, k: Key, v0: u64): (r: IntSelected)
    requires Keyed(m)
    ensures r.ret == -1 <==> k !in m
    ensures r.ret == 0 <==> k in m
    ensures (k !in m || m[k].vlen != 8) ==> r.v == v0
    ensures k in m && m[k].vlen == 8 ==> m[k].value == Owned(Encode(r.v))
  {
    // The engine's out-parameters start out as the C locals do; they are
    // read only after a hit has written them.
    var s := Dictionary.Select(m, k, Borrowed(Null), 0);
    if s.ret != 0 || s.vlen != 8 then IntSelected(s.ret, v0)
    else IntSelected(0, Decode(s.value.bytes))
  }

  // map_uv_*: the key is htobe64(k), the value is passed through.

  /** map_uv_select: exactly map_select under the encoded key. */
  method UvSelect(m: HashMap, k: u64, v0: Value, vlen0: nat) returns (ret: int, v: Value, vlen: nat)
    requires m.Valid()
    ensures Selected(ret, v, vlen) == Dictionary.Select(m.Contents, Encode(k), v0, vlen0)
  {
    ret, v, vlen := m.Select(Encode(k), v0, vlen0);
  }

  /** map_uv_insert: map_insert under the encoded key. */
  method UvInsert(m: HashMap, k: u64, v: Ptr, data: seq<byte>) returns (ret: int)
    requires m.Valid()
    modifies m, m.table
    ensures m.Valid()
    ensures m.InsertOutcome(Encode(k), v, data, true, ret)
  {
    ret := m.Insert(Encode(k), v, data);
  }

  /** map_uv_update: map_update under the encoded key. */
  method UvUpdate(m: HashMap, k: u64, v: Ptr, data: seq<byte>) returns (ret: int)
    requires m.Valid()
    modifies m, m.table
    ensures m.Valid()
    ensures m.UpdateOutcome(Encode(k), v, data, ret)
  {
    ret := m.Update(Encode(k), v, data);
  }

  /** map_uv_delete: map_delete under the encoded key. */
  method UvDelete(m: HashMap, k: u64) returns (ret: int)
    requires m.Valid()
    modifies m, m.table
    ensures m.Valid()
    ensures m.DeleteOutcome(Encode(k), ret)
  {
    ret := m.Delete(Encode(k));
  }

  // map_vu_*: the key is the caller's bytes, the value is htobe64(v).

  /** map_vu_select: map_select, then decode the value when it is 8 bytes
      long. */
  method VuSelect(m: HashMap, k: Key, v0: u64) returns (ret: int, v: u64)
    requires m.Valid()
    ensures IntSelected(ret, v) == SelectInt(m.Contents, k, v0)
  {
    var r, val, vlen := m.Select(k, Borrowed(Null), 0);
    if r != 0 || vlen != 8 {
      return r, v0;
    }
    return 0, Decode(val.bytes);
  }

  /** map_vu_insert: map_insert of the 8-byte encoding of `v`. */
  method VuInsert(m: HashMap, k: Key, v: u64) returns (ret: int)
    requires m.Valid()
    modifies m, m.table
    ensures m.Valid()
    ensures m.InsertOutcome(k, Buffer, Encode(v), true, ret)
  {
    ret := m.Insert(k, Buffer, Encode(v));
  }

  /** map_vu_update: map_update with the 8-byte encoding of `v`. */
  method VuUpdate(m: HashMap, k: Key, v: u64) returns (ret: int)
    requires m.Valid()
    modifies m, m.table
    ensures m.Valid()
    ensures m.UpdateOutcome(k, Buffer, Encode(v), ret)
  {
    ret := m.Update(k, Buffer, Encode(v));
  }

  /** map_vu_delete: map_delete itself; no encoding is involved. */
  method VuDelete(m: HashMap, k: Key) returns (ret: int)
    requires m.Valid()
    modifies m, m.table
    ensures m.Valid()
    ensures m.DeleteOutcome(k, ret)
  {
    ret := m.Delete(k);
  }

  // map_uu_*: both key and value are encoded.

  /** map_uu_select: map_vu_select under the encoded key. */
  method UuSelect(m: HashMap, k: u64, v0: u64) returns (ret: int, v: u64)
    requires m.Valid()
    ensures IntSelected(ret, v) == SelectInt(m.Contents, Encode(k), v0)
  {
    var r, val, vlen := m.Select(Encode(k), Borrowed(Null), 0);
    if r != 0 || vlen != 8 {
      return r, v0;
    }
    return 0, Decode(val.bytes);
  }

  /** map_uu_insert: map_insert of both encodings. */
  method UuInsert(m: HashMap, k: u64, v: u64) returns (ret: int)
    requires m.Valid()
    modifies m, m.table
    ensures m.Valid()
    ensures m.InsertOutcome(Encode(k), Buffer, Encode(v), true, ret)
  {
    ret := m.Insert(Encode(k), Buffer, Encode(v));
  }

  /** map_uu_update: map_update with both encodings. */
  method UuUpdate(m: HashMap, k: u64, v: u64) returns (ret: int)
    requires m.Valid()
    modifies m, m.table
    ensures m.Valid()
    ensures m.UpdateOutcome(Encode(k), Buffer, Encode(v), ret)
  {
    ret := m.Update(Encode(k), Buffer, Encode(v));
  }

  /** map_uu_delete: exactly map_uv_delete. */
  method UuDelete(m: HashMap, k: u64) returns (ret: int)
    requires m.Valid()
    modifies m, m.table
    ensures m.Valid()
    ensures m.DeleteOutcome(Encode(k), ret)
  {
    ret := UvDelete(m, k);
  }

  // Properties of the adapters over the abstract contents.

  /** An integer value is always handed over as 8 owned bytes, so the NULL
      check of insert never fires: an insert fails exactly when the key is
      already present. */
  lemma IntInsertFailsOnlyWhenPresent(m: Dict, k: Key, v: u64)
    ensures Insert(m, k, Buffer, Encode(v)).0 == -1 <==> k in m
    ensures k !in m ==> Insert(m, k, Buffer, Encode(v)).1 == m[k := Entry(k, Owned(Encode(v)), 8)]
  {
  }

  /** Round trip: after map_uu_insert (or map_vu_insert) succeeds, selecting
      the same key returns 0 and yields exactly the value inserted. */
  lemma IntInsertThenSelect(m: Dict, k: Key, v: u64, v0: u64)
    requires Keyed(m) && Insert(m, k, Buffer, Encode(v)).0 == 0
    ensures Keyed(Insert(m, k, Buffer, Encode(v)).1)
    ensures SelectInt(Insert(m, k, Buffer, Encode(v)).1, k, v0) == IntSelected(0, v)
  {
    OperationsKeepKeyed(m, k, Buffer, Encode(v));
    var r := SelectInt(Insert(m, k, Buffer, Encode(v)).1, k, v0);
    EncodeInjective(r.v, v);
  }

  /** The same round trip for an update that succeeds, on a present key or
      an absent one. */
  lemma IntUpdateThenSelect(m: Dict, k: Key, v: u64, v0: u64)
    requires Keyed(m) && Update(m, k, Buffer, Encode(v)).0 == 0
    ensures Keyed(Update(m, k, Buffer, Encode(v)).1)
    ensures SelectInt(Update(m, k, Buffer, Encode(v)).1, k, v0) == IntSelected(0, v)
  {
    OperationsKeepKeyed(m, k, Buffer, Encode(v));
    var r := SelectInt(Update(m, k, Buffer, Encode(v)).1, k, v0);
    EncodeInjective(r.v, v);
  }

  /** map_vu_update and map_uu_update always pass an owned 8-byte value,
      so the engine refuses them exactly on a key that holds a borrowed
      pointer (vlen 0); on any other key, present or absent, they succeed. */
  lemma IntUpdateRefusedOnBorrowed(m: Dict, k: Key, v: u64)
    requires Keyed(m)
    ensures Update(m, k, Buffer, Encode(v)).0 == -1 <==> k in m && m[k].vlen == 0
    ensures Update(m, k, Buffer, Encode(v)).0 == -1 ==> Update(m, k, Buffer, Encode(v)).1 == m
  {
  }

  /** A hit on a key that holds something other than 8 bytes reports 0 and
      leaves `*v` as it was, while only a missing key reports -1. */
  lemma IntSelectOnOtherLength(m: Dict, k: Key, v0: u64)
    requires Keyed(m) && k in m && m[k].vlen != 8
    ensures SelectInt(m, k, v0) == IntSelected(0, v0)
  {
  }

  /** After map_uu_delete (or map_uv_delete) the key is gone: a select
      reports -1 and a second delete reports -1 without any change. */
  lemma IntDeleteThenSelect(m: Dict, k: u64, v0: u64)
    requires Keyed(m)
    ensures Keyed(Delete(m, Encode(k)).1)
    ensures SelectInt(Delete(m, Encode(k)).1, Encode(k), v0) == IntSelected(-1, v0)
    ensures Delete(Delete(m, Encode(k)).1, Encode(k)) == (-1, Delete(m, Encode(k)).1)
  {
    OperationsKeepKeyed(m, Encode(k), Null, []);
  }

  /** Distinct integer keys are distinct engine keys: writing under one
      integer never changes what another integer key selects. */
  lemma IntKeysIndependent(m: Dict, a: u64, b: u64, v: Ptr, data: seq<byte>, v0: Value, vlen0: nat)
    requires a != b
    ensures Select(Insert(m, Encode(a), v, data).1, Encode(b), v0, vlen0) == Select(m, Encode(b), v0, vlen0)
    ensures Select(Update(m, Encode(a), v, data).1, Encode(b), v0, vlen0) == Select(m, Encode(b), v0, vlen0)
    ensures Select(Delete(m, Encode(a)).1, Encode(b), v0, vlen0) == Select(m, Encode(b), v0, vlen0)
  {
    EncodeInjective(a, b);
  }
}
