/** The meaning of the engine's operations on the abstract contents of a
    map: a finite map from keys to the entries stored under them. The
    class in module Engine is proved to implement exactly these. */
module Dictionary {
  import opened CdbHash
  import opened Entries

  type Dict = map<Key, Entry>

  /** Every entry is filed under its own key and obeys the ownership
      convention. */
  ghost predicate Keyed(m: Dict) {
    forall k :: k in m ==> m[k].key == k && WellFormed(m[k])
  }

  /** The result of map_select: the return code and the two out-parameters,
      which keep the caller's values `v0`, `vlen0` when nothing is found. */
  datatype Selected = Selected(ret: int, value: Value, vlen: nat)

  function Select(m: Dict, k: Key, v0: Value, vlen0: nat): Selected
  {
    if k in m then Selected(0, m[k].value, m[k].vlen) else Selected(-1, v0, vlen0)
  }

  /** A strict insert: refused for a NULL pointer with vlen 0 and for a key
      already present, in both cases without any change. */
  function Insert(m: Dict, k: Key, v: Ptr, data: seq<byte>): (int, Dict)
  {
    if (v == Null && |data| == 0) || k in m then (-1, m)
    else (0, m[k := MakeEntry(k, v, data)])
  }

  /** An update may not switch a key between an owned value (vlen > 0) and
      a borrowed one (vlen == 0). */
  predicate ModeMismatch(oldLen: nat, newLen: nat) {
    (oldLen != 0 && newLen == 0) || (oldLen == 0 && newLen != 0)
  }

  /** An update replaces the value of a present key (with no NULL check) and
      falls back to Insert for an absent one. */
  function Update(m: Dict, k: Key, v: Ptr, data: seq<byte>): (int, Dict)
  {
    if k in m then
      if ModeMismatch(m[k].vlen, |data|) then (-1, m)
      else (0, m[k := MakeEntry(k, v, data)])
    else Insert(m, k, v, data)
  }

  function Delete(m: Dict, k: Key): (int, Dict)
  {
    if k in m then (0, m - {k}) else (-1, m)
  }

  /** Whether some key holds a borrowed NULL pointer (possible only through
      Update); re-inserting such an entry fails the NULL check of insert. */
  ghost predicate HasNullBorrow(m: Dict) {
    exists k :: k in m && m[k].value == Borrowed(Null)
  }

  // Properties of the operations, relating several calls.

  /** The operations keep every entry filed under its key and well formed. */
  lemma OperationsKeepKeyed(m: Dict, k: Key, v: Ptr, data: seq<byte>)
    requires Keyed(m)
    ensures Keyed(Insert(m, k, v, data).1)
    ensures Keyed(Update(m, k, v, data).1)
    ensures Keyed(Delete(m, k).1)
  {
  }

  /** A successful insert adds exactly one key; a successful delete removes
      exactly one; an update of a present key keeps the number of keys. */
  lemma {:induction false} CardinalityChanges(m: Dict, k: Key, v: Ptr, data: seq<byte>)
    ensures Insert(m, k, v, data).0 == 0 ==> |Insert(m, k, v, data).1| == |m| + 1
    ensures Delete(m, k).0 == 0 ==> |Delete(m, k).1| == |m| - 1
    ensures k in m ==> |Update(m, k, v, data).1| == |m|
  {
    if k in m {
      assert m.Keys == (m - {k}).Keys + {k};
      assert m[k := MakeEntry(k, v, data)].Keys == m.Keys;
    }
  }

  /** Round trip: after a successful insert, select finds exactly the bytes
      and length given (any bytes, zeros included), or the borrowed pointer. */
  lemma InsertThenSelect(m: Dict, k: Key, v: Ptr, data: seq<byte>, v0: Value, vlen0: nat)
    requires Insert(m, k, v, data).0 == 0
    ensures Select(Insert(m, k, v, data).1, k, v0, vlen0) == Selected(0, Store(v, data), |data|)
  {
  }

  /** After a delete the key is gone, and a second delete reports -1 without
      any change. */
  lemma DeleteTwice(m: Dict, k: Key, v0: Value, vlen0: nat)
    ensures Select(Delete(m, k).1, k, v0, vlen0).ret == -1
    ensures Delete(Delete(m, k).1, k) == (-1, Delete(m, k).1)
  {
  }

  /** Update acts as upsert: on an absent key it is Insert, so a later select
      finds what was given. */
  lemma UpdateAbsentIsInsert(m: Dict, k: Key, v: Ptr, data: seq<byte>, v0: Value, vlen0: nat)
    requires k !in m && !(v == Null && data == [])
    ensures Update(m, k, v, data) == Insert(m, k, v, data)
    ensures Update(m, k, v, data).0 == 0
    ensures Select(Update(m, k, v, data).1, k, v0, vlen0) == Selected(0, Store(v, data), |data|)
  {
  }

  /** An update leaves every other key as it was. */
  lemma UpdateLeavesOthers(m: Dict, k: Key, v: Ptr, data: seq<byte>, k': Key)
    requires k' != k
    ensures k' in Update(m, k, v, data).1 <==> k' in m
    ensures k' in m ==> Update(m, k, v, data).1[k'] == m[k']
  {
  }
}
