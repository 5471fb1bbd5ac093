/** The hash-map engine of src/map.c: a table of buckets chosen by the cdb
    hash modulo a prime size, strict insert, update that falls back to
    insert, order-keeping delete, ordered traversal with early stop, and
    growth along the prime ladder once count reaches size. */
module Engine {
  import opened CdbHash
  import opened Ladder
  import opened Entries
  import opened Dictionary
  import opened Buckets

  /** Growth fires when the load factor reaches 1 (count >= size) and the
      ladder has a larger tier left. */
  predicate GrowthDue(count: nat, size: nat, index: nat) {
    count >= size && index < LastTier
  }

  /** The engine's invariant on a table value: size is the tier's prime,
      there are that many buckets, the table keeps TableOk, and count is
      both the sum of the bucket counts and the number of keys. */
  ghost predicate Consistent(index: nat, size: nat, count: nat, t: Table, m: Dict) {
    && index <= LastTier
    && size == Primes[index]
    && |t| == size
    && TableOk(t, m)
    && count == SumLens(t)
    && count == |m|
  }

  /** Appending a new key's entry to its bucket and counting it keeps the
      invariant. */
  lemma AppendStep(index: nat, size: nat, count: nat, t: Table, m: Dict, e: Entry)
    requires Consistent(index, size, count, t, m) && e.key !in m && WellFormed(e)
    ensures var b := BucketOf(e.key, size);
      Consistent(index, size, count + 1, t[b := t[b] + [e]], m[e.key := e])
  {
    var b := BucketOf(e.key, size);
    AppendKeepsTable(t, m, e);
    SumLensUpdate(t, b, t[b] + [e]);
    assert |m[e.key := e]| == |m| + 1;
  }

  /** Replacing the entry at position j of bucket b by one with the same key
      keeps the invariant. */
  lemma ReplaceStep(index: nat, size: nat, count: nat, t: Table, m: Dict, b: nat, j: nat, e: Entry)
    requires Consistent(index, size, count, t, m)
    requires b < |t| && j < |t[b]| && t[b][j].key == e.key && WellFormed(e)
    ensures Consistent(index, size, count, t[b := t[b][j := e]], m[e.key := e])
  {
    ReplaceKeepsTable(t, m, b, j, e);
    SumLensUpdate(t, b, t[b][j := e]);
    assert m[e.key := e].Keys == m.Keys;
  }

  /** Removing the entry at position j of bucket b, closing the gap, and
      counting one fewer keeps the invariant. */
  lemma RemoveStep(index: nat, size: nat, count: nat, t: Table, m: Dict, b: nat, j: nat)
    requires Consistent(index, size, count, t, m)
    requires b < |t| && j < |t[b]|
    ensures count > 0
    ensures Consistent(index, size, count - 1, t[b := t[b][..j] + t[b][j + 1..]], m - {t[b][j].key})
  {
    var k := t[b][j].key;
    RemoveKeepsTable(t, m, b, j);
    SumLensUpdate(t, b, t[b][..j] + t[b][j + 1..]);
    assert m.Keys == (m - {k}).Keys + {k};
  }

  /** Re-inserting the next entry of the old table into the map being grown
      is refused exactly when that entry holds a borrowed NULL; otherwise it
      moves that entry. */
  lemma ReinsertStep(t: Table, m: Dict, i: nat, j: nat)
    requires TableOk(t, m) && i < |t| && j < |t[i]| && !HasNullBorrow(Moved(m, t, i, j))
    ensures var e := t[i][j];
      Dictionary.Insert(Moved(m, t, i, j), e.key, ReinsertPtr(e), ReinsertData(e)) ==
        if e.value == Borrowed(Null) then (-1, Moved(m, t, i, j)) else (0, Moved(m, t, i, j + 1))
    ensures t[i][j].value == Borrowed(Null) ==> HasNullBorrow(m)
    ensures t[i][j].value != Borrowed(Null) ==> !HasNullBorrow(Moved(m, t, i, j + 1))
  {
    var e := t[i][j];
    MovedNextEntry(t, m, i, j);
    ReinsertRebuilds(e);
  }

  /** The scan every operation makes of one bucket: the position of the
      entry whose key equals `k` (same length, same bytes), or -1. */
  method Scan(b: seq<Entry>, k: Key) returns (j: int)
    ensures -1 <= j < |b|
    ensures j >= 0 ==> b[j].key == k
    ensures j < 0 <==> !HasKey(b, k)
  {
    j := 0;
    while j < |b|
      invariant 0 <= j <= |b|
      invariant forall x :: 0 <= x < j ==> b[x].key != k
    {
      if b[j].key == k {
        return j;
      }
      j := j + 1;
    }
    return -1;
  }

  /** MAP: the tier index, the bucket count `size`, the entry count and the
      bucket table. `Contents` is the abstract dictionary the table holds. */
  class HashMap {
    var index: nat
    var size: nat
    var count: nat
    var table: array<seq<Entry>>
    ghost var Contents: Dict

    /** The object invariant: size is the tier's prime, the table has that
        many buckets and keeps TableOk, and count is both the sum of the
        bucket counts and the number of keys. */
    ghost predicate Valid()
      reads this, table
    {
      Consistent(index, size, count, table[..], Contents)
    }

    /** map_new: a map at the clamped tier, every bucket empty. */
    constructor (tier: int32)
      ensures Valid() && fresh(table)
      ensures index == ClampTier(tier) && size == Primes[index]
      ensures count == 0 && Contents == map[]
      ensures forall i :: 0 <= i < table.Length ==> table[i] == []
    {
      var t := ClampTier(tier);
      TierSizePositive(t);
      index := t;
      size := Primes[t];
      count := 0;
      var a := new seq<Entry>[Primes[t]](_ => []);
      SumLensEmpty(a[..]);
      table := a;
      Contents := map[];
    }

    /** map_select: a linear scan of the key's bucket. On a hit it yields the
        stored value and val_len; on a miss it returns -1 and leaves the
        caller's out-parameters `v0`, `vlen0` as they were. */
    method Select(k: Key, v0: Value, vlen0: nat) returns (ret: int, v: Value, vlen: nat)
      requires Valid()
      ensures Selected(ret, v, vlen) == Dictionary.Select(Contents, k, v0, vlen0)
    {
      var h := HashLoop(k);
      var b := table[(h as int) % size];
      assert b == table[..][BucketOf(k, table.Length)];
      Lookup(table[..], Contents, k);
      var j := Scan(b, k);
      if j < 0 {
        return -1, v0, vlen0;
      }
      return 0, b[j].value, b[j].vlen;
    }

    /** The tail of map_insert_aux: append a new key's entry at the end of
        its bucket and count it. */
    method Append(bi: nat, e: Entry)
      requires Valid() && e.key !in Contents && WellFormed(e)
      requires bi == BucketOf(e.key, table.Length)
      modifies this, table
      ensures Valid()
      ensures table == old(table) && index == old(index) && size == old(size)
      ensures count == old(count) + 1 && Contents == old(Contents)[e.key := e]
      ensures table[..] == old(table[..])[bi := old(table[bi]) + [e]]
    {
      ghost var t := table[..];
      ghost var m := Contents;
      AppendStep(index, size, count, t, m, e);
      table[bi] := table[bi] + [e];
      assert table[..] == t[bi := t[bi] + [e]];
      count := count + 1;
      Contents := m[e.key := e];
    }

    /** The in-place step of map_update: the entry at position j of bucket bi
        gets a new value and val_len under the same key. */
    method ReplaceAt(bi: nat, j: nat, e: Entry)
      requires Valid() && bi < table.Length && j < |table[bi]|
      requires table[bi][j].key == e.key && WellFormed(e)
      modifies this, table
      ensures Valid()
      ensures table == old(table) && index == old(index) && size == old(size) && count == old(count)
      ensures Contents == old(Contents)[e.key := e]
      ensures table[..] == old(table[..])[bi := old(table[bi])[j := e]]
    {
      ghost var t := table[..];
      ghost var m := Contents;
      ReplaceStep(index, size, count, t, m, bi, j, e);
      table[bi] := table[bi][j := e];
      assert table[..] == t[bi := t[bi][j := e]];
      Contents := m[e.key := e];
    }

    /** The compaction step of map_delete: remove the entry at position j of
        bucket bi, shift the later ones down one place, count one fewer. */
    method RemoveAt(bi: nat, j: nat)
      requires Valid() && bi < table.Length && j < |table[bi]|
      modifies this, table
      ensures Valid()
      ensures table == old(table) && index == old(index) && size == old(size)
      ensures count == old(count) - 1
      ensures Contents == old(Contents) - {old(table[bi][j].key)}
      ensures table[..] == old(table[..])[bi := old(table[bi][..j] + table[bi][j + 1..])]
    {
      ghost var t := table[..];
      ghost var m := Contents;
      RemoveStep(index, size, count, t, m, bi, j);
      var nb := table[bi][..j] + table[bi][j + 1..];
      table[bi] := nb;
      assert table[..] == t[bi := nb];
      count := count - 1;
      Contents := m - {t[bi][j].key};
    }

    /** What an insert did, for a map in state old and now: the abstract
        outcome is Dictionary.Insert; a refusal changes nothing; a success
        appends the entry at the end of its bucket and counts it, after
        which, when `grow` is set and growth is due, the map has moved one
        tier up (unless an entry holding a borrowed NULL aborted the move). */
    twostate predicate InsertOutcome(k: Key, v: Ptr, data: seq<byte>, grow: bool, ret: int)
      reads this, table
    {
      && (ret, Contents) == Dictionary.Insert(old(Contents), k, v, data)
      && (ret != 0 ==>
            table == old(table) && table[..] == old(table[..]) &&
            index == old(index) && size == old(size) && count == old(count))
      && (ret == 0 ==> count == old(count) + 1)
      && (ret == 0 ==>
            if grow && GrowthDue(old(count) + 1, old(size), old(index)) && !HasNullBorrow(Contents)
            then index == old(index) + 1 && size > old(size) && fresh(table)
            else
              table == old(table) && index == old(index) && size == old(size) &&
              old(table.Length) > 0 &&
              var b := BucketOf(k, old(table.Length));
              table[..] == old(table[..])[b := old(table[..])[b] + [MakeEntry(k, v, data)]])
    }

    /** map_insert_aux: refuse a NULL pointer with vlen 0 and a key already
        present; otherwise append a new entry (a copy of the bytes when
        vlen > 0, the pointer itself when vlen == 0), count it, and, when
        `grow` is set, let growth run. */
    method InsertAux(k: Key, v: Ptr, data: seq<byte>, grow: bool) returns (ret: int)
      requires Valid()
      modifies this, table
      decreases if grow then 4 else 0
      ensures Valid()
      ensures InsertOutcome(k, v, data, grow, ret)
    {
      if v == Null && |data| == 0 {
        return -1;
      }
      var h := HashLoop(k);
      var bi := (h as int) % size;
      var b := table[bi];
      Lookup(table[..], Contents, k);
      var j := Scan(b, k);
      if j >= 0 {
        return -1;
      }
      Append(bi, MakeEntry(k, v, data));
      ret := 0;
      if grow {
        Transform();
      }
    }

    /** map_transform: when growth is due, build a map at the next tier,
        re-insert every entry in bucket order, then take over its table.
        Growth is all or nothing: if a re-insertion is refused (an entry
        holding a borrowed NULL fails insert's NULL check) the map is left
        exactly as it was. The contents and count never change. */
    method Transform()
      requires Valid()
      modifies this
      decreases 3
      ensures Valid()
      ensures Contents == old(Contents) && count == old(count)
      ensures GrowthDue(old(count), old(size), old(index)) && !HasNullBorrow(old(Contents)) ==>
        index == old(index) + 1 && size > old(size) && fresh(table)
      ensures !(GrowthDue(old(count), old(size), old(index)) && !HasNullBorrow(old(Contents))) ==>
        index == old(index) && size == old(size) && table == old(table)
    {
      if count < size {
        return;
      }
      var next := index + 1;
      if next > LastTier {
        next := LastTier;
      }
      if next == index {
        return;
      }
      var grown := new HashMap(next);
      var moved := grown.MoveAll(table, table[..], Contents);
      if !moved {
        return;
      }
      LadderAscending(index, next);
      table, size, index := grown.table, grown.size, grown.index;
    }

    /** The loop of map_transform, run on the empty map being grown: insert
        every entry of the old table `src` (whose value `t` holds `m`), in
        bucket order. It stops at the first refusal, which only an entry
        holding a borrowed NULL can cause. */
    method MoveAll(src: array<seq<Entry>>, ghost t: Table, ghost m: Dict) returns (moved: bool)
      requires Valid() && Contents == map[] && TableOk(t, m) && src[..] == t && src != table
      modifies this, table
      decreases 2
      ensures Valid() && table == old(table) && index == old(index) && size == old(size)
      ensures moved <==> !HasNullBorrow(m)
      ensures moved ==> Contents == m
    {
      MovedBounds(t, m);
      var i := 0;
      while i < src.Length
        invariant 0 <= i <= src.Length
        invariant Valid() && table == old(table) && index == old(index) && size == old(size)
        invariant Contents == Moved(m, t, i, 0) && !HasNullBorrow(Contents)
      {
        moved := MoveBucket(src[i], t, m, i);
        if !moved {
          return;
        }
        i := i + 1;
      }
      return true;
    }

    /** The inner loop of map_transform, run on the map being grown: insert
        the entries of bucket i of the old table `t` (which holds `m`), in
        order. It stops at the first refusal, which only an entry holding a
        borrowed NULL can cause. */
    method MoveBucket(b: seq<Entry>, ghost t: Table, ghost m: Dict, ghost i: nat) returns (moved: bool)
      requires Valid() && TableOk(t, m) && i < |t| && b == t[i]
      requires Contents == Moved(m, t, i, 0) && !HasNullBorrow(Contents)
      modifies this, table
      decreases 1
      ensures Valid() && table == old(table) && index == old(index) && size == old(size)
      ensures moved ==> Contents == Moved(m, t, i + 1, 0) && !HasNullBorrow(Contents)
      ensures !moved ==> HasNullBorrow(m)
    {
      var j := 0;
      while j < |b|
        invariant 0 <= j <= |b|
        invariant Valid() && table == old(table) && index == old(index) && size == old(size)
        invariant Contents == Moved(m, t, i, j) && !HasNullBorrow(Contents)
      {
        ReinsertStep(t, m, i, j);
        var r := InsertAux(b[j].key, ReinsertPtr(b[j]), ReinsertData(b[j]), false);
        if r != 0 {
          return false;
        }
        j := j + 1;
      }
      MovedNextBucket(t, m, i);
      return true;
    }

    /** map_insert: insert, then let growth run. */
    method Insert(k: Key, v: Ptr, data: seq<byte>) returns (ret: int)
      requires Valid()
      modifies this, table
      ensures Valid()
      ensures InsertOutcome(k, v, data, true, ret)
    {
      ret := InsertAux(k, v, data, true);
    }

    /** What an update did: the abstract outcome is Dictionary.Update; on a
        present key nothing moves, a refusal changes nothing, and a success
        overwrites the key's entry where it stands in its bucket; on an
        absent key the update was an insert. */
    twostate predicate UpdateOutcome(k: Key, v: Ptr, data: seq<byte>, ret: int)
      reads this, table
    {
      && (ret, Contents) == Dictionary.Update(old(Contents), k, v, data)
      && (k in old(Contents) ==>
            table == old(table) && index == old(index) && size == old(size) && count == old(count))
      && (k in old(Contents) && ret != 0 ==> table[..] == old(table[..]))
      && (k in old(Contents) && ret == 0 ==>
            old(table.Length) > 0 &&
            var b := BucketOf(k, old(table.Length));
            exists j :: 0 <= j < |old(table[..])[b]| && old(table[..])[b][j].key == k &&
              table[..] == old(table[..])[b := old(table[..])[b][j := MakeEntry(k, v, data)]])
      && (k !in old(Contents) ==> InsertOutcome(k, v, data, true, ret))
    }

    /** What a delete did: the abstract outcome is Dictionary.Delete; the
        table object and tier never change; a miss changes nothing, and a hit
        removes the key's entry from its bucket, closing the gap so that the
        other entries keep their order, and counts one fewer. */
    twostate predicate DeleteOutcome(k: Key, ret: int)
      reads this, table
    {
      && (ret, Contents) == Dictionary.Delete(old(Contents), k)
      && table == old(table) && index == old(index) && size == old(size)
      && (ret != 0 ==> count == old(count) && table[..] == old(table[..]))
      && (ret == 0 ==>
            count == old(count) - 1 && old(table.Length) > 0 &&
            var b := BucketOf(k, old(table.Length));
            exists j :: 0 <= j < |old(table[..])[b]| && old(table[..])[b][j].key == k &&
              table[..] == old(table[..])[b := old(table[..])[b][..j] + old(table[..])[b][j + 1..]])
    }

    /** map_update: on a present key, refuse a switch between owned
        (vlen > 0) and borrowed (vlen == 0) values, otherwise replace the
        value and val_len in place, keeping the entry's position; on an
        absent key, behave exactly as map_insert. */
    method Update(k: Key, v: Ptr, data: seq<byte>) returns (ret: int)
      requires Valid()
      modifies this, table
      ensures Valid()
      ensures UpdateOutcome(k, v, data, ret)
    {
      var h := HashLoop(k);
      var bi := (h as int) % size;
      var b := table[bi];
      Lookup(table[..], Contents, k);
      var j := Scan(b, k);
      if j < 0 {
        ret := InsertAux(k, v, data, true);
        return;
      }
      if ModeMismatch(b[j].vlen, |data|) {
        return -1;
      }
      ReplaceAt(bi, j, MakeEntry(k, v, data));
      return 0;
    }

    /** map_delete: remove the key's entry and close the gap so the rest of
        the bucket keeps its order, and count one fewer; -1 and no change
        when the key is absent. */
    method Delete(k: Key) returns (ret: int)
      requires Valid()
      modifies this, table
      ensures Valid()
      ensures DeleteOutcome(k, ret)
    {
      var h := HashLoop(k);
      var bi := (h as int) % size;
      var b := table[bi];
      Lookup(table[..], Contents, k);
      var j := Scan(b, k);
      if j < 0 {
        return -1;
      }
      RemoveAt(bi, j);
      return 0;
    }

    /** map_foreach: call `cb` on every entry in bucket-index order, then
        position order, threading the user context; return -1 right after
        the first callback that asks to stop, 0 when none does. */
    method Foreach<U>(cb: (U, Entry) -> (U, bool), user: U) returns (ret: int, user': U)
      requires Valid()
      ensures (ret, user') == Walk(Flatten(table[..]), cb, user)
    {
      ghost var t := table[..];
      user' := user;
      var i := 0;
      while i < size
        invariant 0 <= i <= size
        invariant Walk(Flatten(t), cb, user) == Walk(Flatten(t[i..]), cb, user')
      {
        var b := table[i];
        assert t[i..] == [b] + t[i + 1..];
        var j := 0;
        while j < |b|
          invariant 0 <= j <= |b|
          invariant Walk(Flatten(t), cb, user) == Walk(b[j..] + Flatten(t[i + 1..]), cb, user')
        {
          var (next, stop) := cb(user', b[j]);
          assert (b[j..] + Flatten(t[i + 1..]))[0] == b[j];
          assert (b[j..] + Flatten(t[i + 1..]))[1..] == b[j + 1..] + Flatten(t[i + 1..]);
          user' := next;
          if stop {
            return -1, user';
          }
          j := j + 1;
        }
        assert b[j..] + Flatten(t[i + 1..]) == Flatten(t[i + 1..]);
        i := i + 1;
      }
      assert t[i..] == [];
      ret := 0;
    }

    /** Traversal covers the map: the entries foreach walks are exactly the
        stored ones, `count` of them. */
    lemma TraversalCoversContents(e: Entry)
      requires Valid()
      ensures |Flatten(table[..])| == count
      ensures e in Flatten(table[..]) <==> e.key in Contents && Contents[e.key] == e
    {
      FlattenLength(table[..]);
      FlattenIsContents(table[..], Contents, e);
    }
  }
}
