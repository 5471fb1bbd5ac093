/** The bucket table of src/map.c seen as a value: a sequence of buckets,
    each an ordered sequence of entries (include/map.h, rs_bucket). The
    predicates here are the table invariant every operation keeps; the
    lemmas say how appending, replacing and removing one entry, and
    re-inserting all of them, act on it. */
module Buckets {
  import opened CdbHash
  import opened Entries
  import opened Dictionary

  type Table = seq<seq<Entry>>

  /** Some entry of bucket `b` carries key `k`. */
  ghost predicate HasKey(b: seq<Entry>, k: Key) {
    exists j :: 0 <= j < |b| && b[j].key == k
  }

  /** Every entry sits in the bucket its key hashes to. */
  ghost predicate Placed(t: Table) {
    |t| > 0 &&
    forall i, j :: 0 <= i < |t| && 0 <= j < |t[i]| ==> BucketOf(t[i][j].key, |t|) == i
  }

  /** No bucket holds two entries with equal keys (equal length and bytes). */
  ghost predicate Distinct(t: Table) {
    forall i, j1, j2 :: 0 <= i < |t| && 0 <= j1 < j2 < |t[i]| ==> t[i][j1].key != t[i][j2].key
  }

  /** Key `k` is found by scanning its own bucket. */
  ghost predicate Stored(t: Table, k: Key)
    requires |t| > 0
  {
    HasKey(t[BucketOf(k, |t|)], k)
  }

  /** The table holds exactly the entries of `m`. (The second quantifier is
      triggered by Stored only, so that it is instantiated for the keys a
      proof actually looks up.) */
  ghost predicate Represents(t: Table, m: Dict)
    requires |t| > 0
  {
    && (forall i, j :: 0 <= i < |t| && 0 <= j < |t[i]| ==> t[i][j].key in m && m[t[i][j].key] == t[i][j])
    && (forall k {:trigger Stored(t, k)} :: k in m ==> Stored(t, k))
  }

  /** The table invariant: placement, key uniqueness, and agreement with the
      abstract contents, whose entries obey the ownership convention. */
  ghost predicate TableOk(t: Table, m: Dict) {
    Placed(t) && Distinct(t) && Keyed(m) && Represents(t, m)
  }

  /** The number of entries in all buckets: the sum of the bucket counts. */
  function SumLens(t: Table): nat {
    if t == [] then 0 else |t[0]| + SumLens(t[1..])
  }

  /** All entries, in bucket-index order, then position order. */
  function Flatten(t: Table): seq<Entry> {
    if t == [] then [] else t[0] + Flatten(t[1..])
  }

  /** Replacing one bucket changes the sum by the change of its length. */
  lemma {:induction false} SumLensUpdate(t: Table, i: nat, b: seq<Entry>)
    requires i < |t|
    ensures SumLens(t[i := b]) == SumLens(t) - |t[i]| + |b|
  {
    if i > 0 {
      assert t[i := b][1..] == t[1..][i - 1 := b];
      SumLensUpdate(t[1..], i - 1, b);
    }
  }

  /** A table of empty buckets holds no entries. */
  lemma {:induction false} SumLensEmpty(t: Table)
    requires forall i :: 0 <= i < |t| ==> t[i] == []
    ensures SumLens(t) == 0
  {
    if t != [] {
      SumLensEmpty(t[1..]);
    }
  }

  /** The flattened table has as many entries as the bucket counts add up to. */
  lemma {:induction false} FlattenLength(t: Table)
    ensures |Flatten(t)| == SumLens(t)
  {
    if t != [] {
      FlattenLength(t[1..]);
    }
  }

  /** An entry occurs in the flattened table iff it occurs in some bucket. */
  lemma {:induction false} FlattenMembers(t: Table, e: Entry)
    ensures e in Flatten(t) <==> exists i :: 0 <= i < |t| && e in t[i]
  {
    if t != [] {
      FlattenMembers(t[1..], e);
      if e in Flatten(t[1..]) {
        var i :| 0 <= i < |t[1..]| && e in t[1..][i];
        assert e in t[i + 1];
      }
      if exists i :: 0 <= i < |t| && e in t[i] {
        var i :| 0 <= i < |t| && e in t[i];
        if i > 0 {
          assert e in t[1..][i - 1];
        }
      }
    }
  }

  /** In a table that keeps the invariant, the flattened entries are exactly
      the stored ones. */
  lemma FlattenIsContents(t: Table, m: Dict, e: Entry)
    requires TableOk(t, m)
    ensures e in Flatten(t) <==> e.key in m && m[e.key] == e
  {
    FlattenMembers(t, e);
    if e.key in m && m[e.key] == e {
      var i := BucketOf(e.key, |t|);
      assert Stored(t, e.key);
      var j :| 0 <= j < |t[i]| && t[i][j].key == e.key;
      assert e in t[i];
    }
    if e in Flatten(t) {
      var i :| 0 <= i < |t| && e in t[i];
      var j :| 0 <= j < |t[i]| && t[i][j] == e;
    }
  }

  /** The keys held in a bucket prefix grow by one key per entry. */
  lemma HasKeyExtend(b: seq<Entry>, j: nat, k: Key)
    requires j < |b|
    ensures HasKey(b[..j + 1], k) <==> HasKey(b[..j], k) || b[j].key == k
  {
    if HasKey(b[..j + 1], k) && b[j].key != k {
      var x :| 0 <= x < j + 1 && b[..j + 1][x].key == k;
      assert b[..j][x].key == k;
    }
    if HasKey(b[..j], k) {
      var x :| 0 <= x < j && b[..j][x].key == k;
      assert b[..j + 1][x].key == k;
    }
    if b[j].key == k {
      assert b[..j + 1][j].key == k;
    }
  }

  /** Lookup is sound and complete: a key is stored iff its own bucket holds
      an entry with that key, and that entry is the stored one. */
  lemma Lookup(t: Table, m: Dict, k: Key)
    requires TableOk(t, m)
    ensures k in m <==> HasKey(t[BucketOf(k, |t|)], k)
    ensures forall j :: 0 <= j < |t[BucketOf(k, |t|)]| && t[BucketOf(k, |t|)][j].key == k ==>
      k in m && m[k] == t[BucketOf(k, |t|)][j]
  {
    var b := BucketOf(k, |t|);
    assert k in m ==> Stored(t, k);
    if HasKey(t[b], k) {
      var j :| 0 <= j < |t[b]| && t[b][j].key == k;
      assert t[b][j].key in m;
    }
  }

  // Appending, replacing and removing one entry.

  /** Appending an entry with a new key at the end of its bucket, as insert
      does, keeps the invariant and adds that entry to the contents. */
  lemma AppendKeepsTable(t: Table, m: Dict, e: Entry)
    requires TableOk(t, m) && e.key !in m && WellFormed(e)
    ensures var b := BucketOf(e.key, |t|);
      TableOk(t[b := t[b] + [e]], m[e.key := e])
  {
    var b := BucketOf(e.key, |t|);
    var t': Table := t[b := t[b] + [e]];
    var m': Dict := m[e.key := e];
    assert |t'| == |t|;
    forall i, j | 0 <= i < |t'| && 0 <= j < |t'[i]|
      ensures BucketOf(t'[i][j].key, |t'|) == i
      ensures t'[i][j].key in m' && m'[t'[i][j].key] == t'[i][j]
    {
      if i == b && j == |t[b]| {
        assert t'[i][j] == e;
      } else {
        assert t'[i][j] == t[i][j];
        assert t[i][j].key in m;
      }
    }
    forall k | k in m'
      ensures Stored(t', k)
    {
      var c := BucketOf(k, |t|);
      if k == e.key {
        assert t'[c][|t[b]|].key == k;
      } else {
        assert Stored(t, k);
        var j :| 0 <= j < |t[c]| && t[c][j].key == k;
        assert t'[c][j].key == k;
      }
    }
    forall i, j1, j2 | 0 <= i < |t'| && 0 <= j1 < j2 < |t'[i]|
      ensures t'[i][j1].key != t'[i][j2].key
    {
      if i == b && j2 == |t[b]| {
        assert t'[i][j1] == t[i][j1];
        assert t[i][j1].key in m;
      } else {
        assert t'[i][j1] == t[i][j1] && t'[i][j2] == t[i][j2];
      }
    }
  }

  /** Replacing the value of the entry at position j of bucket b, as update
      does, keeps the invariant and rebinds that key in the contents. */
  lemma ReplaceKeepsTable(t: Table, m: Dict, b: nat, j: nat, e: Entry)
    requires TableOk(t, m) && b < |t| && j < |t[b]| && t[b][j].key == e.key && WellFormed(e)
    ensures TableOk(t[b := t[b][j := e]], m[e.key := e])
  {
    var t': Table := t[b := t[b][j := e]];
    var m': Dict := m[e.key := e];
    forall i, x | 0 <= i < |t'| && 0 <= x < |t'[i]|
      ensures BucketOf(t'[i][x].key, |t'|) == i
      ensures t'[i][x].key in m' && m'[t'[i][x].key] == t'[i][x]
    {
      if i == b && x == j {
        assert t'[i][x] == e;
      } else {
        assert t'[i][x] == t[i][x];
      }
    }
    forall k | k in m'
      ensures Stored(t', k)
    {
      var c := BucketOf(k, |t|);
      assert Stored(t, k);
      var x :| 0 <= x < |t[c]| && t[c][x].key == k;
      assert t'[c][x].key == k;
    }
    forall i, j1, j2 | 0 <= i < |t'| && 0 <= j1 < j2 < |t'[i]|
      ensures t'[i][j1].key != t'[i][j2].key
    {
      assert t'[i][j1].key == t[i][j1].key && t'[i][j2].key == t[i][j2].key;
    }
  }

  /** Removing the entry at position j of bucket b and closing the gap, as
      delete does, keeps the invariant and drops that key. */
  lemma RemoveKeepsTable(t: Table, m: Dict, b: nat, j: nat)
    requires TableOk(t, m) && b < |t| && j < |t[b]|
    ensures TableOk(t[b := t[b][..j] + t[b][j + 1..]], m - {t[b][j].key})
  {
    var k0 := t[b][j].key;
    var nb := t[b][..j] + t[b][j + 1..];
    var t': Table := t[b := nb];
    var m': Dict := m - {k0};
    // position x of the new bucket held position Old(x) of the old one
    forall x | 0 <= x < |nb|
      ensures nb[x] == t[b][if x < j then x else x + 1]
    {
    }
    forall i, x | 0 <= i < |t'| && 0 <= x < |t'[i]|
      ensures BucketOf(t'[i][x].key, |t'|) == i
      ensures t'[i][x].key in m' && m'[t'[i][x].key] == t'[i][x]
    {
      if i == b {
        var y := if x < j then x else x + 1;
        assert t'[i][x] == t[b][y];
        assert t[b][y].key != k0;
      } else {
        assert t'[i][x] == t[i][x];
      }
    }
    forall k | k in m'
      ensures Stored(t', k)
    {
      var c := BucketOf(k, |t|);
      assert Stored(t, k);
      var x :| 0 <= x < |t[c]| && t[c][x].key == k;
      if c == b {
        assert x != j;
        var y := if x < j then x else x - 1;
        assert t'[c][y].key == k;
      } else {
        assert t'[c][x].key == k;
      }
    }
    forall i, j1, j2 | 0 <= i < |t'| && 0 <= j1 < j2 < |t'[i]|
      ensures t'[i][j1].key != t'[i][j2].key
    {
      if i == b {
        var y1 := if j1 < j then j1 else j1 + 1;
        var y2 := if j2 < j then j2 else j2 + 1;
        assert t'[i][j1] == t[b][y1] && t'[i][j2] == t[b][y2];
      } else {
        assert t'[i][j1] == t[i][j1] && t'[i][j2] == t[i][j2];
      }
    }
  }

  // Re-inserting every entry into a fresh table during growth.

  /** The entries re-inserted once buckets 0..i-1 and the first j entries of
      bucket i have been moved. */
  ghost function Moved(m: Dict, t: Table, i: nat, j: nat): Dict
    requires |t| > 0
  {
    map k | k in m && (BucketOf(k, |t|) < i || (BucketOf(k, |t|) == i && i < |t| && j <= |t[i]| && HasKey(t[i][..j], k))) :: m[k]
  }

  /** Moving the next entry adds exactly that entry, under a key not moved yet. */
  lemma MovedNextEntry(t: Table, m: Dict, i: nat, j: nat)
    requires TableOk(t, m) && i < |t| && j < |t[i]|
    ensures t[i][j].key in m && m[t[i][j].key] == t[i][j]
    ensures t[i][j].key !in Moved(m, t, i, j)
    ensures Moved(m, t, i, j + 1) == Moved(m, t, i, j)[t[i][j].key := t[i][j]]
  {
    var e := t[i][j];
    forall k
      ensures HasKey(t[i][..j + 1], k) <==> HasKey(t[i][..j], k) || e.key == k
    {
      HasKeyExtend(t[i], j, k);
    }
  }

  /** A fully moved bucket is the same as the start of the next one. */
  lemma MovedNextBucket(t: Table, m: Dict, i: nat)
    requires TableOk(t, m) && i < |t|
    ensures Moved(m, t, i, |t[i]|) == Moved(m, t, i + 1, 0)
  {
    assert t[i][..|t[i]|] == t[i];
    forall k | k in m && BucketOf(k, |t|) == i
      ensures HasKey(t[i][..|t[i]|], k)
    {
      assert Stored(t, k);
    }
  }

  /** Nothing is moved at the start, everything at the end. */
  lemma MovedBounds(t: Table, m: Dict)
    requires |t| > 0
    ensures Moved(m, t, 0, 0) == map[]
    ensures Moved(m, t, |t|, 0) == m
  {
  }

  // Traversal.

  /** map_foreach over a sequence of entries: the callback sees the user
      context and each entry in turn and returns the next context and
      whether to stop (a nonzero return). */
  function Walk<U>(es: seq<Entry>, cb: (U, Entry) -> (U, bool), user: U): (int, U)
  {
    if es == [] then (0, user)
    else
      var (next, stop) := cb(user, es[0]);
      if stop then (-1, next) else Walk(es[1..], cb, next)
  }

  /** Once the callback has stopped the walk, the entries after that point
      are never visited: the outcome does not depend on them. */
  lemma {:induction false} WalkStopsEarly<U>(a: seq<Entry>, b: seq<Entry>, cb: (U, Entry) -> (U, bool), user: U)
    ensures Walk(a + b, cb, user) ==
      (var r := Walk(a, cb, user); if r.0 != 0 then r else Walk(b, cb, r.1))
  {
    if a != [] {
      assert (a + b)[0] == a[0];
      assert (a + b)[1..] == a[1..] + b;
      WalkStopsEarly(a[1..], b, cb, cb(user, a[0]).0);
    } else {
      assert a + b == b;
    }
  }

  /** Whether the callback asks to stop at entry i of a walk that reached
      it: it is called with the context left by the entries before i. */
  predicate StopsAt<U>(es: seq<Entry>, cb: (U, Entry) -> (U, bool), user: U, i: nat)
    requires i < |es|
  {
    cb(Fold(es[..i], cb, user), es[i]).1
  }

  /** The context entering entry i of a walk, seen from the second entry on. */
  lemma FoldShift<U>(es: seq<Entry>, cb: (U, Entry) -> (U, bool), user: U, i: nat)
    requires 0 < i <= |es|
    ensures Fold(es[..i], cb, user) == Fold(es[1..][..i - 1], cb, cb(user, es[0]).0)
  {
    assert es[..i][1..] == es[1..][..i - 1];
  }

  /** A walk returns 0 exactly when none of the callbacks it makes asks to
      stop, and then yields the context after all entries. Otherwise it
      returns -1 with the context the first stopping callback returned, and
      every callback before that one declined to stop. */
  lemma {:induction false} WalkResult<U>(es: seq<Entry>, cb: (U, Entry) -> (U, bool), user: U)
    ensures Walk(es, cb, user).0 in {0, -1}
    ensures Walk(es, cb, user).0 == 0 <==> forall i :: 0 <= i < |es| ==> !StopsAt(es, cb, user, i)
    ensures Walk(es, cb, user).0 == 0 ==> Walk(es, cb, user).1 == Fold(es, cb, user)
    ensures Walk(es, cb, user).0 == -1 ==>
      exists i :: 0 <= i < |es| && StopsAt(es, cb, user, i) &&
        (forall x :: 0 <= x < i ==> !StopsAt(es, cb, user, x)) &&
        Walk(es, cb, user).1 == cb(Fold(es[..i], cb, user), es[i]).0
  {
    if es != [] {
      var next := cb(user, es[0]).0;
      assert es[..0] == [];
      assert StopsAt(es, cb, user, 0) == cb(user, es[0]).1;
      if !cb(user, es[0]).1 {
        var rest := es[1..];
        WalkResult(rest, cb, next);
        forall i | 1 <= i < |es|
          ensures StopsAt(es, cb, user, i) == StopsAt(rest, cb, next, i - 1)
          ensures Fold(es[..i], cb, user) == Fold(rest[..i - 1], cb, next)
        {
          FoldShift(es, cb, user, i);
        }
        if Walk(es, cb, user).0 == -1 {
          var i :| 0 <= i < |rest| && StopsAt(rest, cb, next, i) &&
            (forall x :: 0 <= x < i ==> !StopsAt(rest, cb, next, x)) &&
            Walk(rest, cb, next).1 == cb(Fold(rest[..i], cb, next), rest[i]).0;
          assert StopsAt(es, cb, user, i + 1);
          forall x | 0 <= x < i + 1
            ensures !StopsAt(es, cb, user, x)
          {
            if x > 0 {
              assert !StopsAt(rest, cb, next, x - 1);
            }
          }
        }
        if forall i :: 0 <= i < |rest| ==> !StopsAt(rest, cb, next, i) {
          forall i | 0 <= i < |es|
            ensures !StopsAt(es, cb, user, i)
          {
            if i > 0 {
              assert !StopsAt(rest, cb, next, i - 1);
            }
          }
        }
      }
    }
  }

  /** The context after visiting every entry of `es` without stopping. */
  function Fold<U>(es: seq<Entry>, cb: (U, Entry) -> (U, bool), user: U): U {
    if es == [] then user else Fold(es[1..], cb, cb(user, es[0]).0)
  }
}
