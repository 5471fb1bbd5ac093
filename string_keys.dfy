/** The string-key adapters of include/misc.h: a NUL-terminated C string is
    used as a key together with its terminating NUL, so the key length is
    strlen(k) + 1. Memory is modelled as the bytes from the string's first
    character onwards. */
module StringKeys {
  import opened CdbHash
  import opened Entries
  import opened Dictionary
  import opened Engine

  /** strlen: the number of bytes before the first NUL. */
  function Strlen(mem: seq<byte>): (n: nat)
    requires 0 in mem
    ensures n < |mem| && mem[n] == 0
    ensures forall i :: 0 <= i < n ==> mem[i] != 0
  {
    if mem[0] == 0 then 0
    else
      assert 0 in mem[1..] by {
        var j :| 0 <= j < |mem| && mem[j] == 0;
        assert mem[1..][j - 1] == 0;
      }
      1 + Strlen(mem[1..])
  }

  /** The characters of the string that starts `mem`. */
  function Chars(mem: seq<byte>): (s: seq<byte>)
    requires 0 in mem
    ensures 0 !in s
  {
    mem[..Strlen(mem)]
  }

  /** The key the adapters pass: the string with its terminating NUL. It is
      never empty, ends in NUL, has no earlier NUL, and drops whatever
      follows the terminator in memory. */
  function StrKey(mem: seq<byte>): (k: Key)
    requires 0 in mem
    ensures k == Chars(mem) + [0]
    ensures |k| == Strlen(mem) + 1 && k[|k| - 1] == 0
  {
    mem[..Strlen(mem) + 1]
  }

  /** Two strings map to the same key exactly when they have the same
      characters, whatever lies after their terminators; the characters are
      the key without its last byte. */
  lemma StrKeyInjective(a: seq<byte>, b: seq<byte>)
    requires 0 in a && 0 in b
    ensures StrKey(a) == StrKey(b) <==> Chars(a) == Chars(b)
    ensures StrKey(a)[..|StrKey(a)| - 1] == Chars(a)
  {
    var ka, kb := StrKey(a), StrKey(b);
    if ka == kb {
      assert Chars(a) == ka[..|ka| - 1];
      assert Chars(b) == kb[..|kb| - 1];
    }
  }

  /** map_sv_select: map_select under the string's key. */
  method SvSelect(m: HashMap, mem: seq<byte>, v0: Value, vlen0: nat) returns (ret: int, v: Value, vlen: nat)
    requires m.Valid() && 0 in mem
    ensures Selected(ret, v, vlen) == Dictionary.Select(m.Contents, StrKey(mem), v0, vlen0)
  {
    ret, v, vlen := m.Select(StrKey(mem), v0, vlen0);
  }

  /** map_sv_insert: map_insert under the string's key. */
  method SvInsert(m: HashMap, mem: seq<byte>, v: Ptr, data: seq<byte>) returns (ret: int)
    requires m.Valid() && 0 in mem
    modifies m, m.table
    ensures m.Valid()
    ensures m.InsertOutcome(StrKey(mem), v, data, true, ret)
  {
    ret := m.Insert(StrKey(mem), v, data);
  }

  /** map_sv_update: map_update under the string's key. */
  method SvUpdate(m: HashMap, mem: seq<byte>, v: Ptr, data: seq<byte>) returns (ret: int)
    requires m.Valid() && 0 in mem
    modifies m, m.table
    ensures m.Valid()
    ensures m.UpdateOutcome(StrKey(mem), v, data, ret)
  {
    ret := m.Update(StrKey(mem), v, data);
  }

  /** map_sv_delete: map_delete under the string's key. */
  method SvDelete(m: HashMap, mem: seq<byte>) returns (ret: int)
    requires m.Valid() && 0 in mem
    modifies m, m.table
    ensures m.Valid()
    ensures m.DeleteOutcome(StrKey(mem), ret)
  {
    ret := m.Delete(StrKey(mem));
  }

  /** Inserting under one copy of a string and selecting under another copy
      with the same characters finds the value stored. */
  lemma SvInsertThenSelect(m: Dict, a: seq<byte>, b: seq<byte>, v: Ptr, data: seq<byte>, v0: Value, vlen0: nat)
    requires 0 in a && 0 in b && Chars(a) == Chars(b)
    requires Insert(m, StrKey(a), v, data).0 == 0
    ensures Select(Insert(m, StrKey(a), v, data).1, StrKey(b), v0, vlen0) == Selected(0, Store(v, data), |data|)
  {
    StrKeyInjective(a, b);
  }

  /** Deleting a string removes it for every copy of that string: a later
      select reports -1 and writes nothing. */
  lemma SvDeleteThenSelect(m: Dict, a: seq<byte>, b: seq<byte>, v0: Value, vlen0: nat)
    requires 0 in a && 0 in b && Chars(a) == Chars(b)
    ensures Select(Delete(m, StrKey(a)).1, StrKey(b), v0, vlen0) == Selected(-1, v0, vlen0)
  {
    StrKeyInjective(a, b);
  }

  /** Writing under one string never changes what a different string
      selects. */
  lemma SvStringsIndependent(m: Dict, a: seq<byte>, b: seq<byte>, v: Ptr, data: seq<byte>, v0: Value, vlen0: nat)
    requires 0 in a && 0 in b && Chars(a) != Chars(b)
    ensures Select(Insert(m, StrKey(a), v, data).1, StrKey(b), v0, vlen0) == Select(m, StrKey(b), v0, vlen0)
    ensures Select(Update(m, StrKey(a), v, data).1, StrKey(b), v0, vlen0) == Select(m, StrKey(b), v0, vlen0)
    ensures Select(Delete(m, StrKey(a)).1, StrKey(b), v0, vlen0) == Select(m, StrKey(b), v0, vlen0)
  {
    StrKeyInjective(a, b);
  }
}
