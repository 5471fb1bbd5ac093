/** The cdb hash of D. J. Bernstein's constant-database format, as the engine
    uses it to choose a bucket (src/map.c, map_hash). */
module CdbHash {

  /** A byte of memory, as an unsigned value. */
  type byte = x: int | 0 <= x < 256

  /** Keys are opaque byte strings; their length is the C key_len. */
  type Key = seq<byte>

  /** The hash seed, CDB_HASHSTART. */
  const Seed: bv32 := 5381

  /** The key bytes are read through a plain `char`, which is signed on the
      targets this model follows (x86-64): a byte >= 0x80 is sign-extended
      to 32 bits before it meets the accumulator. */
  function Widen(b: byte): (w: bv32)
    ensures w & 0xFF == b as bv32
    ensures b < 0x80 ==> w == b as bv32
    ensures b >= 0x80 ==> w & 0xFFFF_FF00 == 0xFFFF_FF00
  {
    if b < 0x80 then b as bv32 else (b as bv32) | 0xFFFF_FF00
  }

  /** One round: h * 33 modulo 2^32, then exclusive-or with the byte. */
  function Step(h: bv32, b: byte): bv32 {
    (h + (h << 5)) ^ Widen(b)
  }

  /** The hash as a left fold of Step over the key, starting at the seed. */
  function Hash(s: Key): bv32 {
    if s == [] then Seed else Step(Hash(s[..|s| - 1]), s[|s| - 1])
  }

  /** The bucket a key belongs to in a table of `size` buckets: the unsigned
      32-bit hash modulo the size. */
  function BucketOf(k: Key, size: nat): (i: nat)
    requires size > 0
    ensures i < size
  {
    (Hash(k) as int) % size
  }

  /** map_hash: the loop over the key, proved to compute the fold. */
  method HashLoop(s: Key) returns (h: bv32)
    ensures h == Hash(s)
  {
    h := Seed;
    var i := 0;
    while i < |s|
      invariant 0 <= i <= |s|
      invariant h == Hash(s[..i])
    {
      assert s[..i + 1][..i] == s[..i];
      h := Step(h, s[i]);
      i := i + 1;
    }
    assert s[..i] == s;
  }

  /** The same fold with the bytes read as unsigned characters, the reading
      on targets where `char` is unsigned. */
  function UnsignedHash(s: Key): bv32 {
    if s == [] then Seed else UnsignedStep(UnsignedHash(s[..|s| - 1]), s[|s| - 1])
  }

  /** One round with the byte zero-extended. */
  function UnsignedStep(h: bv32, b: byte): bv32 {
    (h + (h << 5)) ^ (b as bv32)
  }

  /** On keys made only of bytes below 0x80 (ASCII text, for one) the
      signedness of `char` does not matter: both readings hash alike. */
  lemma {:induction false} HashIgnoresSignednessBelow0x80(s: Key)
    requires forall i :: 0 <= i < |s| ==> s[i] < 0x80
    ensures Hash(s) == UnsignedHash(s)
  {
    if s != [] {
      var h := Hash(s[..|s| - 1]);
      HashIgnoresSignednessBelow0x80(s[..|s| - 1]);
      assert Widen(s[|s| - 1]) == s[|s| - 1] as bv32;
      assert Step(h, s[|s| - 1]) == UnsignedStep(h, s[|s| - 1]);
    }
  }

  /** Above 0x80 the reading does matter: the one-byte key 0x80 hashes
      differently under the two readings, so bucket placement, and with it
      the traversal order, depends on the signedness of `char`. */
  lemma SignednessMattersAbove0x80()
    ensures Hash([0x80]) != UnsignedHash([0x80])
  {
    assert [0x80][..0] == [];
  }
}
