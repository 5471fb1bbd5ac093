/** The 64-bit big-endian byte order the integer adapters of src/misc.c use
    for keys and values (htobe64 on the way in, be64toh on the way out),
    stated independently of the host's byte order. */
module BigEndian {
  import opened CdbHash

  /** uint64_t. */
  type u64 = x: int | 0 <= x < 0x1_0000_0000_0000_0000

  /** 256 to the power n: the number of values n bytes can hold. */
  function Pow256(n: nat): (p: nat)
    ensures p > 0
  {
    if n == 0 then 1 else 256 * Pow256(n - 1)
  }

  /** The low n bytes of x, most significant first. */
  function ToBytes(x: nat, n: nat): (s: seq<byte>)
    ensures |s| == n
  {
    if n == 0 then [] else ToBytes(x / 256, n - 1) + [x % 256]
  }

  /** The number a big-endian byte sequence denotes. */
  function FromBytes(s: seq<byte>): (x: nat)
    ensures x < Pow256(|s|)
  {
    if s == [] then 0
    else
      var hi := FromBytes(s[..|s| - 1]);
      PushBound(hi, s[|s| - 1], Pow256(|s| - 1));
      hi * 256 + s[|s| - 1]
  }

  // Arithmetic on one byte position, kept in small lemmas so that each
  // proof below sees only the facts it needs.

  lemma PushBound(hi: nat, lo: nat, p: nat)
    requires hi < p && lo < 256
    ensures hi * 256 + lo < 256 * p
  {
  }

  lemma DivMod256(q: nat, r: nat)
    requires r < 256
    ensures (q * 256 + r) / 256 == q && (q * 256 + r) % 256 == r
  {
  }

  lemma DivBound(x: nat, p: nat)
    requires x < 256 * p
    ensures x / 256 < p
  {
  }

  lemma Split(x: nat)
    ensures x == (x / 256) * 256 + x % 256 && x % 256 < 256
  {
  }

  lemma DigitOrder(a: nat, b: nat)
    ensures a < b <==> a / 256 < b / 256 || (a / 256 == b / 256 && a % 256 < b % 256)
  {
  }

  /** htobe64: the eight bytes of x in big-endian order. */
  function Encode(x: u64): (s: seq<byte>)
    ensures |s| == 8
  {
    ToBytes(x, 8)
  }

  /** be64toh applied to eight bytes read from memory. */
  function Decode(s: seq<byte>): (x: u64)
    requires |s| == 8
    ensures Encode(x) == s
  {
    ToFromBytes(s);
    FromBytes(s)
  }

  /** memcmp's order on byte strings of equal length: the first byte where
      they differ decides. */
  predicate LexLess(s: seq<byte>, t: seq<byte>)
    requires |s| == |t|
  {
    |s| > 0 && (s[0] < t[0] || (s[0] == t[0] && LexLess(s[1..], t[1..])))
  }

  /** Reading back the bytes of a number that fits gives the number. */
  lemma {:induction false} FromToBytes(x: nat, n: nat)
    requires x < Pow256(n)
    ensures FromBytes(ToBytes(x, n)) == x
  {
    if n > 0 {
      var s := ToBytes(x, n);
      assert s[..n - 1] == ToBytes(x / 256, n - 1);
      assert s[n - 1] == x % 256;
      DivBound(x, Pow256(n - 1));
      FromToBytes(x / 256, n - 1);
      Split(x);
    }
  }

  /** Writing out the number a byte sequence denotes gives the sequence. */
  lemma {:induction false} ToFromBytes(s: seq<byte>)
    ensures ToBytes(FromBytes(s), |s|) == s
  {
    if s != [] {
      var init, last := s[..|s| - 1], s[|s| - 1];
      ToFromBytes(init);
      PushByte(FromBytes(init), last, |s|);
      assert s == init + [last];
    }
  }

  /** Appending a byte to a number (shifting it up by one byte) appends
      that byte to its encoding. */
  lemma PushByte(hi: nat, b: byte, n: nat)
    requires n > 0
    ensures ToBytes(hi * 256 + b, n) == ToBytes(hi, n - 1) + [b]
  {
    DivMod256(hi, b);
  }

  /** The encoding round-trips, so distinct integers give distinct keys. */
  lemma DecodeEncode(x: u64)
    ensures Decode(Encode(x)) == x
  {
    FromToBytes(x, 8);
  }

  /** htobe64 is injective: two integers share an encoding only when equal. */
  lemma EncodeInjective(a: u64, b: u64)
    ensures Encode(a) == Encode(b) <==> a == b
  {
    DecodeEncode(a);
    DecodeEncode(b);
  }

  /** Comparing two byte strings extended by one byte each: the prefixes
      decide, and the added bytes only when the prefixes are equal. */
  lemma {:induction false} LexLessSnoc(s: seq<byte>, t: seq<byte>, a: byte, b: byte)
    requires |s| == |t|
    ensures LexLess(s + [a], t + [b]) <==> LexLess(s, t) || (s == t && a < b)
  {
    if s != [] {
      LexLessSnoc(s[1..], t[1..], a, b);
      SnocTail(s, a);
      SnocTail(t, b);
      HeadTailEq(s, t);
    }
  }

  lemma SnocTail(s: seq<byte>, a: byte)
    requires s != []
    ensures (s + [a])[0] == s[0] && (s + [a])[1..] == s[1..] + [a]
  {
  }

  lemma HeadTailEq(s: seq<byte>, t: seq<byte>)
    requires s != [] && |s| == |t|
    ensures s == t <==> s[0] == t[0] && s[1..] == t[1..]
  {
    if s[0] == t[0] && s[1..] == t[1..] {
      assert s == [s[0]] + s[1..];
      assert t == [t[0]] + t[1..];
    }
  }

  /** The n-byte big-endian encoding preserves order: for numbers that fit,
      a < b exactly when memcmp puts the encoding of a first. */
  lemma {:induction false} ToBytesOrder(a: nat, b: nat, n: nat)
    requires a < Pow256(n) && b < Pow256(n)
    ensures a < b <==> LexLess(ToBytes(a, n), ToBytes(b, n))
  {
    if n > 0 {
      var qa, qb, ra, rb := a / 256, b / 256, a % 256, b % 256;
      DivBound(a, Pow256(n - 1));
      DivBound(b, Pow256(n - 1));
      ToBytesOrder(qa, qb, n - 1);
      FromToBytes(qa, n - 1);
      FromToBytes(qb, n - 1);
      assert ToBytes(qa, n - 1) == ToBytes(qb, n - 1) <==> qa == qb;
      DigitOrder(a, b);
      LexLessSnoc(ToBytes(qa, n - 1), ToBytes(qb, n - 1), ra, rb);
    }
  }

  /** htobe64 preserves order: for unsigned a and b, a < b exactly when the
      encoding of a compares below that of b byte by byte. */
  lemma EncodeOrder(a: u64, b: u64)
    ensures a < b <==> LexLess(Encode(a), Encode(b))
  {
    ToBytesOrder(a, b, 8);
  }
}
