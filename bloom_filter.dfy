/**
 The "referenced" filter of the cache: a fixed vector of 128 bits probed by two
 hash projections of a page number. A page is reported present when BOTH of its
 bits are set. Adding sets the two bits, removing clears them unconditionally,
 which may also clear a bit another page relies on (a false negative).

 This module states the filter on plain values (a `seq<bool>` of length 128);
 the cache class keeps the same bits in an array and is proved against it.
 */
module BloomFilter {

  /** Number of bits of the filter (the `std::bitset<128>`). */
  const Size: nat := 128

  /** A filter state: exactly `Size` bits. */
  type Bits = s: seq<bool> | |s| == Size witness seq(128, _ => false)

  /** The filter with no bit set. */
  function Empty(): (f: Bits)
    ensures forall b :: 0 <= b < Size ==> !f[b]
  {
    seq(128, _ => false)
  }

  /** First projection: the page number modulo the filter size (Euclidean, so never negative). */
  function Hash1(k: int): (h: nat)
    ensures h < Size
    ensures (h - k) % Size == 0
  {
    k % Size
  }

  /** Second projection: the square of the page number modulo the filter size. */
  function Hash2(k: int): (h: nat)
    ensures h < Size
    ensures (h - k * k) % Size == 0
  {
    (k * k) % Size
  }

  /** Membership: both projected bits are set. */
  predicate Contains(f: Bits, k: int)
  {
    f[Hash1(k)] && f[Hash2(k)]
  }

  /** Sets the two bits of `k`; every other bit keeps its value. */
  function Add(f: Bits, k: int): (r: Bits)
    ensures r[Hash1(k)] && r[Hash2(k)]
    ensures forall b :: 0 <= b < Size && b != Hash1(k) && b != Hash2(k) ==> r[b] == f[b]
  {
    f[Hash1(k) := true][Hash2(k) := true]
  }

  /** Clears the two bits of `k`, without asking whether another key uses them;
      every other bit keeps its value. */
  function Remove(f: Bits, k: int): (r: Bits)
    ensures !r[Hash1(k)] && !r[Hash2(k)]
    ensures forall b :: 0 <= b < Size && b != Hash1(k) && b != Hash2(k) ==> r[b] == f[b]
  {
    f[Hash1(k) := false][Hash2(k) := false]
  }

  /** Two keys share a bit when one of the projections of the first is one of
      the projections of the second. */
  predicate ShareBit(a: int, b: int)
  {
    Hash1(a) == Hash1(b) || Hash1(a) == Hash2(b) || Hash2(a) == Hash1(b) || Hash2(a) == Hash2(b)
  }

  lemma AddThenContains(f: Bits, k: int)
    ensures Contains(Add(f, k), k)
  {
  }

  /** Adding a key twice leaves the same bits as adding it once. */
  lemma AddIdempotent(f: Bits, k: int)
    ensures Add(Add(f, k), k) == Add(f, k)
  {
    var once, twice := Add(f, k), Add(Add(f, k), k);
    forall b | 0 <= b < Size ensures twice[b] == once[b] {
    }
  }

  /** Adding never takes a key out of the filter: bits are only ever set. */
  lemma AddKeepsMembers(f: Bits, k: int, a: int)
    requires Contains(f, a)
    ensures Contains(Add(f, k), a)
  {
  }

  lemma RemoveThenAbsent(f: Bits, k: int)
    ensures !Contains(Remove(f, k), k)
  {
  }

  /** After removing `b`, a key `a` is still reported exactly when it was
      reported before and shares no bit with `b`: a shared bit is a false
      negative for `a`. */
  lemma RemoveKeepsIff(f: Bits, b: int, a: int)
    ensures Contains(Remove(f, b), a) <==> Contains(f, a) && !ShareBit(a, b)
  {
    var r := Remove(f, b);
    if Contains(r, a) {
      assert r[Hash1(a)] && r[Hash2(a)];
      assert Hash1(a) != Hash1(b) && Hash1(a) != Hash2(b);
      assert Hash2(a) != Hash1(b) && Hash2(a) != Hash2(b);
    }
  }

  /** A concrete false negative: pages 2 and 4 are both marked, 2 uses bits 2
      and 4, 4 uses bits 4 and 16; removing 4 clears bit 4, and 2 is no longer
      reported although nobody removed it. */
  lemma CollisionFalseNegative()
    ensures Contains(Add(Add(Empty(), 2), 4), 2)
    ensures Contains(Add(Add(Empty(), 2), 4), 4)
    ensures !Contains(Remove(Add(Add(Empty(), 2), 4), 4), 2)
  {
    var f := Add(Add(Empty(), 2), 4);
    assert Hash1(2) == 2 && Hash2(2) == 4 && Hash1(4) == 4 && Hash2(4) == 16;
    assert f[2] && f[4] && f[16];
    RemoveKeepsIff(f, 4, 2);
  }

  // ---- Agreement with the C++ arithmetic of the projections ----

  /** `int` is 32 bits: the value a product wraps to in two's complement. */
  function WrapInt32(x: int): int
  {
    (x + 0x8000_0000) % 0x1_0000_0000 - 0x8000_0000
  }

  /** Conversion of a signed value to the 64-bit unsigned `size_t`. */
  function ToSizeT(x: int): nat
  {
    x % 0x1_0000_0000_0000_0000
  }

  predicate IsInt32(k: int)
  {
    -0x8000_0000 <= k < 0x8000_0000
  }

  /** Reducing modulo a multiple of 128 first does not change the remainder modulo 128. */
  lemma ModOfMultiple(x: int, m: int)
    requires m > 0
    ensures (x % (Size * m)) % Size == x % Size
  {
    var q := x / (Size * m);
    assert x == (Size * m) * q + x % (Size * m);
    assert x % (Size * m) == x - Size * (m * q);
    ShiftByMultiple(x, -(m * q));
  }

  lemma ShiftByMultiple(x: int, n: int)
    ensures (x + Size * n) % Size == x % Size
  {
  }

  /** hash1 converts the page number to `size_t` before taking `% 128`;
      the result is the Euclidean remainder used by `Hash1`. */
  lemma Hash1MatchesSizeT(k: int)
    requires IsInt32(k)
    ensures ToSizeT(k) % Size == Hash1(k)
  {
    ModOfMultiple(k, 0x200_0000_0000_0000);
  }

  /** hash2 squares in 32-bit `int` (wrapping) and then converts to `size_t`;
      the result is the mathematical square modulo 128 used by `Hash2`. */
  lemma Hash2MatchesWrappedSquare(k: int)
    requires IsInt32(k)
    ensures ToSizeT(WrapInt32(k * k)) % Size == Hash2(k)
  {
    var sq := k * k;
    var w := WrapInt32(sq);
    ModOfMultiple(w, 0x200_0000_0000_0000);
    ModOfMultiple(sq + 0x8000_0000, 0x200_0000);
    assert w % Size == ((sq + 0x8000_0000) % 0x1_0000_0000 - 0x8000_0000) % Size;
    ShiftByMultiple((sq + 0x8000_0000) % 0x1_0000_0000, -0x100_0000);
    ShiftByMultiple(sq, 0x100_0000);
  }
}
