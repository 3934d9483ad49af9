/** `unscramble_pt` and `unscramble_dp`: the in-place XOR of a graphic's 16-bit words
    with the keystream of a linear congruential generator seeded by one of the words. */
module Scramble {
  import opened Bytes

  /** The generator's multiplier and increment (`MULT` and `ADD`). */
  const MULT := 0x41C6_4E6D
  const ADD := 0x6073

  function Pow2(n: nat): (r: nat)
    ensures r > 0
  {
    if n == 0 then 1 else 2 * Pow2(n - 1)
  }

  lemma Pow2Of16()
    ensures Pow2(16) == 0x1_0000
  {
    assert Pow2(4) == 16;
    assert Pow2(8) == 256;
    assert Pow2(12) == 4096;
  }

  /** The low `n` bits of the bitwise exclusive or of `a` and `b`. */
  function XorBits(n: nat, a: nat, b: nat): nat
  {
    if n == 0 then 0 else 2 * XorBits(n - 1, a / 2, b / 2) + (a + b) % 2
  }

  lemma {:induction false} XorBitsBound(n: nat, a: nat, b: nat)
    ensures XorBits(n, a, b) < Pow2(n)
  {
    if n > 0 {
      XorBitsBound(n - 1, a / 2, b / 2);
    }
  }

  /** The `^` of two `u16` values. */
  function Xor(a: u16, b: u16): (r: u16)
  {
    XorBitsBound(16, a, b);
    Pow2Of16();
    XorBits(16, a, b)
  }

  /** Splitting off the lowest bit of a remainder by a power of two. */
  lemma ModPow2(a: nat, n: nat)
    requires n > 0
    ensures a % Pow2(n) == 2 * ((a / 2) % Pow2(n - 1)) + a % 2
  {
    var p := Pow2(n - 1);
    var q, r := (a / 2) / p, (a / 2) % p;
    assert a == 2 * (a / 2) + a % 2;
    assert a / 2 == q * p + r;
    assert a == q * (2 * p) + (2 * r + a % 2);
    DivModUnique(a, 2 * p, q, 2 * r + a % 2);
  }

  /** XORing twice with the same key gives back the low bits. */
  lemma {:induction false} XorBitsTwice(n: nat, a: nat, k: nat)
    ensures XorBits(n, XorBits(n, a, k), k) == a % Pow2(n)
  {
    if n > 0 {
      XorTwiceStep(n, a, k);
      XorBitsTwice(n - 1, a / 2, k / 2);
      ModPow2(a, n);
    }
  }

  /** The lowest bit of a twice-XORed value is the original's, the others are the
      twice-XORed value of the original's upper bits. */
  lemma XorTwiceStep(n: nat, a: nat, k: nat)
    requires n > 0
    ensures XorBits(n, XorBits(n, a, k), k) == 2 * XorBits(n - 1, XorBits(n - 1, a / 2, k / 2), k / 2) + a % 2
  {
    var x := XorBits(n, a, k);
    var x' := XorBits(n - 1, a / 2, k / 2);
    assert x == 2 * x' + (a + k) % 2;
    DivModUnique(x, 2, x', (a + k) % 2);
    assert (x + k) % 2 == a % 2;
  }

  lemma {:induction false} XorBitsSymmetric(n: nat, a: nat, b: nat)
    ensures XorBits(n, a, b) == XorBits(n, b, a)
  {
    if n > 0 {
      assert XorBits(n, a, b) == 2 * XorBits(n - 1, a / 2, b / 2) + (a + b) % 2;
      XorBitsSymmetric(n - 1, a / 2, b / 2);
    }
  }

  lemma {:induction false} XorBitsSelf(n: nat, a: nat)
    ensures XorBits(n, a, a) == 0
  {
    if n > 0 {
      assert XorBits(n, a, a) == 2 * XorBits(n - 1, a / 2, a / 2) + (a + a) % 2;
      XorBitsSelf(n - 1, a / 2);
    }
  }

  /** `^` on `u16` is an involution, commutative, and a value XORed with itself is 0. */
  lemma XorLaws(a: u16, k: u16)
    ensures Xor(Xor(a, k), k) == a
    ensures Xor(a, k) == Xor(k, a)
    ensures Xor(a, a) == 0
  {
    XorBitsTwice(16, a, k);
    Pow2Of16();
    XorBitsSymmetric(16, a, k);
    XorBitsSelf(16, a);
  }

  /** One step of the generator, `seed * MULT + ADD` stored back into the `u16` seed
      (the computation is done in a `long`, and the store keeps its low 16 bits). */
  function Next(k: u16): u16
  {
    (k * MULT + ADD) % 0x1_0000
  }

  /** The key for the word `n` steps from the seed's word. */
  function Key(seed: u16, n: nat): u16
  {
    if n == 0 then seed else Next(Key(seed, n - 1))
  }

  /** What `unscramble_pt(d, size)` leaves: word `i < size` XORed with the key `i` steps
      from `d[0]`, every other word as it was. */
  function UnscrambledPt(d: seq<u16>, size: int): (r: seq<u16>)
    requires 0 < |d|
    ensures |r| == |d|
  {
    seq(|d|, i requires 0 <= i < |d| => if i < size then Xor(d[i], Key(d[0], i)) else d[i])
  }

  /** What `unscramble_dp(d, size)` leaves: word `i < size` XORed with the key
      `size - 1 - i` steps from `d[size - 1]`, every other word as it was. */
  function UnscrambledDp(d: seq<u16>, size: int): (r: seq<u16>)
    requires 0 < size <= |d|
    ensures |r| == |d|
  {
    seq(|d|, i requires 0 <= i < |d| =>
      if i < size then Xor(d[i], Key(d[size - 1], size - 1 - i)) else d[i])
  }

  /** unscramble_pt: forward from the first word, which is the seed. */
  method UnscramblePt(data: array<u16>, size: int)
    requires 0 < data.Length && size <= data.Length
    modifies data
    ensures data[..] == UnscrambledPt(old(data[..]), size)
  {
    ghost var d := data[..];
    var seed := data[0];
    if size <= 0 {
      assert data[..] == UnscrambledPt(d, size);
      return;
    }
    for i := 0 to size
      invariant seed == Key(d[0], i)
      invariant forall j :: 0 <= j < i ==> data[j] == Xor(d[j], Key(d[0], j))
      invariant forall j :: i <= j < data.Length ==> data[j] == d[j]
    {
      data[i] := Xor(data[i], seed);
      seed := (seed * MULT + ADD) % 0x1_0000;
    }
  }

  /** unscramble_dp: backward from the last word, which is the seed. */
  method UnscrambleDp(data: array<u16>, size: int)
    requires 0 < size <= data.Length
    modifies data
    ensures data[..] == UnscrambledDp(old(data[..]), size)
  {
    ghost var d := data[..];
    var seed := data[size - 1];
    var i := size - 1;
    while i >= 0
      invariant -1 <= i < size
      invariant seed == Key(d[size - 1], size - 1 - i)
      invariant forall j :: i < j < size ==> data[j] == Xor(d[j], Key(d[size - 1], size - 1 - j))
      invariant forall j :: 0 <= j <= i || size <= j < data.Length ==> data[j] == d[j]
    {
      data[i] := Xor(data[i], seed);
      seed := (seed * MULT + ADD) % 0x1_0000;
      i := i - 1;
    }
  }

  /** The seed's own word is XORed with itself: after `unscramble_pt` the first word is
      0, after `unscramble_dp` the last one. */
  lemma SeedWordCleared(d: seq<u16>, size: int)
    requires 0 < size <= |d|
    ensures UnscrambledPt(d, size)[0] == 0
    ensures UnscrambledDp(d, size)[size - 1] == 0
  {
    XorLaws(d[0], d[0]);
    XorLaws(d[size - 1], d[size - 1]);
    assert Key(d[size - 1], size - 1 - (size - 1)) == d[size - 1];
  }

  /** The scrambling the two functions undo: the plaintext XORed with the keystream of
      `seed`, forward from the first word or backward from the last. */
  function ScrambledPt(p: seq<u16>, seed: u16): (r: seq<u16>)
    ensures |r| == |p|
  {
    seq(|p|, i requires 0 <= i < |p| => Xor(p[i], Key(seed, i)))
  }

  function ScrambledDp(p: seq<u16>, seed: u16): (r: seq<u16>)
    ensures |r| == |p|
  {
    seq(|p|, i requires 0 <= i < |p| => Xor(p[i], Key(seed, |p| - 1 - i)))
  }

  /** XORing 0 with a key gives the key. */
  lemma XorZero(k: u16)
    ensures Xor(0, k) == k
  {
    XorLaws(k, k);
    XorLaws(0, k);
    XorLaws(Xor(k, k), k);
  }

  /** A plaintext whose first word is 0, scrambled forward with any seed, is recovered
      by `unscramble_pt`; and unscrambled data scrambled again with its first word
      gives the data back. */
  lemma {:induction false} PtRoundTrip(p: seq<u16>, seed: u16, d: seq<u16>)
    requires 0 < |p| && p[0] == 0 && 0 < |d|
    ensures UnscrambledPt(ScrambledPt(p, seed), |p|) == p
    ensures ScrambledPt(UnscrambledPt(d, |d|), d[0]) == d
  {
    var e := ScrambledPt(p, seed);
    XorZero(seed);
    assert e[0] == seed;
    forall i | 0 <= i < |p|
      ensures UnscrambledPt(e, |p|)[i] == p[i]
    {
      XorLaws(p[i], Key(seed, i));
    }
    forall i | 0 <= i < |d|
      ensures ScrambledPt(UnscrambledPt(d, |d|), d[0])[i] == d[i]
    {
      XorLaws(d[i], Key(d[0], i));
    }
  }

  /** The same for `unscramble_dp`, with the last word as the seed's word. */
  lemma {:induction false} DpRoundTrip(p: seq<u16>, seed: u16, d: seq<u16>)
    requires 0 < |p| && p[|p| - 1] == 0 && 0 < |d|
    ensures UnscrambledDp(ScrambledDp(p, seed), |p|) == p
    ensures ScrambledDp(UnscrambledDp(d, |d|), d[|d| - 1]) == d
  {
    var e := ScrambledDp(p, seed);
    XorZero(seed);
    assert Key(seed, |p| - 1 - (|p| - 1)) == seed;
    assert e[|p| - 1] == seed;
    forall i | 0 <= i < |p|
      ensures UnscrambledDp(e, |p|)[i] == p[i]
    {
      XorLaws(p[i], Key(seed, |p| - 1 - i));
    }
    forall i | 0 <= i < |d|
      ensures ScrambledDp(UnscrambledDp(d, |d|), d[|d| - 1])[i] == d[i]
    {
      XorLaws(d[i], Key(d[|d| - 1], |d| - 1 - i));
    }
  }

  /** The keystream of `unscramble_dp` depends on the last word alone: two buffers of the
      same length that agree there are XORed with the same keys. */
  lemma DpKeystreamFromLastWord(d: seq<u16>, e: seq<u16>, size: int)
    requires 0 < size <= |d| == |e| && d[size - 1] == e[size - 1]
    ensures forall i :: 0 <= i < size ==>
      Xor(UnscrambledDp(d, size)[i], d[i]) == Xor(UnscrambledDp(e, size)[i], e[i])
  {
    forall i | 0 <= i < size
      ensures Xor(UnscrambledDp(d, size)[i], d[i]) == Xor(UnscrambledDp(e, size)[i], e[i])
    {
      var k := Key(d[size - 1], size - 1 - i);
      XorLaws(d[i], k);
      XorLaws(k, d[i]);
      XorLaws(Xor(d[i], k), d[i]);
      XorLaws(e[i], k);
      XorLaws(k, e[i]);
      XorLaws(Xor(e[i], k), e[i]);
    }
  }

  /** The first keys of seed 0: the increment, then one more step. */
  lemma FirstKeys()
    ensures Key(0, 1) == 0x6073
    ensures Key(0, 2) == 0x7B6A
  {
  }
}
