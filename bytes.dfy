/** Byte-level vocabulary shared by every reader in the project: the little-endian
    words a DS file stores, what a C `fread` into a zeroed struct leaves behind, and the
    C conversion of a 32-bit unsigned value to a 32-bit `int`. Bytes and words are the
    numbers they hold. */
module Bytes {

  type byte = x: int | 0 <= x < 0x100

  /** The unsigned C types, as the numbers they hold. */
  type u16 = x: int | 0 <= x < 0x1_0000
  type u32 = x: int | 0 <= x < 0x1_0000_0000

  function Min(a: int, b: int): int { if a < b then a else b }

  /** The bytes an `fread` of `n` bytes at offset `off` delivers: as many of them as the
      file still holds from there on, possibly none. */
  function Slice(s: seq<byte>, off: nat, n: nat): (r: seq<byte>)
    ensures |r| == if off >= |s| then 0 else Min(n, |s| - off)
    ensures forall i :: 0 <= i < |r| ==> r[i] == s[off + i]
    ensures off + n <= |s| ==> r == s[off .. off + n]
  {
    if off >= |s| then [] else s[off .. off + Min(n, |s| - off)]
  }

  function Zeros(n: nat): (r: seq<byte>)
    ensures |r| == n && forall i :: 0 <= i < n ==> r[i] == 0
  {
    seq(n, _ => 0)
  }

  /** A struct of `n` bytes that was zeroed and then filled by a read that may have been
      short: the bytes that arrived, then the zeros that were already there. */
  function Pad(s: seq<byte>, n: nat): (r: seq<byte>)
    requires |s| <= n
    ensures |r| == n && r[..|s|] == s
    ensures forall i :: |s| <= i < n ==> r[i] == 0
  {
    s + Zeros(n - |s|)
  }

  lemma {:induction false} PadFull(s: seq<byte>)
    ensures Pad(s, |s|) == s
  {
    assert Zeros(0) == [];
  }

  /** A `u16` stored little-endian at `off`. */
  function Le16(s: seq<byte>, off: nat): u16
    requires off + 2 <= |s|
  {
    s[off] as int + 0x100 * (s[off + 1] as int)
  }

  /** A `u32` stored little-endian at `off`. */
  function Le32(s: seq<byte>, off: nat): u32
    requires off + 4 <= |s|
  {
    s[off] as int + 0x100 * (s[off + 1] as int)
    + 0x1_0000 * (s[off + 2] as int) + 0x100_0000 * (s[off + 3] as int)
  }

  /** A word inside a struct filled by a read at `at` that reached it is the word the
      file holds there. */
  lemma PaddedWord(file: seq<byte>, at: nat, n: nat, k: nat)
    requires k + 4 <= n && at + k + 4 <= |file|
    ensures Le32(Pad(Slice(file, at, n), n), k) == Le32(file, at + k)
  {
    var s := Slice(file, at, n);
    var p := Pad(s, n);
    assert k + 4 <= |s|;
    assert p[..|s|] == s;
    assert p[k] == file[at + k] && p[k + 1] == file[at + k + 1];
    assert p[k + 2] == file[at + k + 2] && p[k + 3] == file[at + k + 3];
  }

  /** A word read out of a slice of the file is the word the file holds there. */
  lemma Le32Sub(s: seq<byte>, lo: nat, hi: nat, k: nat)
    requires lo <= hi <= |s| && k + 4 <= hi - lo
    ensures Le32(s[lo .. hi], k) == Le32(s, lo + k)
  {
    var b := s[lo .. hi];
    assert b[k] == s[lo + k] && b[k + 1] == s[lo + k + 1];
    assert b[k + 2] == s[lo + k + 2] && b[k + 3] == s[lo + k + 3];
  }

  /** The value C gives a `u32` stored into a 32-bit `int` (the two's-complement
      reading of the same bits). */
  function Int32(x: u32): (r: int)
    ensures -0x8000_0000 <= r < 0x8000_0000
    ensures r % 0x1_0000_0000 == x
  {
    if x < 0x8000_0000 then x else x - 0x1_0000_0000
  }

  /** Division with remainder is unique. */
  lemma DivModUnique(a: int, b: int, q: int, r: int)
    requires 0 < b && 0 <= r < b && a == q * b + r
    ensures a / b == q && a % b == r
  {
    var q', r' := a / b, a % b;
    assert (q - q') * b == r' - r;
    if q - q' >= 1 {
      MulMono(1, q - q', b);
      assert false;
    }
    if q' - q >= 1 {
      MulMono(1, q' - q, b);
      assert false;
    }
  }

  /** Multiplication by a non-negative number is monotonic. */
  lemma MulMono(a: int, b: int, c: int)
    requires 0 <= a <= b && 0 <= c
    ensures a * c <= b * c
  {
    assert b * c == a * c + (b - a) * c;
  }
}
