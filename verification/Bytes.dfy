/** Bytes, little-endian words and slices, as the DPU code reads and writes them. */
module Bytes {

  type byte = x: int | 0 <= x < 256

  datatype Option<+T> = None | Some(value: T)

  const TWO_32: int := 0x1_0000_0000

  /** Byte `i` of a memory image; positions outside the image read as zero. */
  function At(d: seq<byte>, i: int): byte {
    if 0 <= i < |d| then d[i] else 0
  }

  /** The four bytes at `p` combined into an unsigned 32-bit value, lowest byte first. */
  function Read32(d: seq<byte>, p: int): (v: int)
    ensures 0 <= v < TWO_32
  {
    At(d, p) + 0x100 * At(d, p + 1) + 0x1_0000 * At(d, p + 2) + 0x100_0000 * At(d, p + 3)
  }

  lemma ConcatAssoc(a: seq<byte>, b: seq<byte>, c: seq<byte>)
    ensures a + b + c == a + (b + c)
  {
  }

  /** Moving `more` from what is still to write to what has been written. */
  lemma Shift(image: seq<byte>, stored: seq<byte>, written: seq<byte>, more: seq<byte>, rest: seq<byte>)
    ensures image + written + more == image + (written + more)
    ensures stored + written + more == stored + (written + more)
    ensures written + (more + rest) == written + more + rest
  {
    ConcatAssoc(image, written, more);
    ConcatAssoc(stored, written, more);
    ConcatAssoc(written, more, rest);
  }

  predicate SameFour(d: seq<byte>, p: int, q: int) {
    At(d, p) == At(d, q) && At(d, p + 1) == At(d, q + 1) && At(d, p + 2) == At(d, q + 2) && At(d, p + 3) == At(d, q + 3)
  }

  lemma LowDigit(a: byte, x: int, b: byte, y: int)
    requires a + 0x100 * x == b + 0x100 * y
    ensures a == b && x == y
  {
  }

  /** Comparing the combined words compares all four bytes. */
  lemma Read32Injective(d: seq<byte>, p: int, q: int)
    ensures Read32(d, p) == Read32(d, q) <==> SameFour(d, p, q)
  {
    if Read32(d, p) == Read32(d, q) {
      LowDigit(At(d, p), At(d, p + 1) + 0x100 * At(d, p + 2) + 0x1_0000 * At(d, p + 3),
               At(d, q), At(d, q + 1) + 0x100 * At(d, q + 2) + 0x1_0000 * At(d, q + 3));
      LowDigit(At(d, p + 1), At(d, p + 2) + 0x100 * At(d, p + 3), At(d, q + 1), At(d, q + 2) + 0x100 * At(d, q + 3));
      LowDigit(At(d, p + 2), At(d, p + 3), At(d, q + 2), At(d, q + 3));
    }
  }

  /** The same inside the sequence, told from its slices. */
  lemma WordsAreSlices(d: seq<byte>, p: nat, q: nat)
    requires p + 4 <= |d| && q + 4 <= |d|
    ensures Read32(d, p) == Read32(d, q) <==> d[p..p + 4] == d[q..q + 4]
  {
    Read32Injective(d, p, q);
    hide Read32;
    var a, b := d[p..p + 4], d[q..q + 4];
    assert a[0] == d[p] && a[1] == d[p + 1] && a[2] == d[p + 2] && a[3] == d[p + 3];
    assert b[0] == d[q] && b[1] == d[q + 1] && b[2] == d[q + 2] && b[3] == d[q + 3];
  }

  lemma Quotient16(v: nat)
    ensures v / 0x1_0000 == v / 0x100 / 0x100
  {
  }

  lemma Quotient24(v: nat)
    ensures v / 0x100_0000 == v / 0x1_0000 / 0x100
  {
  }

  /** A 32-bit value is the sum of its four digits. */
  lemma FourDigits(v: nat)
    requires v < TWO_32
    ensures v == v % 0x100 + 0x100 * (v / 0x100 % 0x100) + 0x1_0000 * (v / 0x1_0000 % 0x100)
                 + 0x100_0000 * (v / 0x100_0000 % 0x100)
  {
    Quotient16(v);
    Quotient24(v);
    var a := v / 0x100;
    var b := a / 0x100;
    assert v == v % 0x100 + 0x100 * a;
    assert a == a % 0x100 + 0x100 * b;
    assert b == b % 0x100 + 0x100 * (b / 0x100);
  }

  /** The low four bytes of a 32-bit value, lowest first. */
  function LittleEndian32(v: int): (s: seq<byte>)
    requires 0 <= v < TWO_32
    ensures |s| == 4
    ensures Read32(s, 0) == v
  {
    FourDigits(v);
    [v % 0x100, v / 0x100 % 0x100, v / 0x1_0000 % 0x100, v / 0x100_0000 % 0x100]
  }
}
