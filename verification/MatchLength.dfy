/** The word-at-a-time match length of the compressor and the byte-by-byte one it stands for. */
module MatchLength {
  import opened Bytes

  /** The number of trailing zero bits of the exclusive or of two different words. */
  function XorTrailingZeros(a: nat, b: nat): nat
    requires a != b
    decreases a + b
  {
    if a % 2 != b % 2 then 0 else 1 + XorTrailingZeros(a / 2, b / 2)
  }

  /** What is left of `find_match_length` once fewer than four equal bytes remain below the limit.
      `ctzOfZero` stands for the value of `__builtin_ctz(0)`, which C leaves undefined. */
  function TailMatch(d: seq<byte>, s1: nat, s2: nat, limit: nat, ctzOfZero: nat): (r: nat)
    requires s2 <= limit
    ensures r <= limit - s2
  {
    var a, b := Read32(d, s1), Read32(d, s2);
    var zeros := if a == b then ctzOfZero else XorTrailingZeros(a, b);
    if zeros / 8 < limit - s2 then zeros / 8 else limit - s2
  }

  /** `find_match_length`: four bytes at a time, then the tail. */
  function FindMatchLength(d: seq<byte>, s1: nat, s2: nat, limit: nat, ctzOfZero: nat): (r: nat)
    requires s2 <= limit
    ensures r <= limit - s2
    decreases limit - s2
  {
    if s2 + 4 <= limit && Read32(d, s2) == Read32(d, s1) then
      4 + FindMatchLength(d, s1 + 4, s2 + 4, limit, ctzOfZero)
    else
      TailMatch(d, s1, s2, limit, ctzOfZero)
  }

  /** The length of the common prefix of the two positions, capped at the limit. */
  function CommonPrefix(d: seq<byte>, s1: nat, s2: nat, limit: nat): (r: nat)
    requires s2 <= limit
    ensures r <= limit - s2
    decreases limit - s2
  {
    if s2 < limit && At(d, s1) == At(d, s2) then 1 + CommonPrefix(d, s1 + 1, s2 + 1, limit) else 0
  }

  /** Every byte of the common prefix agrees. */
  lemma {:induction false} CommonPrefixAgrees(d: seq<byte>, s1: nat, s2: nat, limit: nat, i: nat)
    requires s2 <= limit
    requires i < CommonPrefix(d, s1, s2, limit)
    ensures At(d, s1 + i) == At(d, s2 + i)
    decreases i
  {
    if i > 0 { CommonPrefixAgrees(d, s1 + 1, s2 + 1, limit, i - 1); }
  }

  // ---- trailing zeros and whole bytes ----

  function LowBits(a: nat, k: nat): (r: nat)
  {
    if k == 0 then 0 else a % 2 + 2 * LowBits(a / 2, k - 1)
  }

  function Shifted(a: nat, k: nat): nat {
    if k == 0 then a else Shifted(a / 2, k - 1)
  }

  function Two(k: nat): (r: nat)
    ensures r >= 1
  {
    if k == 0 then 1 else 2 * Two(k - 1)
  }

  lemma OneMoreBit(a: nat, low: nat, two: nat, high: nat)
    requires a / 2 == low + two * high
    ensures a == a % 2 + 2 * low + 2 * two * high
  {
    assert 2 * (two * high) == 2 * two * high;
  }

  lemma {:induction false} SplitAt(a: nat, k: nat)
    ensures a == LowBits(a, k) + Two(k) * Shifted(a, k)
    ensures LowBits(a, k) < Two(k)
  {
    if k > 0 {
      SplitAt(a / 2, k - 1);
      OneMoreBit(a, LowBits(a / 2, k - 1), Two(k - 1), Shifted(a / 2, k - 1));
    }
  }

  lemma SplitByte(x: byte, a: nat)
    ensures LowBits(x + 256 * a, 8) == x && Shifted(x + 256 * a, 8) == a
  {
    SplitAt(x + 256 * a, 8);
    assert Two(4) == 16;
    assert Two(8) == 256;
    LowDigit(x, a, LowBits(x + 256 * a, 8), Shifted(x + 256 * a, 8));
  }

  lemma {:induction false} XorSkip(a: nat, b: nat, k: nat)
    requires a != b
    ensures LowBits(a, k) == LowBits(b, k) ==>
              Shifted(a, k) != Shifted(b, k) &&
              XorTrailingZeros(a, b) == k + XorTrailingZeros(Shifted(a, k), Shifted(b, k))
    ensures LowBits(a, k) != LowBits(b, k) ==> XorTrailingZeros(a, b) < k
  {
    if k > 0 && a % 2 == b % 2 { XorSkip(a / 2, b / 2, k - 1); }
  }

  lemma XorByte(x: byte, a: nat, y: byte, b: nat)
    requires x + 256 * a != y + 256 * b
    ensures x == y ==> a != b && XorTrailingZeros(x + 256 * a, y + 256 * b) == 8 + XorTrailingZeros(a, b)
    ensures x != y ==> XorTrailingZeros(x + 256 * a, y + 256 * b) < 8
  {
    hide XorTrailingZeros;
    SplitByte(x, a);
    SplitByte(y, b);
    XorSkip(x + 256 * a, y + 256 * b, 8);
  }

  /** The first of four positions where two words differ. */
  function FirstDifference(d: seq<byte>, p: int, q: int): nat {
    if At(d, p) != At(d, q) then 0
    else if At(d, p + 1) != At(d, q + 1) then 1
    else if At(d, p + 2) != At(d, q + 2) then 2
    else 3
  }

  lemma XorWord(x0: byte, x1: byte, x2: byte, x3: byte, y0: byte, y1: byte, y2: byte, y3: byte)
    requires !(x0 == y0 && x1 == y1 && x2 == y2 && x3 == y3)
    ensures var a, b := x0 + 256 * (x1 + 256 * (x2 + 256 * x3)), y0 + 256 * (y1 + 256 * (y2 + 256 * y3));
            var n := if x0 != y0 then 0 else if x1 != y1 then 1 else if x2 != y2 then 2 else 3;
            a != b && 8 * n <= XorTrailingZeros(a, b) < 8 * n + 8
  {
    hide XorTrailingZeros;
    var a2: nat, b2: nat := x2 + 256 * x3, y2 + 256 * y3;
    var a1: nat, b1: nat := x1 + 256 * a2, y1 + 256 * b2;
    if x0 + 256 * a1 == y0 + 256 * b1 { LowDigit(x0, a1, y0, b1); }
    XorByte(x0, a1, y0, b1);
    if x0 == y0 {
      if a1 == b1 { LowDigit(x1, a2, y1, b2); }
      XorByte(x1, a2, y1, b2);
      if x1 == y1 {
        if a2 == b2 { LowDigit(x2, x3, y2, y3); }
        XorByte(x2, x3, y2, y3);
        if x2 == y2 { XorByte(x3, 0, y3, 0); }
      }
    }
  }

  /** The trailing zeros of the exclusive or, in whole bytes, are the leading equal bytes. */
  lemma XorCountsBytes(d: seq<byte>, p: int, q: int)
    requires Read32(d, p) != Read32(d, q)
    ensures XorTrailingZeros(Read32(d, p), Read32(d, q)) / 8 == FirstDifference(d, p, q)
  {
    XorWord(At(d, p), At(d, p + 1), At(d, p + 2), At(d, p + 3), At(d, q), At(d, q + 1), At(d, q + 2), At(d, q + 3));
  }

  // ---- the two match lengths ----

  lemma CommonPrefixFour(d: seq<byte>, s1: nat, s2: nat, limit: nat)
    requires s2 + 4 <= limit && SameFour(d, s1, s2)
    ensures CommonPrefix(d, s1, s2, limit) == 4 + CommonPrefix(d, s1 + 4, s2 + 4, limit)
  {
    assert CommonPrefix(d, s1 + 2, s2 + 2, limit) == 2 + CommonPrefix(d, s1 + 4, s2 + 4, limit);
  }

  lemma CommonPrefixTail(d: seq<byte>, s1: nat, s2: nat, limit: nat)
    requires s2 <= limit
    requires SameFour(d, s1, s2) ==> limit < s2 + 4
    ensures CommonPrefix(d, s1, s2, limit) ==
            if SameFour(d, s1, s2) || limit - s2 < FirstDifference(d, s1, s2) then limit - s2
            else FirstDifference(d, s1, s2)
  {
    if s2 < limit && At(d, s1) == At(d, s2) {
      if s2 + 1 < limit && At(d, s1 + 1) == At(d, s2 + 1) {
        if s2 + 2 < limit && At(d, s1 + 2) == At(d, s2 + 2) {
          assert CommonPrefix(d, s1 + 3, s2 + 3, limit) == 0;
          assert CommonPrefix(d, s1 + 2, s2 + 2, limit) == 1;
          assert CommonPrefix(d, s1 + 1, s2 + 1, limit) == 2;
        }
      }
    }
  }

  /** The case in which the undefined `__builtin_ctz(0)` cuts a match short: everything up to the limit matches,
      so do the bytes read beyond it, and the value found is less than the bytes still to count. */
  predicate CutShort(d: seq<byte>, s1: nat, s2: nat, limit: nat, ctzOfZero: nat)
    requires s2 <= limit
  {
    var rest := (limit - s2) % 4;
    && CommonPrefix(d, s1, s2, limit) == limit - s2
    && SameFour(d, s1 + (limit - s2) - rest, limit - rest)
    && ctzOfZero / 8 < rest
  }

  lemma CutShortFour(d: seq<byte>, s1: nat, s2: nat, limit: nat, ctzOfZero: nat)
    requires s2 + 4 <= limit && SameFour(d, s1, s2)
    ensures CutShort(d, s1, s2, limit, ctzOfZero) <==> CutShort(d, s1 + 4, s2 + 4, limit, ctzOfZero)
  {
    CommonPrefixFour(d, s1, s2, limit);
    var rest, rest' := (limit - s2) % 4, (limit - s2 - 4) % 4;
    assert rest == rest';
    assert s1 + (limit - s2) - rest == s1 + 4 + (limit - s2 - 4) - rest';
  }

  /** Word-at-a-time matching never exceeds the common prefix, and equals it except in the one undefined case. */
  lemma {:induction false} MatchIsCommonPrefix(d: seq<byte>, s1: nat, s2: nat, limit: nat, ctzOfZero: nat)
    requires s2 <= limit
    ensures FindMatchLength(d, s1, s2, limit, ctzOfZero) <= CommonPrefix(d, s1, s2, limit)
    ensures FindMatchLength(d, s1, s2, limit, ctzOfZero) == CommonPrefix(d, s1, s2, limit)
            <==> !CutShort(d, s1, s2, limit, ctzOfZero)
    decreases limit - s2
  {
    Read32Injective(d, s1, s2);
    if s2 + 4 <= limit && Read32(d, s2) == Read32(d, s1) {
      CommonPrefixFour(d, s1, s2, limit);
      MatchIsCommonPrefix(d, s1 + 4, s2 + 4, limit, ctzOfZero);
      CutShortFour(d, s1, s2, limit, ctzOfZero);
    } else {
      CommonPrefixTail(d, s1, s2, limit);
      if Read32(d, s1) != Read32(d, s2) {
        XorCountsBytes(d, s1, s2);
      } else {
        assert (limit - s2) % 4 == limit - s2;
      }
    }
  }

  /** A `__builtin_ctz(0)` of 24 or more, as hardware that counts 32 gives, is never cut short. */
  lemma MatchIsExact(d: seq<byte>, s1: nat, s2: nat, limit: nat, ctzOfZero: nat)
    requires s2 <= limit && ctzOfZero >= 24
    ensures FindMatchLength(d, s1, s2, limit, ctzOfZero) == CommonPrefix(d, s1, s2, limit)
  {
    MatchIsCommonPrefix(d, s1, s2, limit, ctzOfZero);
  }

  /** A `__builtin_ctz(0)` of zero, on eight equal bytes: nothing matches although three bytes do. */
  lemma CutShortHappens(d: seq<byte>)
    requires d == [7, 7, 7, 7, 7, 7, 7, 7]
    ensures FindMatchLength(d, 0, 1, 4, 0) == 0 && CommonPrefix(d, 0, 1, 4) == 3 && CutShort(d, 0, 1, 4, 0)
  {
    assert CommonPrefix(d, 3, 4, 4) == 0;
    assert CommonPrefix(d, 2, 3, 4) == 1;
    assert CommonPrefix(d, 1, 2, 4) == 2;
  }

  /** Whatever `__builtin_ctz(0)` yields, at most three matching bytes are missed. */
  lemma {:induction false} MatchIsNearlyCommonPrefix(d: seq<byte>, s1: nat, s2: nat, limit: nat, ctzOfZero: nat)
    requires s2 <= limit
    ensures FindMatchLength(d, s1, s2, limit, ctzOfZero) + 3 >= CommonPrefix(d, s1, s2, limit)
    decreases limit - s2
  {
    Read32Injective(d, s1, s2);
    if s2 + 4 <= limit && Read32(d, s2) == Read32(d, s1) {
      CommonPrefixFour(d, s1, s2, limit);
      MatchIsNearlyCommonPrefix(d, s1 + 4, s2 + 4, limit, ctzOfZero);
    } else {
      CommonPrefixTail(d, s1, s2, limit);
      if Read32(d, s1) != Read32(d, s2) { XorCountsBytes(d, s1, s2); }
    }
  }
}
