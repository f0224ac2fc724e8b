/** Allocation bitmaps: bytes of eight bits, and runs of bits in a sequence of such bytes. */
module Bitmap {

  const FULL: bv8 := 0xFF

  /** `1 << k` in a byte. */
  function Mask(k: nat): bv8
    requires k < 8
  {
    if k == 0 then 1 else if k == 1 then 2 else if k == 2 then 4 else if k == 3 then 8
    else if k == 4 then 16 else if k == 5 then 32 else if k == 6 then 64 else 128
  }

  predicate Bit(b: bv8, k: nat)
    requires k < 8
  {
    b & Mask(k) != 0
  }

  lemma FullByte(b: bv8)
    ensures b == FULL <==> forall k :: 0 <= k < 8 ==> Bit(b, k)
  {
    if forall k :: 0 <= k < 8 ==> Bit(b, k) {
      assert Bit(b, 0) && Bit(b, 1) && Bit(b, 2) && Bit(b, 3) && Bit(b, 4) && Bit(b, 5) && Bit(b, 6) && Bit(b, 7);
    }
  }

  lemma SameByte(a: bv8, b: bv8)
    requires forall k :: 0 <= k < 8 ==> Bit(a, k) == Bit(b, k)
    ensures a == b
  {
    assert Bit(a, 0) == Bit(b, 0) && Bit(a, 1) == Bit(b, 1) && Bit(a, 2) == Bit(b, 2) && Bit(a, 3) == Bit(b, 3);
    assert Bit(a, 4) == Bit(b, 4) && Bit(a, 5) == Bit(b, 5) && Bit(a, 6) == Bit(b, 6) && Bit(a, 7) == Bit(b, 7);
  }

  // ---- bits of a sequence of bytes ----

  predicate Used(m: seq<bv8>, i: nat)
    requires i < 8 * |m|
  {
    Bit(m[i / 8], i % 8)
  }

  function SetOne(m: seq<bv8>, i: nat): (r: seq<bv8>)
    requires i < 8 * |m|
    ensures |r| == |m|
  {
    m[i / 8 := m[i / 8] | Mask(i % 8)]
  }

  function ClearOne(m: seq<bv8>, i: nat): (r: seq<bv8>)
    requires i < 8 * |m|
    ensures |r| == |m|
  {
    m[i / 8 := m[i / 8] & !Mask(i % 8)]
  }

  lemma UsedOfSetOne(m: seq<bv8>, i: nat, j: nat)
    requires i < 8 * |m| && j < 8 * |m|
    ensures Used(SetOne(m, i), j) <==> j == i || Used(m, j)
  {
  }

  lemma UsedOfClearOne(m: seq<bv8>, i: nat, j: nat)
    requires i < 8 * |m| && j < 8 * |m|
    ensures Used(ClearOne(m, i), j) <==> j != i && Used(m, j)
  {
  }

  /** Marking `n` bits, the highest first. */
  function SetRun(m: seq<bv8>, i: nat, n: nat): (r: seq<bv8>)
    requires i + n <= 8 * |m|
    ensures |r| == |m|
    decreases n, m
  {
    if n == 0 then m else SetRun(SetOne(m, i + n - 1), i, n - 1)
  }

  /** Clearing `n` bits, the lowest first. */
  function ClearRun(m: seq<bv8>, i: nat, n: nat): (r: seq<bv8>)
    requires i + n <= 8 * |m|
    ensures |r| == |m|
    decreases n, m
  {
    if n == 0 then m else ClearRun(ClearOne(m, i), i + 1, n - 1)
  }

  lemma {:induction false} UsedOfSetRun(m: seq<bv8>, i: nat, n: nat, j: nat)
    requires i + n <= 8 * |m| && j < 8 * |m|
    ensures Used(SetRun(m, i, n), j) <==> i <= j < i + n || Used(m, j)
    decreases n
  {
    hide Used, SetOne;
    if n > 0 {
      UsedOfSetRun(SetOne(m, i + n - 1), i, n - 1, j);
      UsedOfSetOne(m, i + n - 1, j);
    }
  }

  lemma {:induction false} UsedOfClearRun(m: seq<bv8>, i: nat, n: nat, j: nat)
    requires i + n <= 8 * |m| && j < 8 * |m|
    ensures Used(ClearRun(m, i, n), j) <==> !(i <= j < i + n) && Used(m, j)
    decreases n
  {
    hide Used, ClearOne;
    if n > 0 {
      UsedOfClearRun(ClearOne(m, i), i + 1, n - 1, j);
      UsedOfClearOne(m, i, j);
    }
  }

  /** A bitmap is determined by its bits. */
  lemma SameBits(a: seq<bv8>, b: seq<bv8>)
    requires |a| == |b| && forall i :: 0 <= i < 8 * |a| ==> Used(a, i) == Used(b, i)
    ensures a == b
  {
    forall e | 0 <= e < |a| ensures a[e] == b[e] {
      forall k | 0 <= k < 8 ensures Bit(a[e], k) == Bit(b[e], k) {
        var i := 8 * e + k;
        assert i / 8 == e && i % 8 == k;
        assert Used(a, i) == Used(b, i);
      }
      SameByte(a[e], b[e]);
    }
  }

  predicate FreeRun(m: seq<bv8>, i: nat, n: nat)
    requires i + n <= 8 * |m|
  {
    forall j :: i <= j < i + n ==> !Used(m, j)
  }

  // ---- counting ----

  function CountUsed(m: seq<bv8>, k: nat): nat
    requires k <= 8 * |m|
    decreases k, m
  {
    if k == 0 then 0 else CountUsed(m, k - 1) + if Used(m, k - 1) then 1 else 0
  }

  /** The number of bits set in the whole bitmap. */
  function CountAll(m: seq<bv8>): nat {
    CountUsed(m, 8 * |m|)
  }

  lemma {:induction false} CountBound(m: seq<bv8>, k: nat)
    requires k <= 8 * |m|
    ensures CountUsed(m, k) <= k
    decreases k
  {
    hide Used;
    if k > 0 { CountBound(m, k - 1); }
  }

  lemma {:induction false} CountOfSetOne(m: seq<bv8>, i: nat, k: nat)
    requires i < 8 * |m| && k <= 8 * |m|
    ensures CountUsed(SetOne(m, i), k) == CountUsed(m, k) + if i < k && !Used(m, i) then 1 else 0
    decreases k
  {
    hide Used, SetOne;
    if k > 0 {
      CountOfSetOne(m, i, k - 1);
      UsedOfSetOne(m, i, k - 1);
    }
  }

  lemma {:induction false} CountOfClearOne(m: seq<bv8>, i: nat, k: nat)
    requires i < 8 * |m| && k <= 8 * |m|
    ensures CountUsed(ClearOne(m, i), k) == CountUsed(m, k) - if i < k && Used(m, i) then 1 else 0
    decreases k
  {
    hide Used, ClearOne;
    if k > 0 {
      CountOfClearOne(m, i, k - 1);
      UsedOfClearOne(m, i, k - 1);
    }
  }

  /** Marking a free run raises the count by its length. */
  lemma {:induction false} CountOfSetRun(m: seq<bv8>, i: nat, n: nat)
    requires i + n <= 8 * |m| && FreeRun(m, i, n)
    ensures CountAll(SetRun(m, i, n)) == CountAll(m) + n
    decreases n
  {
    hide Used, SetOne, CountUsed;
    if n > 0 {
      var m' := SetOne(m, i + n - 1);
      forall j | i <= j < i + n - 1 ensures !Used(m', j) { UsedOfSetOne(m, i + n - 1, j); }
      CountOfSetRun(m', i, n - 1);
      CountOfSetOne(m, i + n - 1, 8 * |m|);
    }
  }

  lemma {:induction false} CountOfClearRun(m: seq<bv8>, i: nat, n: nat)
    requires i + n <= 8 * |m| && forall j :: i <= j < i + n ==> Used(m, j)
    ensures CountAll(ClearRun(m, i, n)) == CountAll(m) - n
    decreases n
  {
    hide Used, ClearOne, CountUsed;
    if n > 0 {
      var m' := ClearOne(m, i);
      forall j | i + 1 <= j < i + n ensures Used(m', j) { UsedOfClearOne(m, i, j); }
      CountOfClearRun(m', i + 1, n - 1);
      CountOfClearOne(m, i, 8 * |m|);
    }
  }

  /** Marking a free run and clearing it again restores the bitmap byte for byte. */
  lemma ClearUndoesSet(m: seq<bv8>, i: nat, n: nat)
    requires i + n <= 8 * |m| && FreeRun(m, i, n)
    ensures ClearRun(SetRun(m, i, n), i, n) == m
  {
    hide Used, SetRun, ClearRun;
    forall j | 0 <= j < 8 * |m| ensures Used(ClearRun(SetRun(m, i, n), i, n), j) == Used(m, j) {
      UsedOfSetRun(m, i, n, j);
      UsedOfClearRun(SetRun(m, i, n), i, n, j);
    }
    SameBits(ClearRun(SetRun(m, i, n), i, n), m);
  }
}
