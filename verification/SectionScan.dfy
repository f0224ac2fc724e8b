/** The search of one 512-block section for consecutive free blocks, as find_free_blocks_l2 performs it. */
module SectionScan {
  import opened Bytes
  import opened Bitmap

  /** `ALLOC_TABLE_L2_ENTRIES_PER_SECTION` and the blocks they cover. */
  const SECTION_BYTES: nat := 64
  const SECTION_BLOCKS: nat := 512

  /** The block remembered as the first and the one at which the count was reached. */
  datatype Run = Run(first: nat, last: nat)

  /** The scan from position `p` with `found` free bits counted since `first`. A used bit resets the count; a full
      byte is skipped without resetting it. */
  function ScanFrom(section: seq<bv8>, n: nat, p: nat, found: nat, first: nat): (r: Option<Run>)
    requires |section| == SECTION_BYTES && p <= SECTION_BLOCKS
    ensures r.Some? ==> p <= r.value.last < SECTION_BLOCKS
    decreases SECTION_BLOCKS - p, section
  {
    if p == SECTION_BLOCKS then None
    else if p % 8 == 0 && section[p / 8] == FULL then ScanFrom(section, n, p + 8, found, first)
    else if Used(section, p) then ScanFrom(section, n, p + 1, 0, first)
    else
      var first' := if found == 0 then p else first;
      if found + 1 == n then Some(Run(first', p)) else ScanFrom(section, n, p + 1, found + 1, first')
  }

  function Scan(section: seq<bv8>, n: nat): (r: Option<Run>)
    requires |section| == SECTION_BYTES
    ensures r.Some? ==> r.value.last < SECTION_BLOCKS
  {
    ScanFrom(section, n, 0, 0, 0)
  }

  lemma FullByteUsed(section: seq<bv8>, p: nat, j: nat)
    requires |section| == SECTION_BYTES && p < SECTION_BLOCKS && p % 8 == 0 && section[p / 8] == FULL && p <= j < p + 8
    ensures Used(section, j)
  {
    FullByte(section[p / 8]);
    assert j / 8 == p / 8;
  }

  // ---- windows of free blocks ----

  /** The number of free blocks from `a` up to, but not including, `q`. */
  function FreeIn(section: seq<bv8>, a: nat, q: nat): (r: nat)
    requires |section| == SECTION_BYTES && q <= SECTION_BLOCKS
    ensures a <= q ==> r <= q - a
    decreases q, section
  {
    if q <= a then 0 else FreeIn(section, a, q - 1) + if Used(section, q - 1) then 0 else 1
  }

  /** Block `b` is in use and its byte is not full: a block at which a count starts anew. */
  predicate Breaks(section: seq<bv8>, b: nat)
    requires |section| == SECTION_BYTES
  {
    b < SECTION_BLOCKS && Used(section, b) && section[b / 8] != FULL
  }

  /** `n` free blocks from `a` to `q`, both included, with nothing but full bytes between them. */
  ghost predicate Window(section: seq<bv8>, n: nat, a: nat, q: nat)
    requires |section| == SECTION_BYTES
  {
    && a <= q < SECTION_BLOCKS && !Used(section, a) && !Used(section, q) && FreeIn(section, a, q + 1) == n
    && forall b :: a <= b <= q ==> !Breaks(section, b)
  }

  ghost predicate HasWindow(section: seq<bv8>, n: nat)
    requires |section| == SECTION_BYTES
  {
    exists a: nat, q: nat :: Window(section, n, a, q)
  }

  lemma {:induction false} FreeInSplit(section: seq<bv8>, a: nat, b: nat, q: nat)
    requires |section| == SECTION_BYTES && a <= b <= q <= SECTION_BLOCKS
    ensures FreeIn(section, a, q) == FreeIn(section, a, b) + FreeIn(section, b, q)
    decreases q
  {
    hide Used;
    if b < q { FreeInSplit(section, a, b, q - 1); }
  }

  /** The count tells free runs, and runs of blocks in use. */
  lemma {:induction false} FreeInExtremes(section: seq<bv8>, a: nat, q: nat)
    requires |section| == SECTION_BYTES && a <= q <= SECTION_BLOCKS
    ensures FreeIn(section, a, q) == q - a <==> FreeRun(section, a, q - a)
    ensures FreeIn(section, a, q) == 0 <==> forall b :: a <= b < q ==> Used(section, b)
    decreases q
  {
    hide Used;
    if a < q { FreeInExtremes(section, a, q - 1); }
  }

  /** A window is determined by its last block and its size: one that starts earlier counts more. */
  lemma WindowStart(section: seq<bv8>, a: nat, b: nat, q: nat)
    requires |section| == SECTION_BYTES && a < b <= q <= SECTION_BLOCKS && !Used(section, a)
    ensures FreeIn(section, a, q) > FreeIn(section, b, q)
  {
    FreeInSplit(section, a, b, q);
    FreeInExtremes(section, a, b);
  }

  lemma FreeRunIsWindow(section: seq<bv8>, n: nat, a: nat)
    requires |section| == SECTION_BYTES && n > 0 && a + n <= SECTION_BLOCKS && FreeRun(section, a, n)
    ensures Window(section, n, a, a + n - 1)
  {
    FreeInExtremes(section, a, a + n);
  }

  // ---- the scan finds the first window ----

  /** A window cannot begin before `from`: every free block there is followed by a break. */
  ghost predicate BeginsAt(section: seq<bv8>, from: nat)
    requires |section| == SECTION_BYTES && from <= SECTION_BLOCKS
  {
    forall a: nat :: a < from && !Used(section, a) ==> exists b :: a <= b < from && Breaks(section, b)
  }

  /** No window ends before `p`. */
  ghost predicate NoneBefore(section: seq<bv8>, n: nat, p: nat)
    requires |section| == SECTION_BYTES
  {
    forall a: nat, q: nat :: Window(section, n, a, q) ==> p <= q
  }

  /** `found` free blocks from `from` up to `p`, without a break. */
  ghost predicate Open(section: seq<bv8>, from: nat, p: nat, found: nat)
    requires |section| == SECTION_BYTES && p <= SECTION_BLOCKS
  {
    && from <= p && FreeIn(section, from, p) == found && (from < p ==> !Used(section, from))
    && forall b :: from <= b < p ==> !Breaks(section, b)
  }

  lemma FullByteCounts(section: seq<bv8>, p: nat)
    requires |section| == SECTION_BYTES && p < SECTION_BLOCKS && p % 8 == 0 && section[p / 8] == FULL
    ensures p + 8 <= SECTION_BLOCKS && FreeIn(section, p, p + 8) == 0
    ensures forall b :: p <= b < p + 8 ==> !Breaks(section, b)
  {
    hide FreeIn;
    forall b | p <= b < p + 8 ensures Used(section, b) && !Breaks(section, b) { FullByteUsed(section, p, b); }
    FreeInExtremes(section, p, p + 8);
  }

  lemma OpenPastFull(section: seq<bv8>, from: nat, p: nat, found: nat)
    requires |section| == SECTION_BYTES && p < SECTION_BLOCKS && p % 8 == 0 && section[p / 8] == FULL
    requires Open(section, from, p, found)
    ensures p + 8 <= SECTION_BLOCKS && (from < p ==> Open(section, from, p + 8, found))
  {
    hide Used, Breaks, FreeIn;
    FullByteCounts(section, p);
    FreeInSplit(section, from, p, p + 8);
  }

  lemma BeginsPastFull(section: seq<bv8>, n: nat, p: nat)
    requires |section| == SECTION_BYTES && p < SECTION_BLOCKS && p % 8 == 0 && section[p / 8] == FULL
    ensures p + 8 <= SECTION_BLOCKS
    ensures BeginsAt(section, p) ==> BeginsAt(section, p + 8)
    ensures NoneBefore(section, n, p) ==> NoneBefore(section, n, p + 8)
  {
    forall b | p <= b < p + 8 ensures Used(section, b) { FullByteUsed(section, p, b); }
    hide Used, Breaks, FreeIn;
  }

  lemma OpenPastFree(section: seq<bv8>, from: nat, p: nat, found: nat)
    requires |section| == SECTION_BYTES && p < SECTION_BLOCKS && !Used(section, p) && Open(section, from, p, found)
    ensures Open(section, from, p + 1, found + 1)
  {
  }

  /** A block that is free ends a window exactly when it completes the count. */
  lemma NonePastFree(section: seq<bv8>, n: nat, from: nat, p: nat, found: nat)
    requires |section| == SECTION_BYTES && p < SECTION_BLOCKS && !Used(section, p) && Open(section, from, p, found)
    requires BeginsAt(section, from) && NoneBefore(section, n, p) && found < n
    ensures if found + 1 == n then Window(section, n, from, p) else NoneBefore(section, n, p + 1)
  {
    OpenPastFree(section, from, p, found);
    hide Used, Breaks, FreeIn;
    forall a: nat | Window(section, n, a, p) ensures a == from {
      if from < a { WindowStart(section, from, a, p + 1); }
    }
  }

  /** The scan looks at single bits only inside a byte that is not full. */
  predicate AtByte(section: seq<bv8>, p: nat)
    requires |section| == SECTION_BYTES && p <= SECTION_BLOCKS
  {
    p % 8 == 0 || section[p / 8] != FULL
  }

  lemma NextBit(section: seq<bv8>, p: nat)
    requires |section| == SECTION_BYTES && p < SECTION_BLOCKS && AtByte(section, p)
    requires !(p % 8 == 0 && section[p / 8] == FULL)
    ensures AtByte(section, p + 1) && (Used(section, p) ==> Breaks(section, p))
  {
    hide Bit;
    assert if p % 8 == 7 then (p + 1) % 8 == 0 else (p + 1) / 8 == p / 8;
  }

  /** What the scan should return: the window that ends first, or nothing if there is none. */
  ghost predicate FirstWindow(section: seq<bv8>, n: nat, r: Option<Run>)
    requires |section| == SECTION_BYTES
  {
    match r
    case None => !HasWindow(section, n)
    case Some(run) => Window(section, n, run.first, run.last) && NoneBefore(section, n, run.last)
  }

  lemma {:induction false} ScanFromWindow(section: seq<bv8>, n: nat, p: nat, found: nat, first: nat)
    requires |section| == SECTION_BYTES && p <= SECTION_BLOCKS && AtByte(section, p)
    requires found < n && (found > 0 ==> first < p)
    requires var from := if found == 0 then p else first; BeginsAt(section, from) && Open(section, from, p, found)
    requires NoneBefore(section, n, p)
    ensures FirstWindow(section, n, ScanFrom(section, n, p, found, first))
    decreases SECTION_BLOCKS - p
  {
    var from := if found == 0 then p else first;
    if p == SECTION_BLOCKS {
      hide Used, FreeIn, Breaks;
      assert !HasWindow(section, n);
    } else {
      hide Used, Window, BeginsAt, NoneBefore, Open, Breaks, AtByte, HasWindow;
      if p % 8 == 0 && section[p / 8] == FULL {
        OpenPastFull(section, from, p, found);
        BeginsPastFull(section, n, p);
        AtNextByte(section, p);
        ScanFromWindow(section, n, p + 8, found, first);
      } else {
        NextBit(section, p);
        if Used(section, p) {
          ScanFromWindow(section, n, p + 1, 0, first);
        } else {
          OpenPastFree(section, from, p, found);
          NonePastFree(section, n, from, p, found);
          if found + 1 < n { ScanFromWindow(section, n, p + 1, found + 1, from); }
        }
      }
    }
  }

  lemma AtNextByte(section: seq<bv8>, p: nat)
    requires |section| == SECTION_BYTES && p + 8 <= SECTION_BLOCKS && p % 8 == 0
    ensures AtByte(section, p + 8)
  {
  }

  /** The scan succeeds exactly when the section has a window of `n` free blocks, and reports the one that ends
      first. */
  lemma ScanWindow(section: seq<bv8>, n: nat)
    requires |section| == SECTION_BYTES && n > 0
    ensures FirstWindow(section, n, Scan(section, n))
  {
    hide FreeIn, Breaks, Used, ScanFrom, FirstWindow;
    ScanFromWindow(section, n, 0, 0, 0);
  }

  /** The scan returns a free run exactly when it stopped n - 1 blocks after the first one it remembered; otherwise a
      block in use lies among the n blocks it reports. */
  lemma ScanSound(section: seq<bv8>, n: nat)
    requires |section| == SECTION_BYTES && n > 0 && Scan(section, n).Some?
    ensures var r := Scan(section, n).value;
            && r.last + 1 >= r.first + n && !Used(section, r.first) && !Used(section, r.last)
            && (FreeRun(section, r.first, n) <==> r.last + 1 == r.first + n)
  {
    hide Used, Scan, FreeIn, Breaks;
    ScanWindow(section, n);
    var r := Scan(section, n).value;
    FreeInExtremes(section, r.first, r.last + 1);
    FreeInExtremes(section, r.first, r.first + n);
    FreeInSplit(section, r.first, r.first + n, r.last + 1);
    FreeInExtremes(section, r.first + n, r.last + 1);
  }

  /** Whenever the section has a free run, the scan succeeds, at that run or before it. */
  lemma ScanComplete(section: seq<bv8>, n: nat, a: nat)
    requires |section| == SECTION_BYTES && n > 0 && a + n <= SECTION_BLOCKS && FreeRun(section, a, n)
    ensures Scan(section, n).Some? && Scan(section, n).value.first <= a
  {
    hide Used, Scan, FreeIn, Breaks;
    FreeRunIsWindow(section, n, a);
    ScanWindow(section, n);
  }

  // ---- exactly when the count is not carried over a full byte ----

  /** Every window with a full byte inside has a free run of `n` blocks that ends before it does. */
  ghost predicate Unbridged(section: seq<bv8>, n: nat)
    requires |section| == SECTION_BYTES
  {
    forall a: nat, q: nat :: Window(section, n, a, q) && a + n <= q ==>
      exists b: nat :: b + n <= q && FreeRun(section, b, n)
  }

  /** What the scan reports is a free run exactly when the bitmap is unbridged. */
  lemma ScanUnbridged(section: seq<bv8>, n: nat)
    requires |section| == SECTION_BYTES && n > 0 && Scan(section, n).Some?
    ensures var r := Scan(section, n).value; r.last + 1 == r.first + n <==> Unbridged(section, n)
  {
    hide Used, Scan, FreeIn, Breaks;
    ScanWindow(section, n);
    ScanSound(section, n);
    var r := Scan(section, n).value;
    if r.last + 1 == r.first + n {
      forall a: nat, q: nat | Window(section, n, a, q) && a + n <= q
        ensures r.first + n <= q && FreeRun(section, r.first, n)
      {
        if q == r.last { WindowStart(section, a, r.first, q + 1); }
      }
    } else if Unbridged(section, n) {
      var b: nat :| b + n <= r.last && FreeRun(section, b, n);
      FreeRunIsWindow(section, n, b);
    }
  }

  /** No full byte directly follows a byte whose highest block is free. */
  ghost predicate Closed(section: seq<bv8>)
    requires |section| == SECTION_BYTES
  {
    forall p :: 8 <= p < SECTION_BLOCKS && p % 8 == 0 && section[p / 8] == FULL ==> Used(section, p - 1)
  }

  lemma {:induction false} ClosedWindow(section: seq<bv8>, n: nat, a: nat, q: nat, b: nat)
    requires |section| == SECTION_BYTES && Closed(section) && Window(section, n, a, q) && a <= b <= q
    ensures !Used(section, b)
    decreases b
  {
    hide FreeIn;
    if a < b {
      assert !Breaks(section, b);
      var p := b / 8 * 8;
      if section[b / 8] == FULL && p < b { FullByteUsed(section, p, b - 1); }
      ClosedWindow(section, n, a, q, b - 1);
    }
  }

  /** Two conditions that each rule out a bridged window: the bitmap is closed, or one block is asked for. */
  lemma ClosedIsUnbridged(section: seq<bv8>, n: nat)
    requires |section| == SECTION_BYTES && n > 0 && (Closed(section) || n == 1)
    ensures Unbridged(section, n)
  {
    forall a: nat, q: nat | Window(section, n, a, q) ensures q + 1 <= a + n {
      if n == 1 {
        if a < q { WindowStart(section, a, q, q + 1); }
      } else {
        hide Used, FreeIn;
        forall b | a <= b <= q ensures !Used(section, b) { ClosedWindow(section, n, a, q, b); }
        FreeInExtremes(section, a, q + 1);
      }
    }
  }

  /** A bitmap that a caller can check beforehand, or a request for one block, makes every result a free run. */
  lemma ScanClosed(section: seq<bv8>, n: nat)
    requires |section| == SECTION_BYTES && n > 0 && (Closed(section) || n == 1) && Scan(section, n).Some?
    ensures var first := Scan(section, n).value.first; first + n <= SECTION_BLOCKS && FreeRun(section, first, n)
  {
    hide Used, Scan, Unbridged;
    ClosedIsUnbridged(section, n);
    ScanUnbridged(section, n);
    ScanSound(section, n);
  }

  /** Bytes 0x7F, 0xFF, 0x00 and a request for two blocks: blocks 7 and 8 are reported although 8 is in use and
      16 and 17 are free. */
  lemma CarriedOver(section: seq<bv8>)
    requires |section| == SECTION_BYTES && section[1] == FULL && FreeRun(section, 16, 2)
    requires forall p :: 0 <= p < 8 ==> (Used(section, p) <==> p < 7)
    ensures Scan(section, 2) == Some(Run(7, 16)) && Used(section, 8)
  {
    FullByteUsed(section, 8, 8);
    if section[0] == FULL { FullByteUsed(section, 0, 7); }
    if section[2] == FULL { FullByteUsed(section, 16, 16); }
    hide Used;
    assert ScanFrom(section, 2, 16, 1, 7) == Some(Run(7, 16));
    assert ScanFrom(section, 2, 7, 0, 0) == ScanFrom(section, 2, 8, 1, 7) == ScanFrom(section, 2, 16, 1, 7);
    assert ScanFrom(section, 2, 4, 0, 0) == ScanFrom(section, 2, 6, 0, 0) == ScanFrom(section, 2, 7, 0, 0);
    assert ScanFrom(section, 2, 0, 0, 0) == ScanFrom(section, 2, 2, 0, 0) == ScanFrom(section, 2, 4, 0, 0);
  }
}
