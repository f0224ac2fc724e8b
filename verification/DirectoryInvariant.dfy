/** What every reachable directory satisfies, and exactly which allocations keep it. */
module DirectoryInvariant {
  import opened Bitmap
  import opened SectionScan
  import opened Directory

  // ---- sections of the bitmap ----

  lemma UsedInSection(l2: seq<bv8>, s: nat, p: nat)
    requires |l2| == L2_BYTES && s < SECTIONS && p < SECTION_BLOCKS
    ensures Used(Section(l2, s), p) <==> Used(l2, SECTION_BLOCKS * s + p)
  {
    var b := SECTION_BLOCKS * s + p;
    assert b / 8 == SECTION_BYTES * s + p / 8 && b % 8 == p % 8;
  }

  lemma UsedWithSection(l2: seq<bv8>, s: nat, section: seq<bv8>, b: nat)
    requires |l2| == L2_BYTES && s < SECTIONS && |section| == SECTION_BYTES && b < NUM_BLOCKS
    ensures Used(WithSection(l2, s, section), b) <==>
            if b / SECTION_BLOCKS == s then Used(section, b % SECTION_BLOCKS) else Used(l2, b)
  {
    var p := b % SECTION_BLOCKS;
    if b / SECTION_BLOCKS == s {
      assert b == SECTION_BLOCKS * s + p;
      assert b / 8 == SECTION_BYTES * s + p / 8 && b % 8 == p % 8;
    }
  }

  lemma FullByBits(section: seq<bv8>)
    ensures SectionFull(section) <==> forall p :: 0 <= p < 8 * |section| ==> Used(section, p)
  {
    if forall p :: 0 <= p < 8 * |section| ==> Used(section, p) {
      forall e | 0 <= e < |section| ensures section[e] == FULL {
        forall k | 0 <= k < 8 ensures Bit(section[e], k) {
          assert Used(section, 8 * e + k);
          assert (8 * e + k) / 8 == e && (8 * e + k) % 8 == k;
        }
        FullByte(section[e]);
      }
    }
    if SectionFull(section) {
      forall p | 0 <= p < 8 * |section| ensures Used(section, p) { FullByte(section[p / 8]); }
    }
  }

  // ---- totals over the index ----

  function BlocksOf(e: Entry): nat { if e.length == 0 then 0 else Blocks(e.length) }

  function BytesOf(e: Entry): nat { e.length }

  function LiveOf(e: Entry): nat { if e.length == 0 then 0 else 1 }

  function Total(t: seq<Entry>, k: nat, weight: Entry -> nat): nat
    requires k <= |t|
    decreases k, t
  {
    if k == 0 then 0 else Total(t, k - 1, weight) + weight(t[k - 1])
  }

  /** The total over the whole index. */
  function Sum(t: seq<Entry>, weight: Entry -> nat): nat {
    Total(t, |t|, weight)
  }

  lemma {:induction false} TotalOfUpdate(t: seq<Entry>, i: nat, e: Entry, k: nat, weight: Entry -> nat)
    requires i < |t| && k <= |t|
    ensures Total(t[i := e], k, weight) == Total(t, k, weight) + if i < k then weight(e) - weight(t[i]) else 0
    decreases k
  {
    if k > 0 { TotalOfUpdate(t, i, e, k - 1, weight); }
  }

  // ---- the invariant ----

  /** Slot `i` holds a page, and block `b` is one of its blocks. */
  predicate Owns(t: seq<Entry>, i: nat, b: nat) {
    i < |t| && t[i].length != 0 && t[i].block <= b < t[i].block + Blocks(t[i].length)
  }

  /** An entry that holds a page takes a run of blocks inside one section. */
  predicate Fits(e: Entry) {
    e.length != 0 ==>
      && e.length <= PAGE_SIZE
      && e.block % SECTION_BLOCKS + Blocks(e.length) <= SECTION_BLOCKS
      && e.block + Blocks(e.length) <= NUM_BLOCKS
  }

  ghost predicate AllFit(t: seq<Entry>) {
    forall i :: 0 <= i < |t| ==> Fits(t[i])
  }

  /** No block belongs to two slots. */
  ghost predicate Disjoint(t: seq<Entry>) {
    forall i: nat, j: nat, b: nat :: Owns(t, i, b) && Owns(t, j, b) ==> i == j
  }

  /** The bitmap marks exactly the blocks that belong to a slot. */
  ghost predicate Accounted(l2: seq<bv8>, t: seq<Entry>)
    requires |l2| == L2_BYTES
  {
    && (forall i: nat, b: nat :: b < NUM_BLOCKS && Owns(t, i, b) ==> Used(l2, b))
    && (forall b: nat :: b < NUM_BLOCKS && Used(l2, b) ==> exists i: nat :: Owns(t, i, b))
  }

  /** A summary bit is set exactly when its section is full. */
  ghost predicate Summarised(l1: seq<bv8>, l2: seq<bv8>)
    requires |l1| == L1_BYTES && |l2| == L2_BYTES
  {
    forall s :: 0 <= s < SECTIONS ==> (Used(l1, s) <==> SectionFull(Section(l2, s)))
  }

  /** The statistics count the marked blocks, the stored bytes and the live pages. */
  ghost predicate Tallied(d: Dir)
    requires d.Shape()
  {
    && d.stats.blocks == CountAll(d.l2) == Sum(d.table, BlocksOf)
    && d.stats.bytes == Sum(d.table, BytesOf)
    && d.stats.pages == Sum(d.table, LiveOf)
    && d.stats.pages == Minus(d.stats.allocs, d.stats.frees, TWO_64)
  }

  ghost predicate Inv(d: Dir) {
    && d.Shape()
    && AllFit(d.table) && Disjoint(d.table) && Accounted(d.l2, d.table)
    && Summarised(d.l1, d.l2) && Tallied(d)
  }

  /** The zeroed memory of a new DPU. */
  function EmptyDir(): Dir {
    Dir(seq(L1_BYTES, _ => 0), seq(L2_BYTES, _ => 0), seq(HASH_ENTRIES, _ => Entry(0, 0, 0)), Stats(0, 0, 0, 0, 0, 0))
  }

  lemma {:induction false} NothingUsed(m: seq<bv8>, k: nat)
    requires k <= 8 * |m| && forall e :: 0 <= e < |m| ==> m[e] == 0
    ensures CountUsed(m, k) == 0
    decreases k
  {
    if k > 0 { NothingUsed(m, k - 1); }
  }

  lemma {:induction false} NothingStored(t: seq<Entry>, k: nat, weight: Entry -> nat)
    requires k <= |t| && forall i :: 0 <= i < |t| ==> weight(t[i]) == 0
    ensures Total(t, k, weight) == 0
    decreases k
  {
    if k > 0 { NothingStored(t, k - 1, weight); }
  }

  lemma NothingMarked(m: seq<bv8>, b: nat)
    requires b < 8 * |m| && forall e :: 0 <= e < |m| ==> m[e] == 0
    ensures !Used(m, b)
  {
  }

  lemma EmptySummary()
    ensures Summarised(EmptyDir().l1, EmptyDir().l2)
  {
    var d := EmptyDir();
    forall s | 0 <= s < SECTIONS ensures !Used(d.l1, s) && Section(d.l2, s)[0] == 0 { }
  }

  /** The zeroed directory satisfies the invariant. */
  lemma EmptyInv()
    ensures Inv(EmptyDir())
  {
    hide Summarised, Used, CountUsed, Total;
    var d := EmptyDir();
    EmptySummary();
    forall b: nat | b < NUM_BLOCKS ensures !Used(d.l2, b) { NothingMarked(d.l2, b); }
    NothingUsed(d.l2, 8 * |d.l2|);
    NothingStored(d.table, |d.table|, BlocksOf);
    NothingStored(d.table, |d.table|, BytesOf);
    NothingStored(d.table, |d.table|, LiveOf);
  }

  // ---- adding and removing one owner ----

  predicate InRun(e: Entry, b: nat) {
    e.block <= b < e.block + Blocks(e.length)
  }

  lemma AddOwner(l2: seq<bv8>, t: seq<Entry>, slot: nat, e: Entry, l2': seq<bv8>)
    requires |l2| == |l2'| == L2_BYTES && slot < |t|
    requires AllFit(t) && Disjoint(t) && Accounted(l2, t) && t[slot].length == 0 && e.length != 0 && Fits(e)
    requires forall b: nat :: b < NUM_BLOCKS ==> (Used(l2', b) <==> InRun(e, b) || Used(l2, b))
    requires forall b: nat :: b < NUM_BLOCKS && InRun(e, b) ==> !Used(l2, b)
    ensures var t' := t[slot := e]; AllFit(t') && Disjoint(t') && Accounted(l2', t')
  {
    hide Used;
    var t' := t[slot := e];
    forall i: nat, b: nat ensures Owns(t', i, b) <==> if i == slot then InRun(e, b) else Owns(t, i, b) {
    }
    forall b: nat ensures !Owns(t, slot, b) { }
    hide Owns;
    forall b: nat | b < NUM_BLOCKS && Used(l2', b) ensures exists i: nat :: Owns(t', i, b) {
      if InRun(e, b) {
        assert Owns(t', slot, b);
      } else {
        var i: nat :| Owns(t, i, b);
        assert Owns(t', i, b);
      }
    }
  }

  lemma RemoveOwner(l2: seq<bv8>, t: seq<Entry>, slot: nat, e: Entry, l2': seq<bv8>)
    requires |l2| == |l2'| == L2_BYTES && slot < |t|
    requires AllFit(t) && Disjoint(t) && Accounted(l2, t) && t[slot].length != 0 && e.length == 0
    requires forall b: nat :: b < NUM_BLOCKS ==> (Used(l2', b) <==> !InRun(t[slot], b) && Used(l2, b))
    ensures var t' := t[slot := e]; AllFit(t') && Disjoint(t') && Accounted(l2', t')
  {
    hide Used;
    var t' := t[slot := e];
    forall i: nat, b: nat ensures Owns(t', i, b) <==> i != slot && Owns(t, i, b) {
    }
    forall b: nat ensures Owns(t, slot, b) <==> InRun(t[slot], b) { }
    hide Owns;
    forall b: nat | b < NUM_BLOCKS && Used(l2', b) ensures exists i: nat :: Owns(t', i, b) {
      var i: nat :| Owns(t, i, b);
      assert Owns(t', i, b);
    }
  }

  // ---- the bitmaps ----

  lemma MarkedBits(d: Dir, s: nat, run: Run, n: nat, b: nat)
    requires d.Shape() && s < SECTIONS && n <= run.last + 1 <= SECTION_BLOCKS && b < NUM_BLOCKS
    ensures var last := SECTION_BLOCKS * s + run.last;
            Used(Mark(d, s, run, n).l2, b) <==> last + 1 - n <= b <= last || Used(d.l2, b)
  {
    hide Used, SetRun, Section, WithSection;
    var section := SetRun(Section(d.l2, s), run.last + 1 - n, n);
    UsedWithSection(d.l2, s, section, b);
    if b / SECTION_BLOCKS == s {
      UsedOfSetRun(Section(d.l2, s), run.last + 1 - n, n, b % SECTION_BLOCKS);
      UsedInSection(d.l2, s, b % SECTION_BLOCKS);
    }
  }

  /** Of the `n` blocks from `block` on, those in the section of `block` become free, and no other. */
  lemma UnmarkedBits(d: Dir, block: nat, n: nat, b: nat)
    requires d.Shape() && block < NUM_BLOCKS && b < NUM_BLOCKS
    ensures Used(Unmark(d, block, n).l2, b) <==>
            !(block <= b < block + n && b / SECTION_BLOCKS == block / SECTION_BLOCKS) && Used(d.l2, b)
  {
    hide Used, ClearRun, Section, WithSection;
    var s, p := block / SECTION_BLOCKS, block % SECTION_BLOCKS;
    var inside := if p + n <= SECTION_BLOCKS then n else SECTION_BLOCKS - p;
    UsedWithSection(d.l2, s, ClearRun(Section(d.l2, s), p, inside), b);
    if b / SECTION_BLOCKS == s {
      UsedOfClearRun(Section(d.l2, s), p, inside, b % SECTION_BLOCKS);
      UsedInSection(d.l2, s, b % SECTION_BLOCKS);
    }
  }

  lemma SectionOfUpdate(l2: seq<bv8>, s: nat, section: seq<bv8>, s': nat)
    requires |l2| == L2_BYTES && s < SECTIONS && s' < SECTIONS && |section| == SECTION_BYTES
    ensures Section(WithSection(l2, s, section), s') == if s' == s then section else Section(l2, s')
  {
  }

  lemma MarkSummarised(d: Dir, s: nat, run: Run, n: nat)
    requires d.Shape() && s < SECTIONS && n <= run.last + 1 <= SECTION_BLOCKS
    requires Summarised(d.l1, d.l2) && !Used(d.l1, s)
    ensures Summarised(Mark(d, s, run, n).l1, Mark(d, s, run, n).l2)
  {
    hide Used, SetRun, SetOne, SectionFull, Section, WithSection;
    var section := SetRun(Section(d.l2, s), run.last + 1 - n, n);
    var d' := Mark(d, s, run, n);
    forall s' | 0 <= s' < SECTIONS ensures Used(d'.l1, s') <==> SectionFull(Section(d'.l2, s')) {
      SectionOfUpdate(d.l2, s, section, s');
      UsedOfSetOne(d.l1, s, s');
    }
  }

  lemma UnmarkSummarised(d: Dir, block: nat, n: nat)
    requires d.Shape() && block < NUM_BLOCKS && block % SECTION_BLOCKS + n <= SECTION_BLOCKS && n > 0
    requires Summarised(d.l1, d.l2)
    ensures Summarised(Unmark(d, block, n).l1, Unmark(d, block, n).l2)
  {
    hide Used, ClearRun, ClearOne, SectionFull, Section, WithSection;
    var s, p := block / SECTION_BLOCKS, block % SECTION_BLOCKS;
    var section := ClearRun(Section(d.l2, s), p, n);
    UsedOfClearRun(Section(d.l2, s), p, n, p);
    FullByBits(section);
    var d' := Unmark(d, block, n);
    forall s' | 0 <= s' < SECTIONS ensures Used(d'.l1, s') <==> SectionFull(Section(d'.l2, s')) {
      SectionOfUpdate(d.l2, s, section, s');
      UsedOfClearOne(d.l1, s, s');
    }
  }

  // ---- the statistics ----

  lemma MarkIsRun(d: Dir, s: nat, run: Run, n: nat)
    requires d.Shape() && s < SECTIONS && n <= run.last + 1 <= SECTION_BLOCKS
    ensures Mark(d, s, run, n).l2 == SetRun(d.l2, SECTION_BLOCKS * s + run.last + 1 - n, n)
  {
    hide Used, SetRun, Mark;
    var m, i := Mark(d, s, run, n).l2, SECTION_BLOCKS * s + run.last + 1 - n;
    assert |m| == L2_BYTES;
    forall b | 0 <= b < 8 * |m| ensures Used(m, b) == Used(SetRun(d.l2, i, n), b) {
      MarkedBits(d, s, run, n, b);
      UsedOfSetRun(d.l2, i, n, b);
    }
    SameBits(m, SetRun(d.l2, i, n));
  }

  lemma UnmarkIsRun(d: Dir, block: nat, n: nat)
    requires d.Shape() && block < NUM_BLOCKS && block % SECTION_BLOCKS + n <= SECTION_BLOCKS
    ensures block + n <= NUM_BLOCKS && Unmark(d, block, n).l2 == ClearRun(d.l2, block, n)
  {
    hide Used, ClearRun, Unmark;
    assert block + n <= NUM_BLOCKS by { assert block / SECTION_BLOCKS < SECTIONS; }
    var m := Unmark(d, block, n).l2;
    forall b | 0 <= b < 8 * |m| ensures Used(m, b) == Used(ClearRun(d.l2, block, n), b) {
      UnmarkedBits(d, block, n, b);
      UsedOfClearRun(d.l2, block, n, b);
    }
    SameBits(m, ClearRun(d.l2, block, n));
  }

  /** Live pages take at least one block each and at most 64 bytes a block. */
  lemma {:induction false} TotalsBound(t: seq<Entry>, k: nat)
    requires k <= |t| && AllFit(t)
    ensures Total(t, k, LiveOf) <= Total(t, k, BlocksOf)
    ensures Total(t, k, BytesOf) <= BLOCK_SIZE * Total(t, k, BlocksOf)
    decreases k
  {
    if k > 0 {
      TotalsBound(t, k - 1);
      assert Fits(t[k - 1]);
    }
  }

  lemma TotalsOfUpdate(t: seq<Entry>, slot: nat, e: Entry)
    requires |t| == HASH_ENTRIES && slot < HASH_ENTRIES
    ensures var t' := t[slot := e];
            && Sum(t', BlocksOf) == Sum(t, BlocksOf) + BlocksOf(e) - BlocksOf(t[slot])
            && Sum(t', BytesOf) == Sum(t, BytesOf) + BytesOf(e) - BytesOf(t[slot])
            && Sum(t', LiveOf) == Sum(t, LiveOf) + LiveOf(e) - LiveOf(t[slot])
  {
    TotalOfUpdate(t, slot, e, |t|, BlocksOf);
    TotalOfUpdate(t, slot, e, |t|, BytesOf);
    TotalOfUpdate(t, slot, e, |t|, LiveOf);
  }

  /** The counters of an allocation whose run was free and whose slot was empty. */
  lemma AllocTallied(d: Dir, d': Dir, slot: nat, e: Entry)
    requires Inv(d) && d'.Shape() && slot < HASH_ENTRIES && d.table[slot].length == 0
    requires 1 <= e.length <= PAGE_SIZE && e.block + Blocks(e.length) <= NUM_BLOCKS
    requires FreeRun(d.l2, e.block, Blocks(e.length))
    requires d'.l2 == SetRun(d.l2, e.block, Blocks(e.length)) && d'.table == d.table[slot := e]
    requires d'.stats == CountAlloc(d.stats, e.length)
    ensures Tallied(d')
  {
    hide Used, SetRun, FreeRun, Total, CountUsed, AllFit, Disjoint, Accounted, Summarised;
    CountOfSetRun(d.l2, e.block, Blocks(e.length));
    CountBound(d'.l2, 8 * |d'.l2|);
    TotalsOfUpdate(d.table, slot, e);
    TotalsBound(d.table, |d.table|);
  }

  lemma OwnedAreUsed(d: Dir, slot: nat)
    requires Inv(d) && slot < HASH_ENTRIES && d.table[slot].length != 0
    ensures var e := d.table[slot];
            && e.block + Blocks(e.length) <= NUM_BLOCKS
            && forall b :: e.block <= b < e.block + Blocks(e.length) ==> Used(d.l2, b)
  {
    hide Used;
    var e := d.table[slot];
    assert Fits(e);
    forall b | e.block <= b < e.block + Blocks(e.length) ensures Used(d.l2, b) { assert Owns(d.table, slot, b); }
  }

  /** The counters of freeing the page in a slot. */
  lemma FreeTallied(d: Dir, d': Dir, slot: nat, e: Entry)
    requires Inv(d) && d'.Shape() && slot < HASH_ENTRIES && d.table[slot].length != 0 && e.length == 0
    requires d.table[slot].block + Blocks(d.table[slot].length) <= NUM_BLOCKS
    requires d'.l2 == ClearRun(d.l2, d.table[slot].block, Blocks(d.table[slot].length))
    requires d'.stats == CountFree(d.stats, d.table[slot].length) && d'.table == d.table[slot := e]
    ensures Tallied(d')
  {
    hide Used, ClearRun, Total, CountUsed, Blocks, AllFit, Disjoint, Accounted, Summarised;
    OwnedAreUsed(d, slot);
    CountOfClearRun(d.l2, d.table[slot].block, Blocks(d.table[slot].length));
    CountBound(d.l2, 8 * |d.l2|);
    TotalsOfUpdate(d.table, slot, e);
    TotalsBound(d.table, |d.table|);
  }
}
