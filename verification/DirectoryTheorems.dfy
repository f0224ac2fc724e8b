/** Which allocations and invalidations keep the directory's invariant, and what they return and undo. */
module DirectoryTheorems {
  import opened Bytes
  import opened Bitmap
  import opened SectionScan
  import opened Directory
  import opened DirectoryInvariant

  // ---- first fit ----

  /** A run of `n` free blocks inside one section. */
  predicate FreeRunAt(l2: seq<bv8>, b: nat, n: nat)
    requires |l2| == L2_BYTES
  {
    b % SECTION_BLOCKS + n <= SECTION_BLOCKS && b + n <= NUM_BLOCKS && FreeRun(l2, b, n)
  }

  lemma RunInSection(l2: seq<bv8>, s: nat, p: nat, n: nat)
    requires |l2| == L2_BYTES && s < SECTIONS && p + n <= SECTION_BLOCKS
    ensures FreeRun(Section(l2, s), p, n) <==> FreeRun(l2, SECTION_BLOCKS * s + p, n)
  {
    hide Used, Section;
    if FreeRun(Section(l2, s), p, n) {
      forall b | SECTION_BLOCKS * s + p <= b < SECTION_BLOCKS * s + p + n ensures !Used(l2, b) {
        UsedInSection(l2, s, b - SECTION_BLOCKS * s);
      }
    }
    if FreeRun(l2, SECTION_BLOCKS * s + p, n) {
      forall q | p <= q < p + n ensures !Used(Section(l2, s), q) {
        UsedInSection(l2, s, q);
      }
    }
  }

  /** A section that is marked full has no free block. */
  lemma FullHasNoRun(d: Dir, s: nat, p: nat, n: nat)
    requires d.Shape() && Summarised(d.l1, d.l2) && s < SECTIONS && Used(d.l1, s) && n > 0 && p + n <= SECTION_BLOCKS
    ensures !FreeRun(Section(d.l2, s), p, n)
  {
    hide Used, Section;
    FullByBits(Section(d.l2, s));
    assert Used(Section(d.l2, s), p);
  }

  /** The search stops at or before the section of any free run, and at or before that run if it stops there. */
  lemma {:induction false} PickComplete(d: Dir, n: nat, s: nat, b: nat)
    requires d.Shape() && Summarised(d.l1, d.l2) && 0 < n
    requires s <= b / SECTION_BLOCKS && b < NUM_BLOCKS && FreeRunAt(d.l2, b, n)
    ensures var r := Pick(d, n, s);
            && r.Some? && r.value.0 <= b / SECTION_BLOCKS
            && (r.value.0 == b / SECTION_BLOCKS ==> r.value.1.first <= b % SECTION_BLOCKS)
    decreases SECTIONS - s
  {
    hide Used, Section, Scan, Summarised;
    var sb, p := b / SECTION_BLOCKS, b % SECTION_BLOCKS;
    RunInSection(d.l2, sb, p, n);
    if s < sb {
      PickComplete(d, n, s + 1, b);
    } else {
      if Used(d.l1, s) { FullHasNoRun(d, s, p, n); }
      ScanComplete(Section(d.l2, s), n, p);
    }
  }

  // ---- what the search finds, told from the bitmap ----

  /** No section has a window of `n` free blocks. */
  ghost predicate NoRoom(l2: seq<bv8>, n: nat)
    requires |l2| == L2_BYTES
  {
    forall s :: 0 <= s < SECTIONS ==> !HasWindow(Section(l2, s), n)
  }

  /** Section `s` is the first one with a window of `n` free blocks. */
  ghost predicate FirstRoom(l2: seq<bv8>, n: nat, s: nat)
    requires |l2| == L2_BYTES
  {
    s < SECTIONS && HasWindow(Section(l2, s), n) && forall t :: 0 <= t < s ==> !HasWindow(Section(l2, t), n)
  }

  /** In the first section with a window, none is bridged unless a free run of `n` blocks ends before it. */
  ghost predicate Uncarried(l2: seq<bv8>, n: nat)
    requires |l2| == L2_BYTES
  {
    forall s: nat :: FirstRoom(l2, n, s) ==> Unbridged(Section(l2, s), n)
  }

  /** A section that is marked full has no window. */
  lemma FullHasNoWindow(d: Dir, s: nat, n: nat)
    requires d.Shape() && Summarised(d.l1, d.l2) && s < SECTIONS && Used(d.l1, s)
    ensures !HasWindow(Section(d.l2, s), n)
  {
    hide Used, Section, FreeIn, Breaks;
    FullByBits(Section(d.l2, s));
  }

  lemma {:induction false} PickFrom(d: Dir, n: nat, s: nat)
    requires d.Shape() && Summarised(d.l1, d.l2) && n > 0 && s <= SECTIONS
    ensures var r := Pick(d, n, s); var stop := if r.Some? then r.value.0 else SECTIONS;
            && (r.Some? ==> HasWindow(Section(d.l2, stop), n))
            && forall t :: s <= t < stop ==> !HasWindow(Section(d.l2, t), n)
    decreases SECTIONS - s
  {
    hide Used, Section, Scan, Summarised, HasWindow, Window, NoneBefore;
    if s < SECTIONS {
      if Used(d.l1, s) { FullHasNoWindow(d, s, n); }
      ScanWindow(Section(d.l2, s), n);
      WindowFound(Section(d.l2, s), n);
      PickFrom(d, n, s + 1);
    }
  }

  lemma WindowFound(section: seq<bv8>, n: nat)
    requires |section| == SECTION_BYTES && n > 0
    ensures Scan(section, n).Some? <==> HasWindow(section, n)
  {
    hide Window, Scan, NoneBefore;
    ScanWindow(section, n);
  }

  /** The search fails exactly when no section has a window, and otherwise stops in the first that has one. */
  lemma PickIsFirst(d: Dir, n: nat)
    requires d.Shape() && Summarised(d.l1, d.l2) && n > 0
    ensures Pick(d, n, 0).None? <==> NoRoom(d.l2, n)
    ensures Pick(d, n, 0).Some? ==> FirstRoom(d.l2, n, Pick(d, n, 0).value.0)
  {
    hide Used, Section, Scan, Summarised, HasWindow, Pick;
    PickFrom(d, n, 0);
  }

  /** The search, if it succeeds, stops n - 1 blocks after the block it remembered. */
  predicate Contiguous(d: Dir, n: nat)
    requires d.Shape()
  {
    var r := Pick(d, n, 0);
    r.Some? ==> r.value.1.last + 1 == r.value.1.first + n
  }

  /** Whether the search carries its count over a full byte can be told from the bitmap. */
  lemma ContiguousExactly(d: Dir, n: nat)
    requires d.Shape() && Summarised(d.l1, d.l2) && n > 0
    ensures Contiguous(d, n) <==> Uncarried(d.l2, n)
  {
    hide Used, Section, Scan, Summarised, HasWindow, Pick, Unbridged;
    PickIsFirst(d, n);
    if Pick(d, n, 0).Some? {
      var t := Pick(d, n, 0).value.0;
      ScanUnbridged(Section(d.l2, t), n);
      assert forall s: nat :: FirstRoom(d.l2, n, s) ==> s == t;
    }
  }

  /** The block the search reports. */
  function PickedBlock(d: Dir, n: nat): nat
    requires d.Shape() && Pick(d, n, 0).Some?
  {
    SECTION_BLOCKS * Pick(d, n, 0).value.0 + Pick(d, n, 0).value.1.first
  }

  /** With a correct summary, the search fails exactly when no section has a window, and then none has a free run; what
      it reports is a free run exactly when the bitmap is uncarried, and no free run lies below it. */
  lemma FirstFit(d: Dir, n: nat)
    requires d.Shape() && Summarised(d.l1, d.l2) && 0 < n <= 64
    ensures Pick(d, n, 0).None? <==> NoRoom(d.l2, n)
    ensures Pick(d, n, 0).None? ==> forall b: nat :: b < NUM_BLOCKS ==> !FreeRunAt(d.l2, b, n)
    ensures Pick(d, n, 0).Some? ==> (FreeRunAt(d.l2, PickedBlock(d, n), n) <==> Uncarried(d.l2, n))
    ensures Pick(d, n, 0).Some? ==>
              forall b: nat :: b < NUM_BLOCKS && FreeRunAt(d.l2, b, n) ==> PickedBlock(d, n) <= b
  {
    hide Used, Section, Scan, Summarised, FreeRun, Pick, NoRoom, Uncarried;
    PickIsFirst(d, n);
    ContiguousExactly(d, n);
    var r := Pick(d, n, 0);
    if r.Some? {
      var (s, run) := r.value;
      ScanSound(Section(d.l2, s), n);
      var b := PickedBlock(d, n);
      assert b / SECTION_BLOCKS == s && b % SECTION_BLOCKS == run.first;
      RunInSection(d.l2, s, run.first, n);
    }
    forall b: nat | b < NUM_BLOCKS && FreeRunAt(d.l2, b, n)
      ensures r.Some? && PickedBlock(d, n) <= b
    {
      PickComplete(d, n, 0, b);
    }
  }

  /** Two simpler conditions, each enough for the search not to carry a count: no section has a full byte behind a byte
      whose highest block is free, or a single block is asked for. */
  lemma ClosedIsUncarried(l2: seq<bv8>, n: nat)
    requires |l2| == L2_BYTES && n > 0
    requires n == 1 || forall s :: 0 <= s < SECTIONS ==> Closed(Section(l2, s))
    ensures Uncarried(l2, n)
  {
    hide Section, Closed, HasWindow, Unbridged;
    forall s: nat | FirstRoom(l2, n, s) ensures Unbridged(Section(l2, s), n) { ClosedIsUnbridged(Section(l2, s), n); }
  }

  // ---- allocation ----

  /** What a caller has to know: the search will not read the uninitialised variable, and either no section has room,
      or the slot is empty and no count is carried over a full byte. */
  ghost predicate AllocSafe(d: Dir, id: nat, length: nat, junk: uint32)
    requires d.Shape()
  {
    && !ReadsJunk(d, junk)
    && (NoRoom(d.l2, Blocks(length)) || (d.table[Slot(id)].length == 0 && Uncarried(d.l2, Blocks(length))))
  }

  /** A page of `length` bytes has been entered under `id` at the block `first`: a free run inside one section is marked
      and counted, and the slot, which was empty, refers to it. */
  ghost predicate Entered(d: Dir, d': Dir, id: nat, length: nat, first: nat)
    requires d.Shape() && 1 <= length <= PAGE_SIZE
  {
    var n := Blocks(length);
    && d'.Shape() && first + n <= NUM_BLOCKS && first % SECTION_BLOCKS + n <= SECTION_BLOCKS
    && FreeRun(d.l2, first, n) && d'.l2 == SetRun(d.l2, first, n) && d.table[Slot(id)].length == 0
    && d'.table == d.table[Slot(id) := Entry(first, Tag(id), length)]
    && d'.stats == CountAlloc(d.stats, length)
    && Summarised(d'.l1, d'.l2)
  }

  lemma TakeEnters(d: Dir, id: nat, length: nat, s: nat, run: Run)
    requires d.Shape() && Summarised(d.l1, d.l2) && 1 <= length <= PAGE_SIZE && d.table[Slot(id)].length == 0
    requires s < SECTIONS && !Used(d.l1, s) && run.last < SECTION_BLOCKS && run.last + 1 == run.first + Blocks(length)
    requires FreeRun(Section(d.l2, s), run.first, Blocks(length))
    ensures var (d', r) := Take(d, id, length, s, run); r.Some? && Entered(d, d', id, length, r.value)
  {
    hide Used, Section, Summarised, FreeRun, SetRun, Mark;
    var n := Blocks(length);
    RunInSection(d.l2, s, run.first, n);
    MarkIsRun(d, s, run, n);
    MarkSummarised(d, s, run, n);
    var first := SECTION_BLOCKS * s + run.first;
    assert first / SECTION_BLOCKS == s && first % SECTION_BLOCKS == run.first;
  }

  lemma EnteredKeepsInv(d: Dir, d': Dir, id: nat, length: nat, first: nat)
    requires Inv(d) && 1 <= length <= PAGE_SIZE && Entered(d, d', id, length, first)
    ensures Inv(d')
  {
    hide Used, Summarised, FreeRun, SetRun, Disjoint, Accounted, Tallied, AllFit;
    var e := Entry(first, Tag(id), length);
    AllocTallied(d, d', Slot(id), e);
    AllocBits(d, d', e);
    AddOwner(d.l2, d.table, Slot(id), e, d'.l2);
  }

  /** A safe allocation that finds room enters the page. */
  lemma AllocEffect(d: Dir, id: nat, length: nat, junk: uint32)
    requires Inv(d) && 1 <= length <= PAGE_SIZE && AllocSafe(d, id, length, junk) && Alloc(d, id, length, junk).1.Some?
    ensures var (d', r) := Alloc(d, id, length, junk); Entered(d, d', id, length, r.value)
  {
    hide Used, Section, Scan, Summarised, FreeRun, Pick, Take, Disjoint, Accounted, Tallied, AllFit, NoRoom, Uncarried;
    var n := Blocks(length);
    var (s, run) := Pick(d, n, 0).value;
    PickIsFirst(d, n);
    PickUnmarked(d, n, 0);
    ScanSound(Section(d.l2, s), n);
    ContiguousExactly(d, n);
    TakeEnters(d, id, length, s, run);
  }

  lemma {:induction false} PickUnmarked(d: Dir, n: nat, s: nat)
    requires d.Shape() && s <= SECTIONS && Pick(d, n, s).Some?
    ensures !Used(d.l1, Pick(d, n, s).value.0)
    decreases SECTIONS - s
  {
    hide Used, Scan, Section;
    if Used(d.l1, s) || Scan(Section(d.l2, s), n).None? { PickUnmarked(d, n, s + 1); }
  }

  lemma AllocKeepsInv(d: Dir, id: nat, length: nat, junk: uint32)
    requires Inv(d) && 1 <= length <= PAGE_SIZE && AllocSafe(d, id, length, junk)
    ensures Inv(Alloc(d, id, length, junk).0)
  {
    if Alloc(d, id, length, junk).1.Some? {
      hide Inv, Entered, Alloc, AllocSafe;
      AllocEffect(d, id, length, junk);
      EnteredKeepsInv(d, Alloc(d, id, length, junk).0, id, length, Alloc(d, id, length, junk).1.value);
    }
  }

  lemma AllocBits(d: Dir, d': Dir, e: Entry)
    requires d.Shape() && d'.Shape() && e.block + Blocks(e.length) <= NUM_BLOCKS
    requires FreeRun(d.l2, e.block, Blocks(e.length)) && d'.l2 == SetRun(d.l2, e.block, Blocks(e.length))
    ensures forall b: nat :: b < NUM_BLOCKS ==> (Used(d'.l2, b) <==> InRun(e, b) || Used(d.l2, b))
    ensures forall b: nat :: b < NUM_BLOCKS && InRun(e, b) ==> !Used(d.l2, b)
  {
    hide Used, SetRun;
    forall b: nat | b < NUM_BLOCKS ensures Used(d'.l2, b) <==> InRun(e, b) || Used(d.l2, b) {
      UsedOfSetRun(d.l2, e.block, Blocks(e.length), b);
    }
  }

  // ---- every other successful allocation breaks the invariant ----

  lemma PagesBound(d: Dir)
    requires Inv(d)
    ensures d.stats.pages <= NUM_BLOCKS && d.stats.blocks <= NUM_BLOCKS
  {
    hide Used, Total, CountUsed, AllFit, Disjoint, Accounted, Summarised;
    TotalsBound(d.table, |d.table|);
    CountBound(d.l2, 8 * |d.l2|);
  }

  lemma AllocCounts(d: Dir, id: nat, length: nat, junk: uint32)
    requires d.Shape() && 1 <= length <= PAGE_SIZE && Alloc(d, id, length, junk).1.Some?
    ensures var (d', r) := Alloc(d, id, length, junk);
            && d'.Shape() && d'.stats == CountAlloc(d.stats, length)
            && r.value < TWO_32 && d'.table == Insert(d.table, id, r.value, length)
  {
    hide Used, Section, Scan, Pick, Mark, Insert;
  }

  /** An allocation finds a first block exactly when it reads the uninitialised one or a section has room. */
  lemma AllocFinds(d: Dir, id: nat, length: nat, junk: uint32)
    requires Inv(d) && 1 <= length <= PAGE_SIZE
    ensures Alloc(d, id, length, junk).1.Some? <==> ReadsJunk(d, junk) || !NoRoom(d.l2, Blocks(length))
  {
    hide Used, Section, Scan, Pick, Mark, Insert, NoRoom, FirstRoom, Disjoint, Accounted, Tallied, AllFit, Summarised;
    PickIsFirst(d, Blocks(length));
  }

  /** Storing over a taken slot counts a page without adding one. */
  lemma TakenSlotBreaks(d: Dir, id: nat, length: nat, junk: uint32)
    requires Inv(d) && 1 <= length <= PAGE_SIZE && d.table[Slot(id)].length != 0
    requires ReadsJunk(d, junk) || !NoRoom(d.l2, Blocks(length))
    ensures !Inv(Alloc(d, id, length, junk).0)
  {
    hide Used, Total, CountUsed, AllFit, Disjoint, Accounted, Summarised, Alloc, NoRoom, ReadsJunk;
    AllocFinds(d, id, length, junk);
    var (d', r) := Alloc(d, id, length, junk);
    AllocCounts(d, id, length, junk);
    PagesBound(d);
    TotalsOfUpdate(d.table, Slot(id), Entry(r.value, Tag(id), length));
  }

  /** The search reports block 0 exactly when the first section has a window that begins there. */
  lemma PicksZeroExactly(d: Dir, n: nat)
    requires d.Shape() && Summarised(d.l1, d.l2) && n > 0
    ensures Pick(d, n, 0).Some? && PickedBlock(d, n) == 0 <==> exists q: nat :: Window(Section(d.l2, 0), n, 0, q)
  {
    hide Used, Section, Scan, Summarised, Pick, Window, NoneBefore;
    PickIsFirst(d, n);
    var section := Section(d.l2, 0);
    ScanWindow(section, n);
    if Pick(d, n, 0).Some? && Pick(d, n, 0).value.0 == 0 {
      var run := Pick(d, n, 0).value.1;
      forall q: nat | Window(section, n, 0, q) ensures run.first == 0 { EarliestStart(section, n, run, q); }
    } else {
      assert forall q: nat :: !Window(section, n, 0, q);
    }
  }

  /** If block 0 begins a window, it begins the one that ends first. */
  lemma EarliestStart(section: seq<bv8>, n: nat, run: Run, q: nat)
    requires |section| == SECTION_BYTES && FirstWindow(section, n, Some(run)) && Window(section, n, 0, q)
    ensures run.first == 0
  {
    hide Used, FreeIn, Breaks;
    assert run.last <= q;
    FreeInSplit(section, 0, run.last + 1, q + 1);
    if run.first > 0 { WindowStart(section, 0, run.first, run.last + 1); }
  }

  /** The index points to the new page exactly when the slot was empty or the first section has a window that begins at
      block 0; otherwise the index is what it was. */
  lemma EntersExactly(d: Dir, id: nat, length: nat, junk: uint32)
    requires Inv(d) && 1 <= length <= PAGE_SIZE && !ReadsJunk(d, junk) && !NoRoom(d.l2, Blocks(length))
    ensures var (d', r) := Alloc(d, id, length, junk);
            var zero := exists q: nat :: Window(Section(d.l2, 0), Blocks(length), 0, q);
            && d'.Shape() && r.Some?
            && (Lookup(d'.table, id) == Some(Entry(r.value, Tag(id), length)) <==>
                d.table[Slot(id)].length == 0 || zero)
            && (d.table[Slot(id)].length != 0 && !zero ==> d'.table == d.table)
  {
    hide Used, Section, Scan, Alloc, Pick, PickedBlock, Window, NoRoom, FirstRoom;
    hide Disjoint, Accounted, Tallied, AllFit, Summarised;
    AllocFinds(d, id, length, junk);
    AllocCounts(d, id, length, junk);
    AllocInBounds(d, id, length, junk);
    PickIsFirst(d, Blocks(length));
    PicksZeroExactly(d, Blocks(length));
    if d.table[Slot(id)].length != 0 {
      OwnedAreUsed(d, Slot(id));
      PickedIsFree(d, Blocks(length));
    }
  }

  /** Whatever the search reports, its first block was free. */
  lemma PickedIsFree(d: Dir, n: nat)
    requires d.Shape() && n > 0 && Pick(d, n, 0).Some?
    ensures PickedBlock(d, n) < NUM_BLOCKS && !Used(d.l2, PickedBlock(d, n))
  {
    hide Used, Section, Scan, Pick;
    var (s, run) := Pick(d, n, 0).value;
    ScanSound(Section(d.l2, s), n);
    UsedInSection(d.l2, s, run.first);
  }

  /** Starting from the uninitialised variable enters the page at that block, if its slot is empty, and counts blocks
      that nobody marked. */
  lemma JunkBreaks(d: Dir, id: nat, length: nat, junk: uint32)
    requires Inv(d) && 1 <= length <= PAGE_SIZE && ReadsJunk(d, junk)
    ensures var (d', r) := Alloc(d, id, length, junk);
            && !Inv(d') && r == Some(junk) && d'.l1 == d.l1 && d'.l2 == d.l2
            && (d.table[Slot(id)].length == 0 ==> Lookup(d'.table, id) == Some(Entry(junk, Tag(id), length)))
  {
    hide Used, Total, CountUsed, AllFit, Disjoint, Accounted, Summarised;
    PagesBound(d);
    assert length % TWO_16 == length;
  }

  /** A count carried over a full byte hands out a block `b` that already belongs to another slot `i`: the new page and
      the page in that slot then share it. */
  lemma CarriedCountBreaks(d: Dir, id: nat, length: nat, junk: uint32) returns (i: nat, b: nat)
    requires Inv(d) && 1 <= length <= PAGE_SIZE && d.table[Slot(id)].length == 0
    requires !ReadsJunk(d, junk) && !Uncarried(d.l2, Blocks(length))
    ensures var (d', r) := Alloc(d, id, length, junk);
            && r.Some? && b < NUM_BLOCKS && Owns(d.table, i, b) && i != Slot(id)
            && Address(r.value) <= BLOCK_SIZE * b < Address(r.value) + length
            && Owns(d'.table, i, b) && Owns(d'.table, Slot(id), b) && !Disjoint(d'.table) && !Inv(d')
  {
    hide Alloc, Used, Disjoint, AllFit, Summarised, Tallied, Contiguous, PickedBlock, Slot, Uncarried;
    ContiguousExactly(d, Blocks(length));
    b := CarriedBlock(d, Blocks(length));
    i :| Owns(d.table, i, b);
    var e := AllocEntry(d, id, length, junk);
    AllocInBounds(d, id, length, junk);
    SharedBlock(Alloc(d, id, length, junk).0.table, i, Slot(id), b);
  }

  lemma AllocEntry(d: Dir, id: nat, length: nat, junk: uint32) returns (e: Entry)
    requires d.Shape() && 1 <= length <= PAGE_SIZE && d.table[Slot(id)].length == 0
    requires !ReadsJunk(d, junk) && Pick(d, Blocks(length), 0).Some?
    ensures e.length == length && e.block == PickedBlock(d, Blocks(length))
    ensures Alloc(d, id, length, junk).1 == Some(e.block)
    ensures Alloc(d, id, length, junk).0.table == d.table[Slot(id) := e]
  {
    hide Used, Section, Scan, Pick, Mark;
    e := Entry(Alloc(d, id, length, junk).1.value, Tag(id), length);
  }

  lemma CarriedBlock(d: Dir, n: nat) returns (b: nat)
    requires d.Shape() && n > 0 && !Contiguous(d, n)
    ensures Pick(d, n, 0).Some? && PickedBlock(d, n) <= b < PickedBlock(d, n) + n && b < NUM_BLOCKS && Used(d.l2, b)
  {
    hide Used, Section, Scan, Pick;
    var (s, run) := Pick(d, n, 0).value;
    ScanSound(Section(d.l2, s), n);
    var j: nat :| run.first <= j < run.first + n && Used(Section(d.l2, s), j);
    b := SECTION_BLOCKS * s + j;
    UsedInSection(d.l2, s, j);
  }

  lemma SharedBlock(t: seq<Entry>, i: nat, j: nat, b: nat)
    requires i != j && Owns(t, i, b) && Owns(t, j, b)
    ensures !Disjoint(t)
  {
  }

  /** From an invariant directory, an allocation ends in one exactly when it is safe, which can be told from the
      bitmap, the slot and the junk before the call. */
  lemma AllocKeepsInvExactly(d: Dir, id: nat, length: nat, junk: uint32)
    requires Inv(d) && 1 <= length <= PAGE_SIZE
    ensures Inv(Alloc(d, id, length, junk).0) <==> AllocSafe(d, id, length, junk)
  {
    hide Used, Section, Scan, Pick, Mark, Contiguous, NoRoom, Uncarried;
    hide Disjoint, Accounted, AllFit, Summarised, Tallied;
    if AllocSafe(d, id, length, junk) {
      AllocKeepsInv(d, id, length, junk);
    } else if ReadsJunk(d, junk) {
      JunkBreaks(d, id, length, junk);
    } else if d.table[Slot(id)].length != 0 {
      TakenSlotBreaks(d, id, length, junk);
    } else {
      var i, b := CarriedCountBreaks(d, id, length, junk);
    }
  }

  // ---- invalidation ----

  /** A page that is found is freed and forgotten; nothing else changes. */
  lemma InvalidateKeepsInv(d: Dir, id: nat)
    requires Inv(d)
    ensures Inv(Invalidate(d, id))
    ensures Invalidate(d, id).table ==
            if Lookup(d.table, id).Some? then d.table[Slot(id) := Entry(0, Tag(id), 0)] else d.table
  {
    hide Used, Section, Disjoint, Accounted, Tallied, AllFit, Summarised, ClearRun, ClearOne, WithSection;
    if Lookup(d.table, id).Some? {
      var e := d.table[Slot(id)];
      LookupFits(d, id);
      var n := Blocks(e.length);
      var d' := Invalidate(d, id);
      UnmarkIsRun(d, e.block, n);
      UnmarkSummarised(d, e.block, n);
      FreeTallied(d, d', Slot(id), Entry(0, Tag(id), 0));
      forall b: nat | b < NUM_BLOCKS ensures Used(d'.l2, b) <==> !InRun(e, b) && Used(d.l2, b) {
        UnmarkedBits(d, e.block, n, b);
      }
      RemoveOwner(d.l2, d.table, Slot(id), Entry(0, Tag(id), 0), d'.l2);
    }
  }

  lemma LookupFits(d: Dir, id: nat)
    requires Inv(d) && Lookup(d.table, id).Some?
    ensures var e := Lookup(d.table, id).value;
            && e == d.table[Slot(id)] && 1 <= e.length <= PAGE_SIZE
            && e.block < NUM_BLOCKS && e.block % SECTION_BLOCKS + Blocks(e.length) <= SECTION_BLOCKS
            && e.block + Blocks(e.length) <= NUM_BLOCKS
  {
    hide Disjoint, Accounted, Tallied, Summarised;
    assert Fits(d.table[Slot(id)]);
  }

  /** A safe allocation followed by the invalidation of the same id restores both bitmaps byte for byte, the current
      counters and every live entry of the index. */
  lemma InvalidateUndoesAlloc(d: Dir, id: nat, length: nat, junk: uint32)
    requires Inv(d) && 1 <= length <= PAGE_SIZE && AllocSafe(d, id, length, junk) && Alloc(d, id, length, junk).1.Some?
    ensures Inv(Alloc(d, id, length, junk).0)
    ensures Lookup(Alloc(d, id, length, junk).0.table, id).Some?
    ensures var r := Invalidate(Alloc(d, id, length, junk).0, id);
            && r.l1 == d.l1 && r.l2 == d.l2
            && r.table == d.table[Slot(id) := Entry(0, Tag(id), 0)] && d.table[Slot(id)].length == 0
            && r.stats.pages == d.stats.pages && r.stats.blocks == d.stats.blocks && r.stats.bytes == d.stats.bytes
  {
    hide Used, Section, Disjoint, Accounted, Tallied, AllFit, Summarised, Unmark, Alloc, AllocSafe, SetRun, ClearRun;
    var d' := Alloc(d, id, length, junk).0;
    AllocKeepsInv(d, id, length, junk);
    AllocEffect(d, id, length, junk);
    LookupFits(d', id);
    var e := d'.table[Slot(id)];
    UnmarkIsRun(d', e.block, Blocks(length));
    ClearUndoesSet(d.l2, e.block, Blocks(length));
    InvalidateKeepsInv(d', id);
    SameSummary(d, Invalidate(d', id));
  }

  /** The summary is determined by the blocks. */
  lemma SameSummary(d: Dir, d': Dir)
    requires Inv(d) && Inv(d') && d.l2 == d'.l2
    ensures d.l1 == d'.l1
  {
    hide Used, SectionFull, Section, Disjoint, Accounted, Tallied, AllFit;
    forall s | 0 <= s < 8 * |d.l1| ensures Used(d.l1, s) == Used(d'.l1, s) { }
    SameBits(d.l1, d'.l1);
  }

  // ---- what holds beyond the safe allocations ----

  lemma BlockInSection(s: nat, p: nat)
    requires p < SECTION_BLOCKS
    ensures (SECTION_BLOCKS * s + p) % SECTION_BLOCKS == p
  {
  }

  /** What the search reports lies inside one section of the storage area, even when it is not a free run. */
  lemma AllocInBounds(d: Dir, id: nat, length: nat, junk: uint32)
    requires d.Shape() && 1 <= length <= PAGE_SIZE && !ReadsJunk(d, junk) && Alloc(d, id, length, junk).1.Some?
    ensures var first, n := Alloc(d, id, length, junk).1.value, Blocks(length);
            first == PickedBlock(d, n) && first + n <= NUM_BLOCKS && first % SECTION_BLOCKS + n <= SECTION_BLOCKS
  {
    hide Section, Scan, Pick, Mark, Insert;
    var (s, run) := Pick(d, Blocks(length), 0).value;
    ScanSound(Section(d.l2, s), Blocks(length));
    BlockInSection(s, run.first);
  }

  /** Every entry lies inside one section, and the summary tells the full sections: what every run keeps that never
      reads the uninitialised first block, whatever else goes wrong in it. */
  ghost predicate Confined(d: Dir) {
    d.Shape() && AllFit(d.table) && Summarised(d.l1, d.l2)
  }

  lemma InsertFits(t: seq<Entry>, id: nat, block: uint32, length: nat)
    requires |t| == HASH_ENTRIES && AllFit(t) && 1 <= length <= PAGE_SIZE && Fits(Entry(block, Tag(id), length))
    ensures AllFit(Insert(t, id, block, length))
  {
    hide Slot, Tag, Blocks;
  }

  lemma NoSpaceKeeps(d: Dir, id: nat, length: nat, junk: uint32)
    requires d.Shape() && 1 <= length <= PAGE_SIZE && Alloc(d, id, length, junk).1.None?
    ensures Alloc(d, id, length, junk).0 == d
  {
  }

  lemma AllocSummarised(d: Dir, id: nat, length: nat, junk: uint32)
    requires d.Shape() && 1 <= length <= PAGE_SIZE && !ReadsJunk(d, junk) && Alloc(d, id, length, junk).1.Some?
    requires Summarised(d.l1, d.l2)
    ensures var d' := Alloc(d, id, length, junk).0; Summarised(d'.l1, d'.l2)
  {
    hide Used, Section, Scan, Pick, Mark, Insert, Summarised;
    var n := Blocks(length);
    var (s, run) := Pick(d, n, 0).value;
    PickUnmarked(d, n, 0);
    ScanSound(Section(d.l2, s), n);
    MarkSummarised(d, s, run, n);
  }

  /** Section confinement: an allocation that reads no junk keeps it, safe or not. */
  lemma AllocConfined(d: Dir, id: nat, length: nat, junk: uint32)
    requires Confined(d) && 1 <= length <= PAGE_SIZE && !ReadsJunk(d, junk)
    ensures Confined(Alloc(d, id, length, junk).0)
  {
    hide Alloc, Insert, AllFit, Pick, Summarised;
    if Alloc(d, id, length, junk).1.None? {
      NoSpaceKeeps(d, id, length, junk);
    } else {
      AllocCounts(d, id, length, junk);
      AllocInBounds(d, id, length, junk);
      InsertFits(d.table, id, Alloc(d, id, length, junk).1.value, length);
      AllocSummarised(d, id, length, junk);
    }
  }

  lemma InvalidateTable(d: Dir, id: nat)
    requires d.Shape()
    ensures Invalidate(d, id).table ==
            if Lookup(d.table, id).Some? then d.table[Slot(id) := Entry(0, Tag(id), 0)] else d.table
  {
    hide WithSection, ClearRun, ClearOne, Section;
  }

  /** So does every invalidation. */
  lemma InvalidateConfined(d: Dir, id: nat)
    requires Confined(d)
    ensures Confined(Invalidate(d, id))
  {
    hide Section, Summarised, Used, ClearRun, ClearOne, WithSection;
    if Lookup(d.table, id).Some? {
      var e := d.table[Slot(id)];
      assert Fits(e);
      UnmarkSummarised(d, e.block, Blocks(e.length));
      hide Unmark, Slot, Tag, Fits;
      assert Fits(Entry(0, Tag(id), 0));
    }
  }

  // ---- the end of the storage area ----

  /** The only place for `n` blocks is the end of the storage area: the last `n` blocks are free, and every window of
      `n` ends with the last block of the last section. */
  ghost predicate OnlyLast(l2: seq<bv8>, n: nat)
    requires |l2| == L2_BYTES && n <= SECTION_BLOCKS
  {
    && FreeRunAt(l2, NUM_BLOCKS - n, n)
    && forall s: nat, a: nat, q: nat :: s < SECTIONS && Window(Section(l2, s), n, a, q) ==>
         s == SECTIONS - 1 && q == SECTION_BLOCKS - 1
  }

  /** An allocation reaches the end of the storage area exactly when there is no other place. */
  lemma PicksLastExactly(d: Dir, n: nat)
    requires d.Shape() && Summarised(d.l1, d.l2) && 0 < n <= 64
    ensures Pick(d, n, 0).Some? && PickedBlock(d, n) + n == NUM_BLOCKS <==> OnlyLast(d.l2, n)
  {
    hide Used, Section, Scan, Summarised, Pick, Window, FreeRun, NoRoom, FirstRoom;
    FirstFit(d, n);
    PickIsFirst(d, n);
    var r := Pick(d, n, 0);
    if r.Some? {
      var (s, run) := r.value;
      ScanWindow(Section(d.l2, s), n);
      ScanSound(Section(d.l2, s), n);
      RunInSection(d.l2, s, run.first, n);
      if PickedBlock(d, n) + n == NUM_BLOCKS {
        assert s == SECTIONS - 1 && run.first + n == SECTION_BLOCKS && run.last == SECTION_BLOCKS - 1;
        LastRoom(d.l2, n);
      }
      if OnlyLast(d.l2, n) {
        assert Window(Section(d.l2, s), n, run.first, run.last);
        RunInSection(d.l2, s, SECTION_BLOCKS - n, n);
        OneStart(Section(d.l2, s), n, run.first);
      }
    } else {
      assert !FreeRunAt(d.l2, NUM_BLOCKS - n, n);
    }
  }

  lemma LastRoom(l2: seq<bv8>, n: nat)
    requires |l2| == L2_BYTES && n > 0 && FirstRoom(l2, n, SECTIONS - 1)
    requires NoneBefore(Section(l2, SECTIONS - 1), n, SECTION_BLOCKS - 1)
    ensures forall s: nat, a: nat, q: nat :: s < SECTIONS && Window(Section(l2, s), n, a, q) ==>
              s == SECTIONS - 1 && q == SECTION_BLOCKS - 1
  {
    hide Section, Used, FreeIn, Breaks;
    forall s: nat, a: nat, q: nat | s < SECTIONS && Window(Section(l2, s), n, a, q)
      ensures s == SECTIONS - 1 && q == SECTION_BLOCKS - 1
    {
      assert HasWindow(Section(l2, s), n);
    }
  }

  /** Two windows of one size that end at the same block begin at the same block. */
  lemma OneStart(section: seq<bv8>, n: nat, a: nat)
    requires |section| == SECTION_BYTES && 0 < n <= SECTION_BLOCKS && Window(section, n, a, SECTION_BLOCKS - 1)
    requires FreeRun(section, SECTION_BLOCKS - n, n)
    ensures a == SECTION_BLOCKS - n
  {
    hide Used, FreeIn, Breaks;
    var c := SECTION_BLOCKS - n;
    FreeRunIsWindow(section, n, c);
    if a < c { WindowStart(section, a, c, SECTION_BLOCKS); }
  }
}
