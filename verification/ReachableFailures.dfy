/** The unsafe allocations do occur: short runs of safe operations that lead to one. */
module ReachableFailures {
  import opened Bytes
  import opened Bitmap
  import opened SectionScan
  import opened Directory
  import opened DirectoryInvariant
  import opened DirectoryTheorems
  import opened PageStore
  import opened StoreRuns

  /** Exactly the blocks below `m` are in use. */
  ghost predicate Prefix(d: Dir, m: nat)
    requires d.Shape()
  {
    forall b: nat :: b < NUM_BLOCKS ==> (Used(d.l2, b) <==> b < m)
  }

  lemma PrefixClosed(d: Dir, m: nat, s: nat)
    requires d.Shape() && Prefix(d, m) && s < SECTIONS
    ensures Closed(Section(d.l2, s))
  {
    hide Section;
    var section := Section(d.l2, s);
    forall p | 8 <= p < SECTION_BLOCKS && p % 8 == 0 && section[p / 8] == FULL ensures Used(section, p - 1) {
      FullByteUsed(section, p, p);
      hide Used;
      UsedInSection(d.l2, s, p);
      UsedInSection(d.l2, s, p - 1);
    }
  }

  /** While only a prefix is in use, the search stops right behind it. */
  lemma PrefixPick(d: Dir, m: nat, n: nat)
    requires d.Shape() && Summarised(d.l1, d.l2) && Prefix(d, m)
    requires m < NUM_BLOCKS && 0 < n <= 64 && m % SECTION_BLOCKS + n <= SECTION_BLOCKS
    ensures !NoRoom(d.l2, n) && Uncarried(d.l2, n)
    ensures Pick(d, n, 0).Some? && PickedBlock(d, n) == m && FreeRunAt(d.l2, m, n)
  {
    hide Used, Section, Scan, Pick, Summarised, NoRoom, Uncarried, Closed;
    assert m / SECTION_BLOCKS < SECTIONS && m + n <= NUM_BLOCKS;
    assert FreeRunAt(d.l2, m, n);
    FirstFit(d, n);
    forall s | 0 <= s < SECTIONS ensures Closed(Section(d.l2, s)) { PrefixClosed(d, m, s); }
    ClosedIsUncarried(d.l2, n);
    assert !Used(d.l2, PickedBlock(d, n));
  }

  /** While only a prefix is in use, every request that fits the current section is met right behind the prefix. */
  lemma PrefixAlloc(d: Dir, m: nat, id: nat, length: nat, junk: uint32)
    requires Inv(d) && Prefix(d, m) && 1 <= length <= PAGE_SIZE && !ReadsJunk(d, junk) && d.table[Slot(id)].length == 0
    requires m < NUM_BLOCKS && m % SECTION_BLOCKS + Blocks(length) <= SECTION_BLOCKS
    ensures AllocSafe(d, id, length, junk) && Alloc(d, id, length, junk).1 == Some(m)
    ensures var d' := Alloc(d, id, length, junk).0;
            && Inv(d') && Prefix(d', m + Blocks(length)) && d'.table == d.table[Slot(id) := Entry(m, Tag(id), length)]
  {
    hide Used, Section, Scan, Pick, Blocks, SetRun, Disjoint, Accounted, Tallied, AllFit, Summarised, CountAlloc;
    hide NoRoom, Uncarried, FreeRun;
    var n := Blocks(length);
    PrefixPick(d, m, n);
    AllocKeepsInv(d, id, length, junk);
    AllocEffect(d, id, length, junk);
    var d' := Alloc(d, id, length, junk).0;
    forall x: nat | x < NUM_BLOCKS ensures Used(d'.l2, x) <==> x < m + n { UsedOfSetRun(d.l2, m, n, x); }
  }

  lemma EmptyPrefix()
    ensures Prefix(EmptyDir(), 0) && forall i :: 0 <= i < HASH_ENTRIES ==> EmptyDir().table[i].length == 0
  {
    EmptySummary();
    hide Summarised;
    forall b: nat | b < NUM_BLOCKS ensures !Used(EmptyDir().l2, b) { }
  }

  // ---- a count carried over a full byte ----

  /** Three pages of 7, 1 and 8 blocks, the second one invalidated, then a request for two blocks: every step before the
      last is safe, and the last one reports block 7 although block 8 belongs to the third page. */
  lemma CarriedCountHappens() returns (d1: Dir, d2: Dir, d3: Dir, d4: Dir)
    ensures Alloc(EmptyDir(), 1, 448, UINT_MAX) == (d1, Some(0)) && Inv(d1) && AllocSafe(EmptyDir(), 1, 448, UINT_MAX)
    ensures Alloc(d1, 2, 64, UINT_MAX) == (d2, Some(7)) && Inv(d2) && AllocSafe(d1, 2, 64, UINT_MAX)
    ensures Alloc(d2, 3, 512, UINT_MAX) == (d3, Some(8)) && Inv(d3) && AllocSafe(d2, 3, 512, UINT_MAX)
    ensures d4 == Invalidate(d3, 2) && Inv(d4)
    ensures Lookup(d4.table, 4).None? && d4.table[3] == Entry(8, 3, 512) && !ReadsJunk(d4, UINT_MAX)
    ensures var (d5, r) := Alloc(d4, 4, 128, UINT_MAX);
            r == Some(7) && d5.Shape() && !Inv(d5) && d5.table == d4.table[4 := Entry(7, 4, 128)]
  {
    hide Alloc, AllocSafe, Prefix, Invalidate, Used, Uncarried, EmptyDir, Pick;
    hide Disjoint, Accounted, Tallied, AllFit, Summarised;
    EmptyInv();
    EmptyPrefix();
    PrefixAlloc(EmptyDir(), 0, 1, 448, UINT_MAX);
    d1 := Alloc(EmptyDir(), 1, 448, UINT_MAX).0;
    PrefixAlloc(d1, 7, 2, 64, UINT_MAX);
    d2 := Alloc(d1, 2, 64, UINT_MAX).0;
    PrefixAlloc(d2, 8, 3, 512, UINT_MAX);
    d3 := Alloc(d2, 3, 512, UINT_MAX).0;
    assert d3.table[2] == Entry(7, 2, 64);
    InvalidateKeepsInv(d3, 2);
    d4 := Invalidate(d3, 2);
    HoleBits(d3);
    HoleIsCarried(d4);
    var i, b := CarriedCountBreaks(d4, 4, 128, UINT_MAX);
    AllocInBounds(d4, 4, 128, UINT_MAX);
    AllocCounts(d4, 4, 128, UINT_MAX);
  }

  /** Freeing block 7 of the first sixteen. */
  lemma HoleBits(d: Dir)
    requires Inv(d) && Prefix(d, 16) && d.table[2] == Entry(7, 2, 64)
    ensures Lookup(d.table, 2).Some? && Invalidate(d, 2).Shape()
    ensures forall b: nat :: b < NUM_BLOCKS ==> (Used(Invalidate(d, 2).l2, b) <==> b < 16 && b != 7)
  {
    hide Used, Unmark, Insert, Disjoint, Accounted, Tallied, AllFit, Summarised;
    assert Blocks(64) == 1;
    forall b: nat | b < NUM_BLOCKS ensures Used(Invalidate(d, 2).l2, b) <==> b < 16 && b != 7 {
      UnmarkedBits(d, 7, 1, b);
    }
  }

  lemma HoleIsCarried(d: Dir)
    requires d.Shape() && Summarised(d.l1, d.l2)
    requires forall b: nat :: b < NUM_BLOCKS ==> (Used(d.l2, b) <==> b < 16 && b != 7)
    ensures !Uncarried(d.l2, 2) && Pick(d, 2, 0).Some? && PickedBlock(d, 2) == 7
  {
    var section := Section(d.l2, 0);
    hide Used, Section, SectionFull, Scan, Uncarried;
    ContiguousExactly(d, 2);
    forall p | 0 <= p < SECTION_BLOCKS ensures Used(section, p) <==> p < 16 && p != 7 { UsedInSection(d.l2, 0, p); }
    ByteOneFull(section);
    CarriedOver(section);
    FullByBits(section);
    assert !Used(section, 7);
    assert !Used(d.l1, 0);
    assert Pick(d, 2, 0) == Some((0, Run(7, 16)));
  }

  lemma ByteOneFull(section: seq<bv8>)
    requires |section| == SECTION_BYTES && forall p :: 8 <= p < 16 ==> Used(section, p)
    ensures section[1] == FULL
  {
    hide Bit;
    forall k | 0 <= k < 8 ensures Bit(section[1], k) { assert Used(section, 8 + k); }
    FullByte(section[1]);
  }

  /** The first summary byte is full exactly while the first 4096 blocks are in use. */
  lemma FirstSectionsFull(d: Dir)
    requires Inv(d)
    ensures d.l1[0] == FULL <==> forall b: nat :: b < 4096 ==> Used(d.l2, b)
  {
    hide Section, SectionFull, Bit, Disjoint, Accounted, Tallied, AllFit;
    forall s | 0 <= s < 8
      ensures Bit(d.l1[0], s) <==> forall p :: 0 <= p < SECTION_BLOCKS ==> Used(Section(d.l2, s), p)
    {
      FullByBits(Section(d.l2, s));
      assert Used(d.l1, s) <==> Bit(d.l1[0], s);
    }
    forall s, p | 0 <= s < 8 && 0 <= p < SECTION_BLOCKS
      ensures Used(Section(d.l2, s), p) <==> Used(d.l2, SECTION_BLOCKS * s + p)
    {
      UsedInSection(d.l2, s, p);
    }
    FullByte(d.l1[0]);
    hide Used;
    if d.l1[0] == FULL {
      forall b: nat | b < 4096 ensures Used(d.l2, b) {
        var s, p := b / SECTION_BLOCKS, b % SECTION_BLOCKS;
        assert b == SECTION_BLOCKS * s + p;
        assert Bit(d.l1[0], s) && Used(Section(d.l2, s), p);
      }
    }
  }

  // ---- a new DPU filled with pages that do not compress ----

  /** The machine after `k` stores of one page under the ids below `k`. */
  function Filled(codec: Codec, page: seq<byte>, k: nat): (m: Machine)
    requires Whole(codec, page)
    ensures m.Shape() && |m.storage| == STORAGE_BYTES
  {
    if k == 0 then NewMachine()
    else Store(codec, Filled(codec, page, k - 1), PAGE_VALID + (k - 1), page, true, UINT_MAX).0
  }

  /** As long as there is room, each of the stores is safe and takes the next 64 blocks; only the one that takes the
      last 64 does not stay in memory. */
  lemma {:induction false} FilledIsPrefix(codec: Codec, page: seq<byte>, k: nat)
    requires Whole(codec, page) && Payload(codec, page).0 == PAGE_SIZE && k <= 15360
    ensures var m := Filled(codec, page, k);
            && Inv(m.dir) && Prefix(m.dir, 64 * k)
            && forall i :: k <= i < HASH_ENTRIES ==> m.dir.table[i].length == 0
    ensures k > 0 ==>
              var m := Filled(codec, page, k - 1);
              && StoreSafe(codec, m, PAGE_VALID + (k - 1), page, true, UINT_MAX)
              && Store(codec, m, PAGE_VALID + (k - 1), page, true, UINT_MAX).1
                 == (if k < 15360 then Stored else Overrun)
              && Filled(codec, page, k).dir.table[k - 1] == Entry(64 * (k - 1), k - 1, PAGE_SIZE)
  {
    hide Inv, Store, Prefix, StoreSafe, NewMachine, Payload;
    if k == 0 {
      EmptyInv();
      EmptyPrefix();
    } else {
      FilledIsPrefix(codec, page, k - 1);
      FillOneMore(codec, Filled(codec, page, k - 1), page, k - 1);
    }
  }

  lemma FillOneMore(codec: Codec, m: Machine, page: seq<byte>, k: nat)
    requires m.Shape() && |m.storage| == STORAGE_BYTES && Whole(codec, page) && Payload(codec, page).0 == PAGE_SIZE
    requires Inv(m.dir) && Prefix(m.dir, 64 * k) && k < 15360
    requires forall i :: k <= i < HASH_ENTRIES ==> m.dir.table[i].length == 0
    ensures StoreSafe(codec, m, PAGE_VALID + k, page, true, UINT_MAX)
    ensures var (m', reply) := Store(codec, m, PAGE_VALID + k, page, true, UINT_MAX);
            && reply == (if k + 1 < 15360 then Stored else Overrun)
            && Inv(m'.dir) && Prefix(m'.dir, 64 * k + 64)
            && m'.dir.table == m.dir.table[k := Entry(64 * k, k, PAGE_SIZE)]
  {
    hide Inv, Alloc, AllocSafe, Prefix, Write;
    var d := CountUncompressable(m.dir, PAGE_SIZE);
    CountKeepsInv(m.dir, PAGE_SIZE);
    SamePrefix(m.dir, d, 64 * k);
    assert Blocks(PAGE_SIZE) == 64;
    assert Slot(k) == k && Tag(k) == k;
    hide Slot, Tag, Blocks;
    PrefixAlloc(d, 64 * k, k, PAGE_SIZE, UINT_MAX);
    SafeUnlessCounted(m.dir, PAGE_SIZE, k, UINT_MAX);
  }

  /** The first summary byte is full after 64 of these stores: from then on every allocation that starts from any other
      junk than UINT_MAX breaks the invariant. */
  lemma JunkHappens(codec: Codec, page: seq<byte>, id: nat, length: nat, junk: uint32)
    requires Whole(codec, page) && Payload(codec, page).0 == PAGE_SIZE && 1 <= length <= PAGE_SIZE && junk != UINT_MAX
    ensures var d := Filled(codec, page, 64).dir; Inv(d) && ReadsJunk(d, junk) && !Inv(Alloc(d, id, length, junk).0)
  {
    hide Inv, Alloc, Filled, Whole, Payload;
    FilledIsPrefix(codec, page, 64);
    FirstSectionsFull(Filled(codec, page, 64).dir);
    JunkBreaks(Filled(codec, page, 64).dir, id, length, junk);
  }

  /** When all blocks are in use, no section has room. */
  lemma FullHasNoRoom(d: Dir, n: nat)
    requires d.Shape() && Prefix(d, NUM_BLOCKS)
    ensures NoRoom(d.l2, n)
  {
    hide Used, Section, FreeIn, Breaks;
    forall s | 0 <= s < SECTIONS ensures !HasWindow(Section(d.l2, s), n) {
      forall p | 0 <= p < SECTION_BLOCKS ensures Used(Section(d.l2, s), p) { UsedInSection(d.l2, s, p); }
    }
  }

  /** On a new DPU the stores of 15360 pages that do not compress are all safe. The last one gets the blocks from 982976
      on, and its transfer ends four bytes beyond the memory. One more store finds no space. */
  lemma MemoryEndIsOverrun(codec: Codec, page: seq<byte>)
    returns (states: seq<Machine>, ops: seq<Op>, replies: seq<Reply>)
    requires Whole(codec, page) && Payload(codec, page).0 == PAGE_SIZE
    ensures |ops| == 15361 && forall k :: 0 <= k < 15361 ==> ops[k] == StoreOp(PAGE_VALID + k, page, true, UINT_MAX)
    ensures IsRun(codec, states, ops, replies) && states[0] == NewMachine() && AllSafe(codec, states, ops)
    ensures forall k :: 0 <= k < 15359 ==> replies[k] == Stored
    ensures replies[15359] == Overrun && replies[15360] == NoSpace
    ensures states[15360].Shape() && states[15360].dir.table[15359] == Entry(982976, 15359, PAGE_SIZE)
    ensures STORAGE_OFFSET + Address(982976) + Align8(PAGE_SIZE) == MRAM_SIZE + 4
  {
    hide Filled, Store, Whole, Payload, StoreSafe, NewMachine;
    states := seq(15362, k requires 0 <= k < 15362 => Filled(codec, page, k));
    ops := seq(15361, k requires 0 <= k < 15361 => StoreOp(PAGE_VALID + k, page, true, UINT_MAX));
    replies := seq(15361, k => if k < 15359 then Stored else if k == 15359 then Overrun else NoSpace);
    forall k | 0 <= k < 15361
      ensures Step(codec, states[k], ops[k], states[k + 1], replies[k]) && OpSafe(codec, states[k], ops[k])
    {
      FilledStep(codec, page, k);
      if k < 15360 { FilledIsPrefix(codec, page, k + 1); } else { OneTooMany(codec, page); }
    }
    FilledIsPrefix(codec, page, 15360);
    FilledFromNew(codec, page);
  }

  lemma OneTooMany(codec: Codec, page: seq<byte>)
    requires Whole(codec, page) && Payload(codec, page).0 == PAGE_SIZE
    ensures var m := Filled(codec, page, 15360);
            && StoreSafe(codec, m, PAGE_VALID + 15360, page, true, UINT_MAX)
            && Store(codec, m, PAGE_VALID + 15360, page, true, UINT_MAX).1 == NoSpace
  {
    hide Filled, Store, Whole, Payload, NoRoom, Uncarried, Disjoint, Accounted, Tallied, AllFit, Summarised, Prefix;
    FilledIsPrefix(codec, page, 15360);
    var m := Filled(codec, page, 15360);
    FullHasNoRoom(m.dir, Blocks(PAGE_SIZE));
    ReplyExactly(codec, m, PAGE_VALID + 15360, page, true, UINT_MAX);
  }

  lemma FilledStep(codec: Codec, page: seq<byte>, k: nat)
    requires Whole(codec, page)
    ensures Filled(codec, page, k + 1) == Store(codec, Filled(codec, page, k), PAGE_VALID + k, page, true, UINT_MAX).0
  {
    hide Store;
  }

  lemma FilledFromNew(codec: Codec, page: seq<byte>)
    requires Whole(codec, page)
    ensures Filled(codec, page, 0) == NewMachine()
  {
  }

  // ---- pages that get lost or confused ----

  /** Storing a page on a new DPU: the page begins at block 0, and exactly the aliases of its id yield it. */
  lemma FirstStore(codec: Codec, x: nat, page: seq<byte>) returns (m: Machine)
    requires Inverts(codec) && |page| == PAGE_SIZE
    ensures Whole(codec, page) && NewMachine().Shape()
    ensures StoreSafe(codec, NewMachine(), PAGE_VALID + x, page, true, UINT_MAX)
    ensures StoreFits(codec, NewMachine(), PAGE_VALID + x, page, true)
    ensures Store(codec, NewMachine(), PAGE_VALID + x, page, true, UINT_MAX) == (m, Stored)
    ensures Represents(codec, m, Enter(map[], x, page)) && m.dir.table[Slot(x)].length != 0
    ensures Prefix(m.dir, Blocks(Payload(codec, page).0))
    ensures forall y: nat :: Load(codec, m, y) == if Aliases(x, y) then Loaded(page) else Missing
  {
    hide Inv, Inverts, Alloc, Prefix, Slot, Tag, Write, EmptyDir, NoRoom, Uncarried, OnlyLast;
    InvertedIsWhole(codec, page);
    var length := Payload(codec, page).0;
    EmptyRepresents(NewMachine());
    EmptyInv();
    EmptyPrefix();
    var d := CountUncompressable(EmptyDir(), length);
    CountKeepsInv(EmptyDir(), length);
    assert Prefix(d, 0) by { SamePrefix(EmptyDir(), d, 0); }
    PrefixAlloc(d, 0, x, length, UINT_MAX);
    PrefixNotLast(d, 0, length);
    SafeUnlessCounted(EmptyDir(), length, x, UINT_MAX);
    m := Store(codec, NewMachine(), PAGE_VALID + x, page, true, UINT_MAX).0;
    StoreRefines(codec, NewMachine(), map[], PAGE_VALID + x, page, true, UINT_MAX);
    forall y: nat ensures Load(codec, m, y) == if Aliases(x, y) then Loaded(page) else Missing {
      LoadFinds(codec, m, Enter(map[], x, page), y);
    }
  }

  /** With room left in its section, a prefix is not continued at the end of the storage area. */
  lemma PrefixNotLast(d: Dir, m: nat, length: nat)
    requires Inv(d) && Prefix(d, m) && 1 <= length <= PAGE_SIZE && m % SECTION_BLOCKS + Blocks(length) <= SECTION_BLOCKS
    requires m + Blocks(length) < NUM_BLOCKS
    ensures !OnlyLast(d.l2, Blocks(length))
  {
    hide Used, Section, Pick, Prefix, NoRoom, Uncarried, OnlyLast, Disjoint, Accounted, Tallied, AllFit, Summarised;
    PrefixPick(d, m, Blocks(length));
    PicksLastExactly(d, Blocks(length));
  }

  lemma SamePrefix(d: Dir, d': Dir, k: nat)
    requires d.Shape() && d'.Shape() && d.l2 == d'.l2 && Prefix(d, k)
    ensures Prefix(d', k)
  {
  }

  /** Storing two pages under one id: both stores claim success, and the load yields the first page. */
  lemma SecondStoreIsLost(codec: Codec, x: nat, page: seq<byte>, page': seq<byte>)
    returns (states: seq<Machine>, ops: seq<Op>, replies: seq<Reply>)
    requires Inverts(codec) && |page| == |page'| == PAGE_SIZE
    ensures ops == [StoreOp(PAGE_VALID + x, page, true, UINT_MAX), StoreOp(PAGE_VALID + x, page', true, UINT_MAX),
                    LoadOp(x)]
    ensures states != [] && states[0] == NewMachine() && IsRun(codec, states, ops, replies)
    ensures replies == [Stored, Stored, Loaded(page)]
  {
    hide Inverts, Store, Load, NewMachine, Represents, Prefix, Payload, Slot, Tag, StoreFits;
    var m := FirstStore(codec, x, page);
    var m' := LostStore(codec, m, x, page, page');
    states, replies := [NewMachine(), m, m', m'], [Stored, Stored, Loaded(page)];
    ops := [StoreOp(PAGE_VALID + x, page, true, UINT_MAX), StoreOp(PAGE_VALID + x, page', true, UINT_MAX), LoadOp(x)];
    assert Load(codec, m, x) == Loaded(page);
    assert Step(codec, states[0], ops[0], states[1], replies[0]);
    assert Step(codec, states[1], ops[1], states[2], replies[1]);
    assert Step(codec, states[2], ops[2], states[3], replies[2]);
  }

  lemma LostStore(codec: Codec, m: Machine, x: nat, page: seq<byte>, page': seq<byte>) returns (m': Machine)
    requires Inverts(codec) && |page| == |page'| == PAGE_SIZE
    requires Represents(codec, m, Enter(map[], x, page)) && m.dir.table[Slot(x)].length != 0
    requires Prefix(m.dir, Blocks(Payload(codec, page).0))
    ensures m.Shape() && Whole(codec, page')
    ensures Store(codec, m, PAGE_VALID + x, page', true, UINT_MAX) == (m', Stored)
    ensures forall y: nat :: Load(codec, m', y) == Load(codec, m, y)
  {
    hide Inverts, Store, Load, Payload, Slot, Tag, NoRoom, Uncarried, OnlyLast, Used, PageAt;
    hide Disjoint, Accounted, Tallied, AllFit;
    InvertedIsWhole(codec, page);
    InvertedIsWhole(codec, page');
    var k, n := Blocks(Payload(codec, page).0), Blocks(Payload(codec, page').0);
    PrefixPick(m.dir, k, n);
    assert Used(m.dir.l2, 0);
    PrefixNotLast(m.dir, k, Payload(codec, page').0);
    TakenSlotLosesPage(codec, m, x, page', UINT_MAX, k);
    m' := Store(codec, m, PAGE_VALID + x, page', true, UINT_MAX).0;
  }

  /** Storing under one id and loading under an alias yields the stored page: 5 and 65541, for example. */
  lemma AliasYieldsForeignPage(codec: Codec, x: nat, y: nat, page: seq<byte>)
    returns (states: seq<Machine>, ops: seq<Op>, replies: seq<Reply>)
    requires Inverts(codec) && |page| == PAGE_SIZE && Aliases(x, y)
    ensures ops == [StoreOp(PAGE_VALID + x, page, true, UINT_MAX), LoadOp(y)]
    ensures states != [] && states[0] == NewMachine()
    ensures GoodRun(codec, states, ops, replies)
    ensures replies == [Stored, Loaded(page)]
    ensures Aliases(5, 65541)
  {
    hide Inverts, Store, Load, NewMachine, Represents, Prefix, Payload, StoreSafe, StoreFits;
    var m := FirstStore(codec, x, page);
    states, replies := [NewMachine(), m, m], [Stored, Loaded(page)];
    ops := [StoreOp(PAGE_VALID + x, page, true, UINT_MAX), LoadOp(y)];
    assert Step(codec, states[0], ops[0], states[1], replies[0]);
    assert Step(codec, states[1], ops[1], states[2], replies[1]);
  }

  // ---- a live page overwritten ----

  /** A codec for four pages of one repeated byte each; all other pages do not compress. */
  function Fill(v: byte): (page: seq<byte>)
    ensures |page| == PAGE_SIZE
  {
    seq(PAGE_SIZE, _ => v)
  }

  function SizeOf(v: byte): (n: nat)
    ensures n % 8 == 0 && n <= 512
  {
    if v == 1 then 448 else if v == 2 then 64 else if v == 3 then 512 else 128
  }

  function CompressFill(page: seq<byte>): Compressed {
    if page != [] && 1 <= page[0] <= 4 && page == Fill(page[0]) then Compressed(true, SizeOf(page[0]), page)
    else Compressed(false, PAGE_SIZE, page)
  }

  function ExpandFill(bytes: seq<byte>): Option<seq<byte>> {
    if bytes != [] && 1 <= bytes[0] <= 4 && bytes == Fill(bytes[0])[..SizeOf(bytes[0])] then Some(Fill(bytes[0]))
    else None
  }

  function FillCodec(): Codec {
    Codec(CompressFill, ExpandFill)
  }

  lemma FillInverts()
    ensures Inverts(FillCodec())
  {
    forall page: seq<byte> | |page| == PAGE_SIZE && FillCodec().compress(page).ok
      ensures FillCodec().decompress(page[..SizeOf(page[0])]) == Some(page)
    {
      assert page[..SizeOf(page[0])][0] == page[0];
    }
  }

  lemma FillPayload(v: byte)
    requires 1 <= v <= 4
    ensures Payload(FillCodec(), Fill(v)) == (SizeOf(v), Fill(v)) && Whole(FillCodec(), Fill(v))
    ensures ExpandFill(Fill(v)[..SizeOf(v)]) == Some(Fill(v))
  {
    assert Fill(v)[0] == v && Fill(v)[..SizeOf(v)][0] == v;
  }

  lemma StoreFill(m: Machine, v: byte, d': Dir, first: uint32) returns (m': Machine)
    requires m.Shape() && 1 <= v <= 4 && first < 16 && Alloc(m.dir, v, SizeOf(v), UINT_MAX) == (d', Some(first))
    ensures m' == Machine(d', Write(m.storage, BLOCK_SIZE * first, Fill(v)[..SizeOf(v)]))
    ensures Whole(FillCodec(), Fill(v))
    ensures Step(FillCodec(), m, StoreOp(PAGE_VALID + v, Fill(v), true, UINT_MAX), m', Stored)
  {
    hide Alloc, Write, Fill, FillCodec, Payload, Whole;
    FillPayload(v);
    m' := Machine(d', Write(m.storage, BLOCK_SIZE * first, Fill(v)[..SizeOf(v)]));
    assert Align8(SizeOf(v)) == SizeOf(v);
  }

  /** Three pages are stored, the second is invalidated, and the third can be loaded. Storing a fourth page then claims
      success, and the third, which nobody invalidated, is gone: the fourth has been written over its first block. */
  lemma LivePageIsOverwritten() returns (states: seq<Machine>, replies: seq<Reply>)
    ensures Inverts(FillCodec())
    ensures var ops := [StoreOp(PAGE_VALID + 1, Fill(1), true, UINT_MAX),
                        StoreOp(PAGE_VALID + 2, Fill(2), true, UINT_MAX),
                        StoreOp(PAGE_VALID + 3, Fill(3), true, UINT_MAX), DropOp(PAGE_VALID + 2), LoadOp(3),
                        StoreOp(PAGE_VALID + 4, Fill(4), true, UINT_MAX), LoadOp(3)];
            IsRun(FillCodec(), states, ops, replies) && states[0] == NewMachine()
    ensures replies == [Stored, Stored, Stored, Done, Loaded(Fill(3)), Stored, Missing]
  {
    FillInverts();
    hide Alloc, AllocSafe, Invalidate, EmptyDir, Inverts, Inv, FillCodec, Fill, Step, Write;
    var d1, d2, d3, d4 := CarriedCountHappens();
    var m0 := NewMachine();
    var m1 := StoreFill(m0, 1, d1, 0);
    var m2 := StoreFill(m1, 2, d2, 7);
    var m3 := StoreFill(m2, 3, d3, 8);
    var m4 := m3.(dir := d4);
    StepDrop(m3, d4);
    var d5 := Alloc(d4, 4, 128, UINT_MAX).0;
    var m5 := StoreFill(m4, 4, d5, 7);
    ThirdLoads(m2.storage, m4);
    ThirdMisses(m4.storage, m5);
    states := [m0, m1, m2, m3, m4, m4, m5, m5];
    replies := [Stored, Stored, Stored, Done, Loaded(Fill(3)), Stored, Missing];
  }

  lemma StepDrop(m: Machine, d': Dir)
    requires m.Shape() && d' == Invalidate(m.dir, 2)
    ensures Step(FillCodec(), m, DropOp(PAGE_VALID + 2), m.(dir := d'), Done)
  {
    hide Invalidate;
  }

  lemma ThirdLoads(storage: seq<byte>, m: Machine)
    requires m.Shape() && m.dir.table[3] == Entry(8, 3, 512)
    requires |storage| == STORAGE_BYTES && m.storage == Write(storage, BLOCK_SIZE * 8, Fill(3)[..SizeOf(3)])
    ensures Step(FillCodec(), m, LoadOp(3), m, Loaded(Fill(3)))
  {
    FillPayload(3);
    hide ExpandFill, Fill;
    assert m.storage[512..1024] == Fill(3)[..512];
  }

  lemma ThirdMisses(storage: seq<byte>, m: Machine)
    requires m.Shape() && m.dir.table[3] == Entry(8, 3, 512)
    requires |storage| == STORAGE_BYTES && m.storage == Write(storage, BLOCK_SIZE * 7, Fill(4)[..SizeOf(4)])
    ensures Step(FillCodec(), m, LoadOp(3), m, Missing)
  {
    assert Fill(4)[..128][64] == 4;
    assert m.storage[512] == 4;
    assert m.storage[512..1024][0] == 4;
  }
}
