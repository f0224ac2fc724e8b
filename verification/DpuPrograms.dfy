/** The DPU of the page store, with the operations of alloc_static.c and the programs of swap.c as they update its
    memory in place. */
module DpuPrograms {
  import opened Bytes
  import opened Bitmap
  import opened SectionScan
  import opened BlockAllocator
  import opened Directory
  import opened DirectoryInvariant
  import opened PageStore

  class Dpu {
    const l1: array<bv8>
    const l2: array<bv8>
    const table: array<Entry>
    const storage: array<byte>
    const transPage: array<byte>
    var idWord: uint32
    var stats: Stats

    ghost predicate Valid()
      reads this
    {
      && l1.Length == L1_BYTES && l2.Length == L2_BYTES && table.Length == HASH_ENTRIES
      && storage.Length == STORAGE_BYTES && transPage.Length == PAGE_SIZE
      && l1 != l2 && storage != transPage
      && table as object !in {l1, l2} && storage as object !in {l1, l2, table}
      && transPage as object !in {l1, l2, table}
    }

    ghost function Now(): (d: Dir)
      reads this, l1, l2, table
      ensures Valid() ==> d.Shape()
    {
      Dir(l1[..], l2[..], table[..], stats)
    }

    ghost function State(): (m: Machine)
      reads this, l1, l2, table, storage
      ensures Valid() ==> m.Shape()
    {
      Machine(Now(), storage[..])
    }

    /** A DPU as the emulator sets it up: zeroed MRAM. */
    constructor ()
      ensures Valid() && Now() == EmptyDir() && (forall i :: 0 <= i < STORAGE_BYTES ==> storage[i] == 0) && idWord == 0
      ensures fresh(this) && fresh(l1) && fresh(l2) && fresh(table) && fresh(storage) && fresh(transPage)
    {
      l1 := new bv8[L1_BYTES](_ => 0);
      l2 := new bv8[L2_BYTES](_ => 0);
      table := new Entry[HASH_ENTRIES](_ => Entry(0, 0, 0));
      storage := new byte[STORAGE_BYTES](_ => 0);
      transPage := new byte[PAGE_SIZE](_ => 0);
      idWord, stats := 0, Stats(0, 0, 0, 0, 0, 0);
      new;
      hide EmptyDir;
      EmptyFields(l1[..], l2[..], table[..]);
    }

    static lemma EmptyFields(l1: seq<bv8>, l2: seq<bv8>, table: seq<Entry>)
      requires |l1| == L1_BYTES && forall i :: 0 <= i < L1_BYTES ==> l1[i] == 0
      requires |l2| == L2_BYTES && forall i :: 0 <= i < L2_BYTES ==> l2[i] == 0
      requires |table| == HASH_ENTRIES && forall i :: 0 <= i < HASH_ENTRIES ==> table[i] == Entry(0, 0, 0)
      ensures Dir(l1, l2, table, Stats(0, 0, 0, 0, 0, 0)) == EmptyDir()
    {
    }

    // ---- the hash index ----

    /** `pimswap_insert_index_hash` */
    method InsertIndex(id: nat, block: uint32, length: nat)
      requires Valid()
      modifies table
      ensures table[..] == Insert(old(table[..]), id, block, length)
    {
      var slot := id % HASH_ENTRIES % TWO_16;
      var entry := table[slot];
      if block != 0 && length != 0 && entry.length != 0 { return; }
      table[slot] := Entry(block, id % TWO_16, length % TWO_16);
    }

    /** `pimswap_lookup_index_hash`: the offset of the page in the storage area and its length. */
    method LookupIndex(id: nat) returns (found: bool, at: nat, length: nat)
      requires Valid()
      ensures found <==> Lookup(table[..], id).Some?
      ensures found ==> var e := Lookup(table[..], id).value; at == Address(e.block) && length == e.length
      ensures !found ==> length == 0
    {
      var slot := id % HASH_ENTRIES % TWO_16;
      var entry := table[slot];
      if entry.length != 0 && entry.tag == id % TWO_16 {
        return true, BLOCK_SIZE * entry.block % TWO_32, entry.length;
      }
      return false, 0, 0;
    }

    // ---- the block allocator ----

    /** Copying one section of the second level into WRAM. */
    method ReadSection(s: nat) returns (entries: array<bv8>)
      requires Valid() && s < SECTIONS
      ensures fresh(entries) && entries[..] == Section(l2[..], s)
    {
      entries := new bv8[SECTION_BYTES];
      forall i | 0 <= i < SECTION_BYTES { entries[i] := l2[SECTION_BYTES * s + i]; }
    }

    method WriteSection(s: nat, entries: array<bv8>)
      requires Valid() && s < SECTIONS && entries.Length == SECTION_BYTES && entries != l2
      modifies l2
      ensures l2[..] == WithSection(old(l2[..]), s, entries[..])
    {
      forall i | 0 <= i < SECTION_BYTES { l2[SECTION_BYTES * s + i] := entries[i]; }
    }

    /** `find_free_blocks_l2`: UINT_MAX and no change, or the marked run's first block and whether the section is
        full. */
    method FindFreeBlocks(s: nat, numBlocks: nat, updateL1: bool) returns (first: uint32, update: bool)
      requires Valid() && s < SECTIONS && 1 <= numBlocks <= 64
      modifies l2
      ensures var r := Scan(Section(old(l2[..]), s), numBlocks);
              if r.None? then first == UINT_MAX && update == updateL1 && l2[..] == old(l2[..])
              else
                && numBlocks <= r.value.last + 1
                && first == SECTION_BLOCKS * s + r.value.first && first != UINT_MAX
                && var section := SetRun(Section(old(l2[..]), s), r.value.last + 1 - numBlocks, numBlocks);
                   l2[..] == WithSection(old(l2[..]), s, section) && (update <==> SectionFull(section))
    {
      hide Section, WithSection, Scan, SetRun;
      var entries := ReadSection(s);
      var ok, from, entry, bit := ScanSection(entries, numBlocks);
      if !ok { return UINT_MAX, updateL1; }
      ScanSound(entries[..], numBlocks);
      first := SECTION_BLOCKS * s + from;
      var checkL2 := MarkBackwards(entries, entry, bit, numBlocks);
      WriteSection(s, entries);
      update := false;
      if checkL2 { update := AllFull(entries); }
    }

    /** `free_blocks_l2` */
    method FreeBlocks(first: nat, numBlocks: nat) returns (overflow: bool)
      requires Valid() && first < NUM_BLOCKS
      modifies l2
      ensures var s, p := first / SECTION_BLOCKS, first % SECTION_BLOCKS;
              var inside := if overflow then SECTION_BLOCKS - p else numBlocks;
              && (overflow <==> p + numBlocks > SECTION_BLOCKS)
              && l2[..] == WithSection(old(l2[..]), s, ClearRun(Section(old(l2[..]), s), p, inside))
    {
      hide Section, WithSection, ClearRun;
      var s := first / SECTION_BLOCKS;
      var entries := ReadSection(s);
      overflow := ClearForwards(entries, first / 8 % SECTION_BYTES, first % 8, numBlocks);
      WriteSection(s, entries);
    }

    /** What a successful search in section `s` has done to the second level. */
    ghost predicate MarkedIn(d: Dir, numBlocks: nat, s: nat, first: uint32, update: bool)
      requires d.Shape() && s < SECTIONS && Scan(Section(d.l2, s), numBlocks).Some?
      requires numBlocks <= Scan(Section(d.l2, s), numBlocks).value.last + 1
      reads this, l2
    {
      var run := Scan(Section(d.l2, s), numBlocks).value;
      && first == SECTION_BLOCKS * s + run.first && first != UINT_MAX
      && l2[..] == Mark(d, s, run, numBlocks).l2
      && (update <==> SectionFull(SetRun(Section(d.l2, s), run.last + 1 - numBlocks, numBlocks)))
    }

    /** The sections of one summary byte that is not full: the first whose search succeeds, if any. */
    method SearchByte(summary: array<bv8>, entry: nat, numBlocks: nat, first0: uint32, update0: bool)
      returns (first: uint32, update: bool, bit: nat)
      requires Valid() && summary.Length == L1_BYTES && summary != l2 && summary[..] == l1[..]
      requires entry < L1_BYTES && summary[entry] != FULL && 1 <= numBlocks <= 64
      modifies l2
      ensures Valid() && l1[..] == old(l1[..]) && table[..] == old(table[..]) && summary[..] == old(summary[..])
      ensures first == UINT_MAX ==>
                && l2[..] == old(l2[..]) && update == update0
                && Pick(old(Now()), numBlocks, 8 * entry) == Pick(old(Now()), numBlocks, 8 * entry + 8)
      ensures first != UINT_MAX ==>
                && bit < 8
                && var r, s := Pick(old(Now()), numBlocks, 8 * entry), 8 * entry + bit;
                   && r.Some? && r.value.0 == s && numBlocks <= r.value.1.last + 1
                   && MarkedIn(old(Now()), numBlocks, s, first, update)
    {
      hide Bit, Used, Section, WithSection, Scan, SetRun, SectionFull;
      ghost var d := Now();
      first, update, bit := first0, update0, 0;
      while bit < 8
        invariant bit <= 8 && l2[..] == d.l2 && update == update0
        invariant first == UINT_MAX || (first == first0 && forall k :: 0 <= k < bit ==> Bit(summary[entry], k))
        invariant Pick(d, numBlocks, 8 * entry) == Pick(d, numBlocks, 8 * entry + bit)
      {
        SummaryBit(summary, entry, bit);
        if !Bit(summary[entry], bit) {
          var section := 8 * entry + bit;
          first, update := FindFreeBlocks(section, numBlocks, update);
          if first != UINT_MAX { return; }
        }
        bit := bit + 1;
      }
      FullByte(summary[entry]);
    }

    lemma SummaryBit(summary: array<bv8>, entry: nat, bit: nat)
      requires summary.Length == L1_BYTES && entry < L1_BYTES && bit < 8
      ensures Used(summary[..], 8 * entry + bit) <==> Bit(summary[entry], bit)
    {
      assert (8 * entry + bit) / 8 == entry && (8 * entry + bit) % 8 == bit;
    }

    /** The search loops of `pimswap_alloc_page_static`. `junk` and `junkBit` are what the uninitialised `first_block`
        and `l1_bit` hold. */
    method SearchSections(summary: array<bv8>, numBlocks: nat, junk: uint32, junkBit: nat)
      returns (first: uint32, update: bool, entry: nat, bit: nat)
      requires Valid() && summary.Length == L1_BYTES && summary != l2 && summary[..] == l1[..] && 1 <= numBlocks <= 64
      modifies l2
      ensures Valid() && l1[..] == old(l1[..]) && table[..] == old(table[..]) && summary[..] == old(summary[..])
      ensures ReadsJunk(old(Now()), junk) ==>
                first == junk && update && entry == 0 && bit == junkBit && l2[..] == old(l2[..])
      ensures !ReadsJunk(old(Now()), junk) ==>
                var r := Pick(old(Now()), numBlocks, 0);
                if r.None? then first == UINT_MAX && l2[..] == old(l2[..])
                else
                  && bit < 8 && entry < L1_BYTES && 8 * entry + bit == r.value.0 && numBlocks <= r.value.1.last + 1
                  && MarkedIn(old(Now()), numBlocks, r.value.0, first, update)
    {
      hide Bit, Used, Section, WithSection, Scan, SetRun, SectionFull, Mark;
      ghost var d := Now();
      first, update, entry, bit := junk, true, 0, junkBit;
      while entry < L1_BYTES
        invariant entry <= L1_BYTES && l2[..] == d.l2 && update
        invariant entry == 0 ==> first == junk && bit == junkBit
        invariant entry > 0 ==> first == UINT_MAX && !ReadsJunk(d, junk)
        invariant Pick(d, numBlocks, 0) == Pick(d, numBlocks, 8 * entry)
      {
        if summary[entry] != FULL {
          first, update, bit := SearchByte(summary, entry, numBlocks, first, update);
        } else {
          PickSkipsByte(d, numBlocks, entry);
        }
        if first != UINT_MAX { return; }
        entry := entry + 1;
      }
    }

    /** `pimswap_alloc_page_static`: the first block of the page, if space was found. */
    method AllocPage(id: nat, length: nat, junk: uint32, junkBit: nat) returns (block: Option<uint32>)
      requires Valid() && 1 <= length <= PAGE_SIZE
      modifies this`stats, l1, l2, table
      ensures Valid() && (Now(), block) == Alloc(old(Now()), id, length, junk)
    {
      hide Bit, Used, Section, WithSection, Scan, SetRun, SectionFull, Pick, Insert;
      ghost var d := Now();
      var numBlocks := Blocks(length);
      var summary := new bv8[L1_BYTES];
      forall i | 0 <= i < L1_BYTES { summary[i] := l1[i]; }
      assert summary[..] == l1[..];
      var first, update, entry, bit := SearchSections(summary, numBlocks, junk, junkBit);
      if first == UINT_MAX { return None; }
      if update {
        SetSummary(summary, entry, bit);
        forall i | 0 <= i < L1_BYTES { l1[i] := summary[i]; }
        assert l1[..] == summary[..];
      }
      if !ReadsJunk(d, junk) {
        ghost var (s, run) := Pick(d, numBlocks, 0).value;
        assert l1[..] == Mark(d, s, run, numBlocks).l1;
        assert l2[..] == Mark(d, s, run, numBlocks).l2;
      } else {
        assert l1[..] == d.l1;
      }
      stats := CountAlloc(stats, length);
      assert table[..] == d.table;
      InsertIndex(id, first, length);
      block := Some(first);
      ghost var d' := Alloc(d, id, length, junk).0;
      assert table[..] == d'.table && l1[..] == d'.l1 && l2[..] == d'.l2;
    }

    /** `l1_entries[l1_entry] |= (1 << l1_bit)`; a bit number of eight or more shifts the one out of the byte. */
    method SetSummary(summary: array<bv8>, entry: nat, bit: nat)
      requires summary.Length == L1_BYTES && entry < L1_BYTES
      modifies summary
      ensures bit < 8 ==> summary[..] == SetOne(old(summary[..]), 8 * entry + bit)
      ensures old(summary[entry]) == FULL ==> summary[..] == old(summary[..])
    {
      var mask := if bit < 8 then Mask(bit) else 0;
      assert bit < 8 ==> (8 * entry + bit) / 8 == entry && (8 * entry + bit) % 8 == bit;
      summary[entry] := summary[entry] | mask;
    }

    /** `pimswap_free_page_static`. The error message about a run that leaves its section is never printed while the
        entries are confined to sections, as they are in every run that reads no junk. */
    method FreePage(id: nat) returns (overflow: bool)
      requires Valid() && Freeable(Now(), id)
      modifies this`stats, l1, l2
      ensures Valid() && Now() == Free(old(Now()), id)
      ensures AllFit(old(Now()).table) ==> !overflow
      ensures overflow <==>
              var r := Lookup(old(Now()).table, id);
              && r.Some?
              && Address(r.value.block) / BLOCK_SIZE % SECTION_BLOCKS + Blocks(r.value.length) > SECTION_BLOCKS
    {
      hide Bit, Used, Section, WithSection, ClearRun, ClearOne;
      ghost var d := Now();
      overflow := false;
      var found, at, length := LookupIndex(id);
      if !found { return; }
      assert AllFit(d.table) ==> Fits(d.table[Slot(id)]);
      var first := at / BLOCK_SIZE;
      var numBlocks := Blocks(length);
      overflow := FreeBlocks(first, numBlocks);
      ClearSummary(first / SECTION_BLOCKS);
      stats := CountFree(stats, length);
      ghost var d' := Free(d, id);
      assert table[..] == d'.table && l1[..] == d'.l1 && l2[..] == d'.l2;
    }

    /** The section is no longer full. */
    method ClearSummary(s: nat)
      requires Valid() && s < SECTIONS
      modifies l1
      ensures l1[..] == ClearOne(old(l1[..]), s)
    {
      hide Bit, Mask, ClearOne;
      var entry, bit := s / 8, s % 8;
      ClearedBit(l1[..], s);
      if Bit(l1[entry], bit) {
        l1[entry] := l1[entry] & !Mask(bit);
      }
    }

    // ---- the programs ----

    /** `mram_write` into the storage area. A transfer that leaves the memory of the DPU has no defined effect; here it
        is told from the others and not performed. */
    method WriteStorage(at: nat, bytes: seq<byte>) returns (inside: bool)
      requires Valid()
      modifies storage
      ensures inside <==> at + |bytes| <= STORAGE_BYTES
      ensures storage[..] == if inside then Write(old(storage[..]), at, bytes) else old(storage[..])
    {
      inside := at + |bytes| <= STORAGE_BYTES;
      if inside {
        forall i | 0 <= i < |bytes| { storage[at + i] := bytes[i]; }
      }
    }

    /** The middle of `lzo_compress_main`: a page that fails to compress, or to save a block, is kept as it is. */
    method CompressPage(codec: Codec, page: seq<byte>) returns (length: nat, out: seq<byte>)
      requires Valid() && Inverts(codec) && |page| == PAGE_SIZE
      modifies this`stats
      ensures (length, out) == Payload(codec, page) && Now() == CountUncompressable(old(Now()), length)
      ensures 1 <= length <= PAGE_SIZE && |out| == PAGE_SIZE
    {
      var c := codec.compress(page);
      length, out := c.length, c.buffer;
      if !c.ok { length, out := PAGE_SIZE, page; }
      if length > PAGE_SIZE - BLOCK_SIZE {
        stats := stats.(uncompressable := Plus(stats.uncompressable, 1, TWO_32));
        length, out := PAGE_SIZE, page;
      }
    }

    /** `lzo_compress_main`: `heapOk` says whether the two page buffers could be allocated. The id word, which follows
        the page in the transfer area, is overwritten with the status. */
    method CompressMain(codec: Codec, heapOk: bool, junk: uint32, junkBit: nat) returns (ret: int, ghost reply: Reply)
      requires Valid() && Inverts(codec)
      modifies this`stats, this`idWord, l1, l2, table, storage
      ensures Whole(codec, transPage[..])
      ensures Valid() && (State(), reply) == Store(codec, old(State()), old(idWord), transPage[..], heapOk, junk)
      ensures reply != Overrun ==> ret == (if reply == Stored then 0 else -1)
      ensures reply != Overrun ==>
                idWord == match reply
                          case NoWram => STATUS_NO_WRAM
                          case NoSpace => STATUS_NO_SPACE
                          case _ => STATUS_OK
    {
      hide Write, Alloc, Pick;
      ghost var m := State();
      ghost var page0 := transPage[..];
      InvertedIsWhole(codec, page0);
      if idWord < PAGE_VALID {
        idWord := STATUS_OK;
        return -1, Ignored;
      }
      var id := idWord - PAGE_VALID;
      if !heapOk {
        idWord := STATUS_NO_WRAM;
        return -1, NoWram;
      }
      var page := transPage[..];
      var length, out := CompressPage(codec, page);
      ghost var d := Now();
      var block := AllocPage(id, length, junk, junkBit);
      if block.None? {
        idWord := STATUS_NO_SPACE;
        return -1, NoSpace;
      }
      var inside := WriteStorage(Address(block.value), out[..Align8(length)]);
      if !inside { return -1, Overrun; }
      idWord := STATUS_OK;
      return 0, Stored;
    }

    /** `mram_read` of a page into a page buffer; a transfer that leaves either memory is not performed. */
    method ReadStorage(at: nat, length: nat) returns (inside: bool, bytes: seq<byte>)
      requires Valid()
      ensures inside <==> length <= PAGE_SIZE && at + length <= STORAGE_BYTES
      ensures inside ==> bytes == storage[..][at..at + length]
    {
      inside := length <= PAGE_SIZE && at + length <= STORAGE_BYTES;
      bytes := if inside then storage[at..at + length] else [];
      assert inside ==> bytes == storage[..][at..at + length];
    }

    /** `lzo_decompress_main` */
    method DecompressMain(codec: Codec, heapOk: bool) returns (ret: int)
      requires Valid()
      modifies transPage
      ensures Valid() && State() == old(State())
      ensures match Load(codec, old(State()), idWord)
              case Loaded(page) =>
                if heapOk then ret == 0 && transPage[..] == page else ret == -1 && transPage[..] == old(transPage[..])
              case Overrun => !heapOk ==> ret == -1 && transPage[..] == old(transPage[..])
              case _ => ret == -1 && transPage[..] == old(transPage[..])
    {
      var found, at, length := LookupIndex(idWord);
      if !found { return -1; }
      if !heapOk { return -1; }
      var inside, stored := ReadStorage(at, length);
      if !inside { return -1; }
      var page := stored;
      if length != PAGE_SIZE {
        var r := codec.decompress(stored);
        if r.None? || |r.value| != PAGE_SIZE { return -1; }
        page := r.value;
      }
      forall i | 0 <= i < PAGE_SIZE { transPage[i] := page[i]; }
      assert transPage[..] == page;
      return 0;
    }

    /** `dpu_invalidate_main` */
    method InvalidateMain()
      requires Valid() && (idWord >= PAGE_VALID ==> Freeable(Now(), idWord - PAGE_VALID))
      modifies this`stats, l1, l2, table
      ensures Valid() && State() == Drop(old(State()), idWord)
    {
      hide Free, Insert;
      if idWord < PAGE_VALID { return; }
      var id := idWord - PAGE_VALID;
      var overflow := FreePage(id);
      var found, at, length := LookupIndex(id);
      if found { InsertIndex(id, 0, 0); }
    }
  }

  const STATUS_OK: uint32 := 0
  const STATUS_NO_WRAM: uint32 := 1
  const STATUS_NO_SPACE: uint32 := 2

  /** The entry found for `id`, if there is one, begins inside the storage area. */
  predicate Freeable(d: Dir, id: nat)
    requires d.Shape()
  {
    match Lookup(d.table, id)
    case None => true
    case Some(e) => Address(e.block) / BLOCK_SIZE < NUM_BLOCKS
  }

  /** Clearing a bit that is clear changes nothing. */
  lemma ClearedBit(m: seq<bv8>, s: nat)
    requires s < 8 * |m|
    ensures ClearOne(m, s) == if Bit(m[s / 8], s % 8) then m[s / 8 := m[s / 8] & !Mask(s % 8)] else m
  {
    var b := m[s / 8];
    if !Bit(b, s % 8) {
      assert m[s / 8 := b] == m;
    }
  }

  /** A full summary byte stands for eight sections that the search passes over. */
  lemma PickSkipsByte(d: Dir, n: nat, entry: nat)
    requires d.Shape() && entry < L1_BYTES && d.l1[entry] == FULL
    ensures Pick(d, n, 8 * entry) == Pick(d, n, 8 * entry + 8)
  {
    PickSkipsFrom(d, n, entry, 0);
  }

  lemma {:induction false} PickSkipsFrom(d: Dir, n: nat, entry: nat, k: nat)
    requires d.Shape() && entry < L1_BYTES && d.l1[entry] == FULL && k <= 8
    ensures Pick(d, n, 8 * entry + k) == Pick(d, n, 8 * entry + 8)
    decreases 8 - k
  {
    hide Section, Scan, Used;
    if k < 8 {
      FullSummaryBit(d.l1, entry, k);
      PickSkipsFrom(d, n, entry, k + 1);
    }
  }

  lemma FullSummaryBit(l1: seq<bv8>, entry: nat, k: nat)
    requires entry < |l1| && l1[entry] == FULL && k < 8
    ensures Used(l1, 8 * entry + k)
  {
    FullByte(l1[entry]);
    assert (8 * entry + k) / 8 == entry && (8 * entry + k) % 8 == k;
  }
}
