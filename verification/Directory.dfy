/** The directory of a DPU: the two-level allocation bitmap, the hash index and the statistics, and what the
    operations of alloc_static.c make of them. */
module Directory {
  import opened Bytes
  import opened Bitmap
  import opened SectionScan

  const PAGE_SIZE: nat := 4096
  const BLOCK_SIZE: nat := 64
  const SECTIONS: nat := 1920
  const NUM_BLOCKS: nat := 983040
  const L1_BYTES: nat := 240
  const L2_BYTES: nat := 122880
  /** `NUM_HASH_ENTRIES`: the rest of the directory divided into eight-byte entries. */
  const HASH_ENTRIES: nat := 377313
  const UINT_MAX: nat := 0xFFFF_FFFF
  const TWO_64: nat := 0x1_0000_0000_0000_0000
  const TWO_16: nat := 0x1_0000

  type uint16 = x: int | 0 <= x < TWO_16

  /** `pim_hash_entry` */
  datatype Entry = Entry(block: uint32, tag: uint16, length: uint16)

  type uint32 = x: int | 0 <= x < TWO_32
  type uint64 = x: int | 0 <= x < TWO_64

  datatype Stats = Stats(allocs: uint64, frees: uint64, pages: uint64,
                         blocks: uint32, bytes: uint32, uncompressable: uint32)

  /** Unsigned addition and subtraction with wrap-around. */
  function Plus(a: nat, b: nat, modulus: nat): (r: nat)
    requires a < modulus && b < modulus
    ensures r < modulus
  {
    if a + b < modulus then a + b else a + b - modulus
  }

  function Minus(a: nat, b: nat, modulus: nat): (r: nat)
    requires a < modulus && b < modulus
    ensures r < modulus
  {
    if b <= a then a - b else a - b + modulus
  }

  datatype Dir = Dir(l1: seq<bv8>, l2: seq<bv8>, table: seq<Entry>, stats: Stats) {
    predicate Shape() {
      |l1| == L1_BYTES && |l2| == L2_BYTES && |table| == HASH_ENTRIES
    }
  }

  // ---- addresses ----

  /** The slot of a page id: the index is kept in 16 bits. */
  function Slot(id: nat): (s: nat)
    ensures s < TWO_16
  {
    id % HASH_ENTRIES % TWO_16
  }

  function Tag(id: nat): uint16 {
    id % TWO_16
  }

  /** The blocks that `length` bytes take, counted in 8 bits. */
  function Blocks(length: nat): (n: nat)
    ensures n < 0x100
    ensures 1 <= length <= PAGE_SIZE ==> 1 <= n <= 64 && BLOCK_SIZE * (n - 1) < length <= BLOCK_SIZE * n
  {
    (length + BLOCK_SIZE - 1) / BLOCK_SIZE % 0x100
  }

  /** The offset of a block in the storage area, counted in 32 bits. */
  function Address(block: uint32): (at: nat)
    ensures at < TWO_32
    ensures block < NUM_BLOCKS ==> at == BLOCK_SIZE * block && at / BLOCK_SIZE == block
  {
    BLOCK_SIZE * block % TWO_32
  }

  function Section(l2: seq<bv8>, s: nat): (r: seq<bv8>)
    requires |l2| == L2_BYTES && s < SECTIONS
    ensures |r| == SECTION_BYTES
  {
    l2[SECTION_BYTES * s..SECTION_BYTES * s + SECTION_BYTES]
  }

  function WithSection(l2: seq<bv8>, s: nat, section: seq<bv8>): (r: seq<bv8>)
    requires |l2| == L2_BYTES && s < SECTIONS && |section| == SECTION_BYTES
    ensures |r| == L2_BYTES
  {
    l2[..SECTION_BYTES * s] + section + l2[SECTION_BYTES * s + SECTION_BYTES..]
  }

  predicate SectionFull(section: seq<bv8>) {
    forall e :: 0 <= e < |section| ==> section[e] == FULL
  }

  // ---- the hash index ----

  /** `pimswap_lookup_index_hash` */
  function Lookup(table: seq<Entry>, id: nat): Option<Entry>
    requires |table| == HASH_ENTRIES
  {
    var e := table[Slot(id)];
    if e.length != 0 && e.tag == Tag(id) then Some(e) else None
  }

  /** `pimswap_insert_index_hash`: refused when the slot is taken, unless block or length is zero. */
  function Insert(table: seq<Entry>, id: nat, block: uint32, length: nat): (t: seq<Entry>)
    requires |table| == HASH_ENTRIES
    ensures |t| == HASH_ENTRIES
  {
    if block != 0 && length != 0 && table[Slot(id)].length != 0 then table
    else table[Slot(id) := Entry(block, Tag(id), length % TWO_16)]
  }

  // ---- allocation ----

  /** Where the search of the sections from `s` on stops: the first one not marked full whose scan succeeds. */
  function Pick(d: Dir, n: nat, s: nat): (r: Option<(nat, Run)>)
    requires d.Shape() && s <= SECTIONS
    ensures r.Some? ==> s <= r.value.0 < SECTIONS && Scan(Section(d.l2, r.value.0), n) == Some(r.value.1)
    decreases SECTIONS - s, d
  {
    if s == SECTIONS then None
    else if !Used(d.l1, s) && Scan(Section(d.l2, s), n).Some? then Some((s, Scan(Section(d.l2, s), n).value))
    else Pick(d, n, s + 1)
  }

  /** The bitmaps after `n` bits ending at the last block of the run are marked. */
  function Mark(d: Dir, s: nat, run: Run, n: nat): (r: Dir)
    requires d.Shape() && s < SECTIONS && n <= run.last + 1 <= SECTION_BLOCKS
    ensures r.Shape()
  {
    var section := SetRun(Section(d.l2, s), run.last + 1 - n, n);
    d.(l2 := WithSection(d.l2, s, section), l1 := if SectionFull(section) then SetOne(d.l1, s) else d.l1)
  }

  function CountAlloc(st: Stats, length: uint32): Stats {
    st.(allocs := Plus(st.allocs, 1, TWO_64), pages := Plus(st.pages, 1, TWO_64),
        blocks := Plus(st.blocks, Blocks(length), TWO_32), bytes := Plus(st.bytes, length, TWO_32))
  }

  /** The first byte of the summary is full while `first_block` happens not to hold UINT_MAX: the search stops before
      it starts and goes on with whatever `first_block` held. */
  predicate ReadsJunk(d: Dir, junk: uint32)
    requires d.Shape()
  {
    d.l1[0] == FULL && junk != UINT_MAX
  }

  /** What follows a successful search: the run is marked, counted and entered in the index. */
  function Take(d: Dir, id: nat, length: nat, s: nat, run: Run): (r: (Dir, Option<uint32>))
    requires d.Shape() && 1 <= length <= PAGE_SIZE && s < SECTIONS
    requires Blocks(length) <= run.last + 1 <= SECTION_BLOCKS && run.first <= run.last
    ensures r.0.Shape()
  {
    var first := SECTION_BLOCKS * s + run.first;
    var marked := Mark(d, s, run, Blocks(length));
    (marked.(stats := CountAlloc(d.stats, length), table := Insert(d.table, id, first, length)), Some(first))
  }

  /** `pimswap_alloc_page_static`: the directory afterwards and the first block, if one was found. `junk` is what the
      uninitialised variable `first_block` holds. */
  function Alloc(d: Dir, id: nat, length: nat, junk: uint32): (r: (Dir, Option<uint32>))
    requires d.Shape() && 1 <= length <= PAGE_SIZE
    ensures r.0.Shape()
  {
    if ReadsJunk(d, junk) then
      (d.(stats := CountAlloc(d.stats, length), table := Insert(d.table, id, junk, length)), Some(junk))
    else
      match Pick(d, Blocks(length), 0)
      case None => (d, None)
      case Some((s, run)) =>
        ScanSound(Section(d.l2, s), Blocks(length));
        Take(d, id, length, s, run)
  }

  // ---- freeing ----

  function CountFree(st: Stats, length: uint32): Stats {
    st.(frees := Plus(st.frees, 1, TWO_64), pages := Minus(st.pages, 1, TWO_64),
        blocks := Minus(st.blocks, Blocks(length), TWO_32), bytes := Minus(st.bytes, length, TWO_32))
  }

  /** `free_blocks_l2` and the summary update: bits are cleared forwards and never beyond the section. */
  function Unmark(d: Dir, block: nat, n: nat): (r: Dir)
    requires d.Shape() && block < NUM_BLOCKS
    ensures r.Shape()
  {
    var s, p := block / SECTION_BLOCKS, block % SECTION_BLOCKS;
    var inside := if p + n <= SECTION_BLOCKS then n else SECTION_BLOCKS - p;
    d.(l2 := WithSection(d.l2, s, ClearRun(Section(d.l2, s), p, inside)), l1 := ClearOne(d.l1, s))
  }

  /** `pimswap_free_page_static`. A first block outside the storage area would address memory behind the bitmap; that
      memory is not part of this model. */
  function Free(d: Dir, id: nat): (r: Dir)
    requires d.Shape()
    ensures r.Shape()
  {
    match Lookup(d.table, id)
    case None => d
    case Some(e) =>
      var first := Address(e.block) / BLOCK_SIZE;
      var freed := if first < NUM_BLOCKS then Unmark(d, first, Blocks(e.length)) else d;
      freed.(stats := CountFree(d.stats, e.length))
  }

  /** The directory part of `dpu_invalidate_main`: free the page, then clear its index entry. */
  function Invalidate(d: Dir, id: nat): (r: Dir)
    requires d.Shape()
    ensures r.Shape()
  {
    var freed := Free(d, id);
    if Lookup(freed.table, id).Some? then freed.(table := Insert(freed.table, id, 0, 0)) else freed
  }
}
