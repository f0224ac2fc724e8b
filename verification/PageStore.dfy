/** The three DPU programs of swap.c on one DPU, and the map from page ids to pages that they maintain. */
module PageStore {
  import opened Bytes
  import opened Bitmap
  import opened SectionScan
  import opened Directory
  import opened DirectoryInvariant
  import opened DirectoryTheorems

  // ---- the memory of a DPU, as `struct mram_layout` divides it ----

  const MRAM_SIZE: nat := 0x400_0000
  const RESERVED_SIZE: nat := 0x10_0000
  const DIRECTORY_SIZE: nat := 0x30_0000 - 0x1000 - 4
  /** `STORAGE_SIZE`, the declared size. */
  const STORAGE_SIZE: nat := MRAM_SIZE - 0x40_0000
  /** The offset of the storage area: it follows the reserved area, the transfer page, its id word, the status word and
      the directory. */
  const STORAGE_OFFSET: nat := RESERVED_SIZE + PAGE_SIZE + 4 + 4 + DIRECTORY_SIZE
  /** The bytes of the storage area that lie inside the memory: four less than declared. */
  const STORAGE_BYTES: nat := MRAM_SIZE - STORAGE_OFFSET

  /** The high bit of the id word that the host sends with a page. */
  const PAGE_VALID: nat := 0x8000_0000

  // ---- the codec ----

  /** What compressing a page leaves behind: a result code, a length, and the whole output page in WRAM. */
  datatype Compressed = Compressed(ok: bool, length: nat, buffer: seq<byte>)

  /** The kernel's compressor, which is not modelled further. */
  datatype Codec = Codec(compress: seq<byte> -> Compressed, decompress: seq<byte> -> Option<seq<byte>>)

  /** Decompression inverts every compression that is stored, and nothing compresses to zero bytes. */
  ghost predicate Inverts(codec: Codec) {
    forall page :: |page| == PAGE_SIZE ==>
      var c := codec.compress(page);
      && |c.buffer| == PAGE_SIZE
      && (c.ok ==> 1 <= c.length)
      && (c.ok && c.length <= PAGE_SIZE - BLOCK_SIZE ==> codec.decompress(c.buffer[..c.length]) == Some(page))
  }

  /** A page that does not shrink by at least one block is stored as it is. */
  function Payload(codec: Codec, page: seq<byte>): (r: (nat, seq<byte>)) {
    var c := codec.compress(page);
    if !c.ok || c.length > PAGE_SIZE - BLOCK_SIZE then (PAGE_SIZE, page) else (c.length, c.buffer)
  }

  /** A whole page, for which the compressor leaves a whole output page and claims at least one byte. */
  predicate Whole(codec: Codec, page: seq<byte>) {
    |page| == PAGE_SIZE && 1 <= Payload(codec, page).0 && |Payload(codec, page).1| == PAGE_SIZE
  }

  lemma InvertedIsWhole(codec: Codec, page: seq<byte>)
    requires Inverts(codec) && |page| == PAGE_SIZE
    ensures Whole(codec, page) && Payload(codec, page).0 <= PAGE_SIZE
  {
  }

  // ---- the programs ----

  /** The directory, and the storage area as far as it lies inside the memory: all but four bytes of it, or the whole
      area in a DPU whose layout is repaired. */
  datatype Machine = Machine(dir: Dir, storage: seq<byte>) {
    predicate Shape() {
      dir.Shape() && (|storage| == STORAGE_BYTES || |storage| == STORAGE_SIZE)
    }
  }

  /** The outcomes of the programs. `Overrun` stands for a transfer that leaves the memory it is meant for, which has no
      defined effect: it is not performed here, and nothing more is said about it. */
  datatype Reply = Ignored | NoWram | NoSpace | Stored | Overrun | Loaded(page: seq<byte>) | Missing | Done

  /** A length rounded up to what an MRAM transfer needs. */
  function Align8(n: nat): (r: nat)
    ensures n <= r < n + 8 && r % 8 == 0
  {
    (n + 7) / 8 * 8
  }

  /** Bytes written at an offset of the storage area. */
  function Write(storage: seq<byte>, at: nat, bytes: seq<byte>): (r: seq<byte>)
    requires at + |bytes| <= |storage|
    ensures |r| == |storage|
  {
    storage[..at] + bytes + storage[at + |bytes|..]
  }

  function CountUncompressable(d: Dir, length: nat): (r: Dir)
    ensures d.Shape() ==> r.Shape()
  {
    if length == PAGE_SIZE then d.(stats := d.stats.(uncompressable := Plus(d.stats.uncompressable, 1, TWO_32))) else d
  }

  /** What follows the allocation: the page is written to its blocks, if there are any. */
  function Place(m: Machine, d: Dir, first: Option<uint32>, length: nat, buffer: seq<byte>): (r: (Machine, Reply))
    requires Align8(length) <= |buffer|
    ensures m.Shape() && d.Shape() ==> r.0.Shape()
    ensures r.1 == Overrun <==> first.Some? && Address(first.value) + Align8(length) > |m.storage|
  {
    match first
    case None => (Machine(d, m.storage), NoSpace)
    case Some(block) =>
      if Address(block) + Align8(length) > |m.storage| then (Machine(d, m.storage), Overrun)
      else (Machine(d, Write(m.storage, Address(block), buffer[..Align8(length)])), Stored)
  }

  /** `lzo_compress_main` */
  function Store(codec: Codec, m: Machine, word: nat, page: seq<byte>, heapOk: bool, junk: uint32):
    (r: (Machine, Reply))
    requires m.Shape() && Whole(codec, page)
    ensures r.0.Shape() && |r.0.storage| == |m.storage|
  {
    if word < PAGE_VALID then (m, Ignored)
    else if !heapOk then (m, NoWram)
    else
      var (length, buffer) := Payload(codec, page);
      var (d, first) := Alloc(CountUncompressable(m.dir, length), word - PAGE_VALID, length, junk);
      Place(m, d, first, length, buffer)
  }

  /** What loading the entry `e` yields. */
  function PageAt(codec: Codec, storage: seq<byte>, e: Entry): (r: Option<seq<byte>>)
    ensures r.Some? ==> Address(e.block) + e.length <= |storage|
  {
    var at := Address(e.block);
    if at + e.length > |storage| then None
    else if e.length == PAGE_SIZE then Some(storage[at..at + e.length])
    else
      match codec.decompress(storage[at..at + e.length])
      case Some(page) => if |page| == PAGE_SIZE then Some(page) else None
      case None => None
  }

  /** The transfer of the page of this entry stays inside the storage area and the page buffer. */
  predicate Readable(storage: seq<byte>, e: Entry) {
    e.length <= PAGE_SIZE && Address(e.block) + e.length <= |storage|
  }

  /** `lzo_decompress_main`; the id word is used as it is. */
  function Load(codec: Codec, m: Machine, word: nat): Reply
    requires m.Shape()
  {
    match Lookup(m.dir.table, word)
    case None => Missing
    case Some(e) =>
      if !Readable(m.storage, e) then Overrun
      else
        match PageAt(codec, m.storage, e)
        case Some(page) => Loaded(page)
        case None => Missing
  }

  /** A load yields `page` exactly when the entry in the slot of the id has its tag, its bytes lie inside the memory,
      and they are the page, or what the codec makes of them is. */
  lemma LoadExactly(codec: Codec, m: Machine, word: nat, page: seq<byte>)
    requires m.Shape()
    ensures var e := m.dir.table[Slot(word)]; var at := BLOCK_SIZE * e.block % TWO_32;
            Load(codec, m, word) == Loaded(page) <==>
            && e.tag == word % TWO_16 && 1 <= e.length <= PAGE_SIZE && at + e.length <= |m.storage|
            && |page| == PAGE_SIZE
            && (if e.length == 4096 then m.storage[at..at + e.length] == page
                else codec.decompress(m.storage[at..at + e.length]) == Some(page))
    ensures var e := m.dir.table[Slot(word)]; var at := BLOCK_SIZE * e.block % TWO_32;
            Load(codec, m, word) == Overrun <==>
            && e.tag == word % TWO_16 && e.length != 0
            && (e.length > PAGE_SIZE || at + e.length > |m.storage|)
  {
    hide Slot;
  }

  /** `dpu_invalidate_main` */
  function Drop(m: Machine, word: nat): (r: Machine)
    requires m.Shape()
    ensures r.Shape()
  {
    if word < PAGE_VALID then m else m.(dir := Invalidate(m.dir, word - PAGE_VALID))
  }

  /** A page of this length at this block reaches the end of the storage area as it is transferred. */
  predicate AtEnd(first: nat, length: nat) {
    first + Blocks(length) == NUM_BLOCKS && Align8(length) == BLOCK_SIZE * Blocks(length)
  }

  /** Exactly the transfers that reach the end of the declared storage area leave the memory of the DPU. */
  lemma LeavesMemoryExactly(d: Dir, id: nat, length: nat, junk: uint32)
    requires d.Shape() && 1 <= length <= PAGE_SIZE && !ReadsJunk(d, junk) && Alloc(d, id, length, junk).1.Some?
    ensures var first := Alloc(d, id, length, junk).1.value;
            STORAGE_OFFSET + Address(first) + Align8(length) > MRAM_SIZE <==> AtEnd(first, length)
  {
    hide Alloc, Pick, PickedBlock;
    AllocInBounds(d, id, length, junk);
  }

  /** Every page of the index lies, as it is transferred, inside the part of the storage area that exists. */
  ghost predicate AllInMemory(m: Machine) {
    forall i :: 0 <= i < |m.dir.table| && m.dir.table[i].length != 0 ==>
      Address(m.dir.table[i].block) + Align8(m.dir.table[i].length) <= |m.storage|
  }

  // ---- the map ----

  /** What a slot holds for its reader: the tag that must match and the page. */
  type Contents = map<nat, (uint16, seq<byte>)>

  function Find(a: Contents, id: nat): Option<seq<byte>> {
    if Slot(id) in a && a[Slot(id)].0 == Tag(id) then Some(a[Slot(id)].1) else None
  }

  function Enter(a: Contents, id: nat, page: seq<byte>): Contents {
    a[Slot(id) := (Tag(id), page)]
  }

  function Remove(a: Contents, id: nat): Contents {
    if Find(a, id).Some? then a - {Slot(id)} else a
  }

  /** The directory is sound and every slot holds exactly the page the map says. */
  ghost predicate Represents(codec: Codec, m: Machine, a: Contents) {
    && m.Shape() && Inv(m.dir)
    && (forall i :: i in a <==> 0 <= i < HASH_ENTRIES && m.dir.table[i].length != 0)
    && (forall i: nat :: i in a && i < HASH_ENTRIES ==>
          && m.dir.table[i].tag == a[i].0 && |a[i].1| == PAGE_SIZE
          && PageAt(codec, m.storage, m.dir.table[i]) == Some(a[i].1))
  }

  lemma LoadFinds(codec: Codec, m: Machine, a: Contents, word: nat)
    requires Represents(codec, m, a)
    ensures Load(codec, m, word) == match Find(a, word) case Some(page) => Loaded(page) case None => Missing
  {
    if Lookup(m.dir.table, word).Some? { LookupFits(m.dir, word); }
    hide Inv, PageAt;
  }

  /** Bytes written into other blocks do not change what an entry yields. */
  lemma WriteElsewhere(codec: Codec, storage: seq<byte>, at: nat, bytes: seq<byte>, e: Entry)
    requires at + |bytes| <= |storage|
    requires Address(e.block) + e.length <= at || at + |bytes| <= Address(e.block)
    ensures PageAt(codec, Write(storage, at, bytes), e) == PageAt(codec, storage, e)
  {
    hide Write;
    if Address(e.block) + e.length <= |storage| {
      WriteKeeps(storage, at, bytes, Address(e.block), Address(e.block) + e.length);
    }
  }

  lemma WriteKeeps(storage: seq<byte>, at: nat, bytes: seq<byte>, from: nat, to: nat)
    requires at + |bytes| <= |storage| && from <= to <= |storage| && (to <= at || at + |bytes| <= from)
    ensures Write(storage, at, bytes)[from..to] == storage[from..to]
  {
  }

  lemma WriteHere(codec: Codec, storage: seq<byte>, page: seq<byte>, e: Entry)
    requires Inverts(codec) && Whole(codec, page) && e.length == Payload(codec, page).0
    requires Address(e.block) + Align8(e.length) <= |storage|
    ensures var bytes := Payload(codec, page).1[..Align8(e.length)];
            PageAt(codec, Write(storage, Address(e.block), bytes), e) == Some(page)
  {
    var (length, buffer) := Payload(codec, page);
    assert length == PAGE_SIZE || length <= PAGE_SIZE - BLOCK_SIZE;
    var at := Address(e.block);
    assert Align8(length) <= PAGE_SIZE;
    var written := Write(storage, at, buffer[..Align8(length)]);
    assert written[at..at + length] == buffer[..length];
    if length == PAGE_SIZE && buffer == page { assert buffer[..length] == page; }
  }

  // ---- each program refines its map operation ----

  lemma CountKeepsInv(d: Dir, length: nat)
    requires Inv(d)
    ensures Inv(CountUncompressable(d, length))
  {
    hide Used, Total, CountUsed, AllFit, Disjoint, Accounted, Summarised;
  }

  /** The blocks of a live entry lie on one side of any run of free blocks. */
  lemma ApartFromFree(d: Dir, i: nat, first: nat, n: nat)
    requires Inv(d) && i < HASH_ENTRIES && d.table[i].length != 0 && n > 0
    requires first + n <= NUM_BLOCKS && FreeRun(d.l2, first, n)
    ensures var e := d.table[i]; e.block + Blocks(e.length) <= first || first + n <= e.block
    ensures var e := d.table[i];
            e.length <= BLOCK_SIZE * Blocks(e.length) && 1 <= Blocks(e.length) && e.block < NUM_BLOCKS
  {
    hide Used, Total, CountUsed, Summarised, Tallied, Disjoint;
    var e := d.table[i];
    assert Fits(e);
    OwnedAreUsed(d, i);
    var b := if first <= e.block then e.block else first;
    assert b < e.block + Blocks(e.length) ==> Used(d.l2, b);
    assert b < first + n ==> !Used(d.l2, b);
  }

  /** When a store asks the directory for blocks, it does so safely. */
  ghost predicate StoreSafe(codec: Codec, m: Machine, word: nat, page: seq<byte>, heapOk: bool, junk: uint32)
    requires m.Shape()
  {
    word >= PAGE_VALID && heapOk ==> AllocSafe(m.dir, word - PAGE_VALID, Payload(codec, page).0, junk)
  }

  /** The page of a store does not reach beyond the memory of the DPU: there is another place for it than the end of the
      storage area, or its transfer ends short of that end. */
  ghost predicate StoreFits(codec: Codec, m: Machine, word: nat, page: seq<byte>, heapOk: bool)
    requires m.Shape()
  {
    word >= PAGE_VALID && heapOk && |m.storage| != STORAGE_SIZE ==>
      var length := Payload(codec, page).0;
      !OnlyLast(m.dir.l2, Blocks(length)) || Align8(length) != BLOCK_SIZE * Blocks(length)
  }

  lemma BeyondExactly(first: nat, length: nat, size: nat)
    requires 1 <= length <= PAGE_SIZE && first + Blocks(length) <= NUM_BLOCKS
    requires size == STORAGE_BYTES || size == STORAGE_SIZE
    ensures Address(first) + Align8(length) > size <==> size != STORAGE_SIZE && AtEnd(first, length)
  {
    assert Align8(length) <= BLOCK_SIZE * Blocks(length);
    assert Address(first) == BLOCK_SIZE * first;
    hide Address, Blocks;
  }

  /** A store leaves the memory of the DPU exactly when it does not fit, which the bitmap tells beforehand. */
  lemma OverrunsExactly(codec: Codec, m: Machine, word: nat, page: seq<byte>, heapOk: bool, junk: uint32)
    requires m.Shape() && Summarised(m.dir.l1, m.dir.l2) && Whole(codec, page)
    requires word >= PAGE_VALID && heapOk ==> !ReadsJunk(m.dir, junk)
    ensures Store(codec, m, word, page, heapOk, junk).1 == Overrun <==> !StoreFits(codec, m, word, page, heapOk)
  {
    hide Alloc, Pick, PickedBlock, OnlyLast, Summarised;
    if word >= PAGE_VALID && heapOk {
      var id, length := word - PAGE_VALID, Payload(codec, page).0;
      var d := CountUncompressable(m.dir, length);
      var first := Alloc(d, id, length, junk).1;
      AllocPicks(d, id, length, junk);
      PicksLastExactly(d, Blocks(length));
      if first.Some? {
        AllocInBounds(d, id, length, junk);
        BeyondExactly(first.value, length, |m.storage|);
      }
      hide Address, Align8, Blocks;
    }
  }

  lemma AllocPicks(d: Dir, id: nat, length: nat, junk: uint32)
    requires d.Shape() && 1 <= length <= PAGE_SIZE && !ReadsJunk(d, junk)
    ensures Alloc(d, id, length, junk).1.Some? <==> Pick(d, Blocks(length), 0).Some?
  {
    hide Pick, Mark, Insert;
  }

  lemma StoredOthers(codec: Codec, m: Machine, a: Contents, first: nat, n: nat, bytes: seq<byte>, i: nat)
    requires Represents(codec, m, a) && i in a && i < HASH_ENTRIES
    requires n > 0 && first + n <= NUM_BLOCKS && FreeRun(m.dir.l2, first, n) && |bytes| <= BLOCK_SIZE * n
    requires Address(first) + |bytes| <= |m.storage|
    ensures PageAt(codec, Write(m.storage, Address(first), bytes), m.dir.table[i]) == Some(a[i].1)
  {
    hide Inv, PageAt, Write;
    ApartFromFree(m.dir, i, first, n);
    WriteElsewhere(codec, m.storage, Address(first), bytes, m.dir.table[i]);
  }

  /** A safe store overruns exactly when it does not fit. */
  lemma SafeOverruns(codec: Codec, m: Machine, word: nat, page: seq<byte>, heapOk: bool, junk: uint32)
    requires m.Shape() && Inv(m.dir) && Whole(codec, page) && StoreSafe(codec, m, word, page, heapOk, junk)
    ensures Store(codec, m, word, page, heapOk, junk).1 == Overrun <==> !StoreFits(codec, m, word, page, heapOk)
  {
    hide Store, StoreFits, NoRoom, Uncarried, Disjoint, Accounted, Tallied, AllFit, Summarised, Payload;
    OverrunsExactly(codec, m, word, page, heapOk, junk);
  }

  /** Storing puts exactly this page under its id; a refused store changes nothing the map can see. */
  lemma StoreRefines(codec: Codec, m: Machine, a: Contents, word: nat, page: seq<byte>, heapOk: bool, junk: uint32)
    requires Represents(codec, m, a) && Inverts(codec) && Whole(codec, page)
    requires StoreSafe(codec, m, word, page, heapOk, junk) && StoreFits(codec, m, word, page, heapOk)
    ensures var (m', reply) := Store(codec, m, word, page, heapOk, junk);
            Represents(codec, m', if reply == Stored then Enter(a, word - PAGE_VALID, page) else a)
    ensures Store(codec, m, word, page, heapOk, junk).1 == Stored ==> word >= PAGE_VALID
  {
    hide Inv, PageAt, Write, Alloc, AllocSafe, Entered, StoreFits;
    SafeOverruns(codec, m, word, page, heapOk, junk);
    if word >= PAGE_VALID && heapOk {
      var id, length := word - PAGE_VALID, Payload(codec, page).0;
      var d := CountUncompressable(m.dir, length);
      CountKeepsInv(m.dir, length);
      SafeUnlessCounted(m.dir, length, id, junk);
      var (d', first) := Alloc(d, id, length, junk);
      if first.Some? {
        AllocEffect(d, id, length, junk);
        StoredPage(codec, m, a, id, page, d', first.value);
      } else {
        NoSpaceKeeps(d, id, length, junk);
      }
    }
  }

  lemma SafeUnlessCounted(d: Dir, length: nat, id: nat, junk: uint32)
    requires d.Shape()
    ensures AllocSafe(d, id, length, junk) <==> AllocSafe(CountUncompressable(d, length), id, length, junk)
  {
  }

  lemma StoredPage(codec: Codec, m: Machine, a: Contents, id: nat, page: seq<byte>, d': Dir, first: uint32)
    requires Represents(codec, m, a) && Inverts(codec) && Whole(codec, page)
    requires Entered(CountUncompressable(m.dir, Payload(codec, page).0), d', id, Payload(codec, page).0, first)
    requires Address(first) + Align8(Payload(codec, page).0) <= |m.storage|
    ensures var (m', reply) := Place(m, d', Some(first), Payload(codec, page).0, Payload(codec, page).1);
            reply == Stored && Represents(codec, m', Enter(a, id, page))
  {
    hide Inv, PageAt, Write, FreeRun, Blocks, SetRun, CountAlloc, Summarised;
    var (length, buffer) := Payload(codec, page);
    CountKeepsInv(m.dir, length);
    EnteredKeepsInv(CountUncompressable(m.dir, length), d', id, length, first);
    assert Align8(length) <= BLOCK_SIZE * Blocks(length);
    WriteHere(codec, m.storage, page, Entry(first, Tag(id), length));
    PageEntered(codec, m, a, d', id, page, first, length, buffer[..Align8(length)]);
  }

  lemma PageEntered(codec: Codec, m: Machine, a: Contents, d': Dir, id: nat, page: seq<byte>,
                    first: uint32, length: uint16, bytes: seq<byte>)
    requires Represents(codec, m, a) && Inv(d') && d'.Shape() && |page| == PAGE_SIZE
    requires 1 <= length <= PAGE_SIZE && d'.table == m.dir.table[Slot(id) := Entry(first, Tag(id), length)]
    requires first + Blocks(length) <= NUM_BLOCKS && FreeRun(m.dir.l2, first, Blocks(length))
    requires |bytes| <= BLOCK_SIZE * Blocks(length) && Address(first) + |bytes| <= |m.storage|
    requires PageAt(codec, Write(m.storage, Address(first), bytes), Entry(first, Tag(id), length)) == Some(page)
    ensures Represents(codec, Machine(d', Write(m.storage, Address(first), bytes)), Enter(a, id, page))
  {
    hide Inv, PageAt, Write, FreeRun, Slot;
    var m', a' := Machine(d', Write(m.storage, Address(first), bytes)), Enter(a, id, page);
    forall i: nat | i in a' && i < HASH_ENTRIES
      ensures m'.dir.table[i].tag == a'[i].0 && PageAt(codec, m'.storage, m'.dir.table[i]) == Some(a'[i].1)
    {
      if i != Slot(id) { StoredOthers(codec, m, a, first, Blocks(length), bytes, i); }
    }
  }

  /** Invalidating removes exactly the page with this id. */
  lemma DropRefines(codec: Codec, m: Machine, a: Contents, word: nat)
    requires Represents(codec, m, a)
    ensures Represents(codec, Drop(m, word), if word < PAGE_VALID then a else Remove(a, word - PAGE_VALID))
  {
    hide Inv, PageAt, Invalidate;
    if word >= PAGE_VALID { InvalidateKeepsInv(m.dir, word - PAGE_VALID); }
  }

  /** From a machine that represents a map, a store that stays in memory ends in one exactly when it was safe and fits:
      otherwise the directory breaks its invariant, or the store overruns. */
  lemma StoreRefinesExactly(codec: Codec, m: Machine, a: Contents, word: nat, page: seq<byte>,
                            heapOk: bool, junk: uint32)
    requires Represents(codec, m, a) && Inverts(codec) && Whole(codec, page)
    ensures var (m', reply) := Store(codec, m, word, page, heapOk, junk);
            reply != Overrun && (exists a': Contents :: Represents(codec, m', a')) <==>
            StoreSafe(codec, m, word, page, heapOk, junk) && StoreFits(codec, m, word, page, heapOk)
  {
    hide Inv, PageAt, Write, Alloc, AllocSafe, StoreFits;
    if StoreSafe(codec, m, word, page, heapOk, junk) {
      SafeOverruns(codec, m, word, page, heapOk, junk);
      if StoreFits(codec, m, word, page, heapOk) { StoreRefines(codec, m, a, word, page, heapOk, junk); }
    } else {
      var id, length := word - PAGE_VALID, Payload(codec, page).0;
      CountKeepsInv(m.dir, length);
      SafeUnlessCounted(m.dir, length, id, junk);
      AllocKeepsInvExactly(CountUncompressable(m.dir, length), id, length, junk);
    }
  }

  // ---- what a store replies, and in which form it keeps a page ----

  /** The reply of a store that reads no junk, told from its input and the bitmap; and what the refusals leave alone. */
  lemma ReplyExactly(codec: Codec, m: Machine, word: nat, page: seq<byte>, heapOk: bool, junk: uint32)
    requires m.Shape() && Summarised(m.dir.l1, m.dir.l2) && Whole(codec, page)
    requires word >= PAGE_VALID && heapOk ==> !ReadsJunk(m.dir, junk)
    ensures var (m', reply) := Store(codec, m, word, page, heapOk, junk);
            var asked, full := word >= PAGE_VALID && heapOk, NoRoom(m.dir.l2, Blocks(Payload(codec, page).0));
            && (reply == Ignored <==> word < PAGE_VALID)
            && (reply == NoWram <==> word >= PAGE_VALID && !heapOk)
            && (reply == NoSpace <==> asked && full)
            && (reply == Overrun <==> asked && !full && !StoreFits(codec, m, word, page, heapOk))
            && (reply == Stored <==> asked && !full && StoreFits(codec, m, word, page, heapOk))
            && (reply == Ignored || reply == NoWram ==> m' == m)
            && (reply == NoSpace ==>
                  && m'.storage == m.storage && m'.dir.l1 == m.dir.l1 && m'.dir.l2 == m.dir.l2
                  && m'.dir.table == m.dir.table
                  && m'.dir.stats == m.dir.stats.(uncompressable := m'.dir.stats.uncompressable))
  {
    OverrunsExactly(codec, m, word, page, heapOk, junk);
    hide Alloc, Pick, NoRoom, FirstRoom, Summarised, StoreFits;
    if word >= PAGE_VALID && heapOk {
      var length := Payload(codec, page).0;
      var d := CountUncompressable(m.dir, length);
      AllocPicks(d, word - PAGE_VALID, length, junk);
      PickIsFirst(d, Blocks(length));
      if Alloc(d, word - PAGE_VALID, length, junk).1.None? { NoSpaceKeeps(d, word - PAGE_VALID, length, junk); }
    }
  }

  /** A page is kept compressed exactly if the codec succeeds and saves at least one block, and as it is otherwise; the
      index, the counters and the storage then show that form. */
  lemma StoredForm(codec: Codec, m: Machine, x: nat, page: seq<byte>, junk: uint32)
    requires m.Shape() && Inv(m.dir) && Whole(codec, page) && StoreSafe(codec, m, PAGE_VALID + x, page, true, junk)
    requires Store(codec, m, PAGE_VALID + x, page, true, junk).1 == Stored
    ensures var m' := Store(codec, m, PAGE_VALID + x, page, true, junk).0;
            var c := codec.compress(page);
            var shrinks := c.ok && c.length <= 4032;
            var length, bytes := if shrinks then c.length else 4096, if shrinks then c.buffer else page;
            var e, grown := m'.dir.table[Slot(x)], m'.dir.stats.blocks - m.dir.stats.blocks;
            && e.length == length && e.tag == Tag(x) && e.block < NUM_BLOCKS && length <= |bytes|
            && m'.dir.stats.bytes == m.dir.stats.bytes + length
            && BLOCK_SIZE * (grown - 1) < length <= BLOCK_SIZE * grown
            && BLOCK_SIZE * e.block + length <= |m'.storage|
            && m'.storage[BLOCK_SIZE * e.block..BLOCK_SIZE * e.block + length] == bytes[..length]
  {
    hide Inv, Alloc, AllocSafe, Slot, Tag, FreeRun, SetRun, Summarised;
    var (length, buffer) := Payload(codec, page);
    var d := CountUncompressable(m.dir, length);
    CountKeepsInv(m.dir, length);
    SafeUnlessCounted(m.dir, length, x, junk);
    AllocEffect(d, x, length, junk);
    var (d', first) := Alloc(d, x, length, junk);
    EnteredKeepsInv(d, d', x, length, first.value);
    GrownTotals(d, d', x, length, first.value);
    var at := Address(first.value);
    assert buffer[..Align8(length)][..length] == buffer[..length];
  }

  /** Counters of an invariant directory do not wrap when a page is entered. */
  lemma GrownTotals(d: Dir, d': Dir, x: nat, length: nat, first: nat)
    requires Inv(d) && Inv(d') && 1 <= length <= PAGE_SIZE && Entered(d, d', x, length, first)
    ensures d'.stats.blocks == d.stats.blocks + Blocks(length) && d'.stats.bytes == d.stats.bytes + length
  {
    hide Used, Total, CountUsed, AllFit, Disjoint, Accounted, Summarised, FreeRun, SetRun, Blocks;
    TotalsOfUpdate(d.table, Slot(x), Entry(first, Tag(x), length));
  }

  // ---- what a store does to later loads ----

  /** Two ids that the index cannot tell apart. */
  predicate Aliases(x: nat, y: nat) {
    Slot(x) == Slot(y) && Tag(x) == Tag(y)
  }

  /** A store of `x` into an empty slot, with a free run and no carried count, claims success if it fits. Then every
      alias of `x` yields the new page, every other id in the slot of `x` is missing, and all others yield what they
      yielded before. */
  lemma LoadAfterStore(codec: Codec, m: Machine, a: Contents, x: nat, page: seq<byte>, junk: uint32, room: nat, y: nat)
    requires Represents(codec, m, a) && Inverts(codec) && Whole(codec, page)
    requires m.dir.table[Slot(x)].length == 0 && !ReadsJunk(m.dir, junk)
    requires var n := Blocks(Payload(codec, page).0);
             room < NUM_BLOCKS && FreeRunAt(m.dir.l2, room, n) && Uncarried(m.dir.l2, n)
    ensures var (m', reply) := Store(codec, m, PAGE_VALID + x, page, true, junk);
            && reply == (if StoreFits(codec, m, PAGE_VALID + x, page, true) then Stored else Overrun)
            && (reply == Stored ==>
                  Load(codec, m', y) ==
                  if Aliases(x, y) then Loaded(page) else if Slot(x) == Slot(y) then Missing else Load(codec, m, y))
  {
    hide Inv, PageAt, Write, Alloc, NoRoom, Uncarried, Slot, Tag, StoreFits;
    TakenOverruns(codec, m, x, page, junk);
    var length := Payload(codec, page).0;
    var d := CountUncompressable(m.dir, length);
    CountKeepsInv(m.dir, length);
    RoomForRun(d, Blocks(length), room);
    AllocFinds(d, x, length, junk);
    var (m', reply) := Store(codec, m, PAGE_VALID + x, page, true, junk);
    if reply == Stored {
      StoreRefines(codec, m, a, PAGE_VALID + x, page, true, junk);
      LoadFinds(codec, m, a, y);
      LoadFinds(codec, m', Enter(a, x, page), y);
    }
  }

  /** A store into a taken slot claims success unless it overruns, but no load will ever notice it: the page is lost.
      Block 0 is the exception, because the index takes it for a removal. */
  lemma TakenSlotLosesPage(codec: Codec, m: Machine, x: nat, page: seq<byte>, junk: uint32, room: nat)
    requires m.Shape() && Inv(m.dir) && Whole(codec, page)
    requires m.dir.table[Slot(x)].length != 0 && !ReadsJunk(m.dir, junk)
    requires var n := Blocks(Payload(codec, page).0);
             && room < NUM_BLOCKS && FreeRunAt(m.dir.l2, room, n) && !FreeRunAt(m.dir.l2, 0, n)
             && Uncarried(m.dir.l2, n)
    ensures var (m', reply) := Store(codec, m, PAGE_VALID + x, page, true, junk);
            && reply == (if StoreFits(codec, m, PAGE_VALID + x, page, true) then Stored else Overrun)
            && forall y: nat :: Load(codec, m', y) == Load(codec, m, y)
  {
    hide Inv, PageAt, Write, Alloc, NoRoom, Uncarried, FreeRun, Slot, Tag, Blocks, StoreFits;
    TakenOverruns(codec, m, x, page, junk);
    var (length, buffer) := Payload(codec, page);
    var d, n := CountUncompressable(m.dir, length), Blocks(length);
    CountKeepsInv(m.dir, length);
    RoomForRun(d, n, room);
    PickedRun(d, x, length, junk);
    TakenKeepsTable(d, x, length, junk);
    var (d', first) := Alloc(d, x, length, junk);
    var bytes := buffer[..Align8(length)];
    assert |bytes| <= BLOCK_SIZE * n;
    var (m', reply) := Store(codec, m, PAGE_VALID + x, page, true, junk);
    assert m'.storage == if reply == Stored then Write(m.storage, Address(first.value), bytes) else m.storage;
    forall y: nat ensures Load(codec, m', y) == Load(codec, m, y) {
      if Lookup(m.dir.table, y).Some? && reply == Stored {
        ApartFromFree(m.dir, Slot(y), first.value, n);
        WriteElsewhere(codec, m.storage, Address(first.value), bytes, m.dir.table[Slot(y)]);
      }
    }
  }

  lemma TakenOverruns(codec: Codec, m: Machine, x: nat, page: seq<byte>, junk: uint32)
    requires m.Shape() && Inv(m.dir) && Whole(codec, page) && !ReadsJunk(m.dir, junk)
    ensures Store(codec, m, PAGE_VALID + x, page, true, junk).1 == Overrun <==>
            !StoreFits(codec, m, PAGE_VALID + x, page, true)
  {
    hide Store, StoreFits, Disjoint, Accounted, Tallied, AllFit, Summarised, Payload;
    OverrunsExactly(codec, m, PAGE_VALID + x, page, true, junk);
  }

  lemma TakenKeepsTable(d: Dir, id: nat, length: nat, junk: uint32)
    requires Inv(d) && 1 <= length <= PAGE_SIZE && !ReadsJunk(d, junk) && d.table[Slot(id)].length != 0
    requires Alloc(d, id, length, junk).1.Some? && Alloc(d, id, length, junk).1.value != 0
    ensures Alloc(d, id, length, junk).0.table == d.table
  {
    hide Alloc, Slot, Disjoint, Accounted, Tallied, AllFit, Summarised;
    AllocCounts(d, id, length, junk);
  }

  lemma RoomForRun(d: Dir, n: nat, room: nat)
    requires Inv(d) && 0 < n <= 64 && room < NUM_BLOCKS && FreeRunAt(d.l2, room, n)
    ensures !NoRoom(d.l2, n)
  {
    hide Used, Section, Pick, NoRoom, Uncarried, FreeRun, Disjoint, Accounted, Tallied, AllFit, Summarised;
    FirstFit(d, n);
  }

  /** What the search reports when no count is carried over, whether or not the slot is empty. */
  lemma PickedRun(d: Dir, id: nat, length: nat, junk: uint32)
    requires Inv(d) && 1 <= length <= PAGE_SIZE && !ReadsJunk(d, junk)
    requires !NoRoom(d.l2, Blocks(length)) && Uncarried(d.l2, Blocks(length))
    ensures Alloc(d, id, length, junk).1.Some? && FreeRunAt(d.l2, Alloc(d, id, length, junk).1.value, Blocks(length))
    ensures Alloc(d, id, length, junk).1.value == 0 <==> FreeRunAt(d.l2, 0, Blocks(length))
  {
    hide Section, Scan, Pick, Mark, Insert, NoRoom, Uncarried, FreeRun;
    hide Disjoint, Accounted, Tallied, AllFit, Summarised;
    FirstFit(d, Blocks(length));
  }

  // ---- a live page overwritten ----

  /** A count that is carried never ends at the end of the storage area. */
  lemma CarriedFits(d: Dir, n: nat)
    requires Inv(d) && 0 < n <= 64 && OnlyLast(d.l2, n)
    ensures Uncarried(d.l2, n)
  {
    hide Used, Pick, Section, Window, FreeRun, NoRoom, Uncarried, Disjoint, Accounted, Tallied, AllFit, Summarised;
    PicksLastExactly(d, n);
    FirstFit(d, n);
  }

  /** A store whose search carries its count claims success and overwrites a block `b` of the live page in another slot
      `i`, whose index entry stays as it was. */
  lemma CarriedStoreOverwrites(codec: Codec, m: Machine, x: nat, page: seq<byte>, junk: uint32)
    returns (i: nat, b: nat, first: nat)
    requires m.Shape() && Inv(m.dir) && Whole(codec, page)
    requires m.dir.table[Slot(x)].length == 0 && !ReadsJunk(m.dir, junk)
    requires !Uncarried(m.dir.l2, Blocks(Payload(codec, page).0))
    ensures i < HASH_ENTRIES && i != Slot(x) && Owns(m.dir.table, i, b) && b < NUM_BLOCKS
    ensures var (m', reply) := Store(codec, m, PAGE_VALID + x, page, true, junk);
            var (length, buffer) := Payload(codec, page);
            && reply == Stored && m'.dir.table[i] == m.dir.table[i]
            && m'.dir.table[Slot(x)].block == first && Owns(m'.dir.table, Slot(x), b)
            && BLOCK_SIZE * first <= BLOCK_SIZE * b < BLOCK_SIZE * first + length
            && BLOCK_SIZE * b < |m'.storage| && m'.storage[BLOCK_SIZE * b] == buffer[BLOCK_SIZE * (b - first)]
  {
    hide Inv, Alloc, Slot, Tag, Uncarried, OnlyLast, Disjoint, PickedBlock;
    var (length, buffer) := Payload(codec, page);
    var d := CountUncompressable(m.dir, length);
    CountKeepsInv(m.dir, length);
    TakenOverruns(codec, m, x, page, junk);
    if OnlyLast(m.dir.l2, Blocks(length)) { CarriedFits(m.dir, Blocks(length)); }
    i, b := CarriedCountBreaks(d, x, length, junk);
    AllocInBounds(d, x, length, junk);
    AllocCounts(d, x, length, junk);
    first := Alloc(d, x, length, junk).1.value;
  }
}
