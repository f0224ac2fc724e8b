/** The bitmap loops of alloc_static.c on one section's 64 bytes in WRAM. */
module BlockAllocator {
  import opened Bytes
  import opened Bitmap
  import opened SectionScan

  /** The search loop of `find_free_blocks_l2`: byte by byte, full bytes skipped, bit by bit inside a byte. */
  method ScanSection(entries: array<bv8>, numBlocks: nat) returns (ok: bool, first: nat, entry: nat, bit: nat)
    requires entries.Length == SECTION_BYTES && 1 <= numBlocks
    ensures ok ==> entry < SECTION_BYTES && bit < 8 && Scan(entries[..], numBlocks) == Some(Run(first, 8 * entry + bit))
    ensures !ok ==> Scan(entries[..], numBlocks) == None
  {
    hide Bit, Used, ScanFrom;
    ghost var section := entries[..];
    var found := 0;
    first, entry, bit := 0, 0, 0;
    while entry < SECTION_BYTES
      invariant entry <= SECTION_BYTES && 0 <= found < numBlocks
      invariant Scan(section, numBlocks) == ScanFrom(section, numBlocks, 8 * entry, found, first)
    {
      if entries[entry] != FULL {
        found, first, bit := ScanByte(entries, numBlocks, entry, found, first);
        if found == numBlocks { return true, first, entry, bit; }
      } else {
        ScanSkips(section, numBlocks, entry, found, first);
      }
      entry := entry + 1;
    }
    ok := false;
  }

  lemma ScanSkips(section: seq<bv8>, n: nat, entry: nat, found: nat, first: nat)
    requires |section| == SECTION_BYTES && entry < SECTION_BYTES && section[entry] == FULL
    ensures ScanFrom(section, n, 8 * entry, found, first) == ScanFrom(section, n, 8 * entry + 8, found, first)
  {
  }

  /** The bit loop over one byte that is not full. */
  method ScanByte(entries: array<bv8>, numBlocks: nat, entry: nat, found0: nat, first0: nat)
    returns (found: nat, first: nat, bit: nat)
    requires entries.Length == SECTION_BYTES && entry < SECTION_BYTES && entries[entry] != FULL && found0 < numBlocks
    ensures found <= numBlocks
    ensures found == numBlocks ==>
              && bit < 8
              && ScanFrom(entries[..], numBlocks, 8 * entry, found0, first0) == Some(Run(first, 8 * entry + bit))
    ensures found < numBlocks ==>
              ScanFrom(entries[..], numBlocks, 8 * entry, found0, first0)
              == ScanFrom(entries[..], numBlocks, 8 * entry + 8, found, first)
  {
    hide Bit;
    ghost var section := entries[..];
    found, first, bit := found0, first0, 0;
    while bit < 8
      invariant bit <= 8 && found < numBlocks
      invariant ScanFrom(section, numBlocks, 8 * entry, found0, first0)
                == ScanFrom(section, numBlocks, 8 * entry + bit, found, first)
    {
      var p := 8 * entry + bit;
      assert p / 8 == entry && p % 8 == bit;
      if !Bit(entries[entry], bit) {
        if found == 0 { first := p; }
        found := found + 1;
        if found == numBlocks { return; }
      } else if found > 0 {
        found := 0;
      }
      bit := bit + 1;
    }
  }

  /** The marking loop of `find_free_blocks_l2`, from the last block of the run backwards. If the whole section has
      become full, the loop has seen a byte become full. */
  method MarkBackwards(entries: array<bv8>, entry0: nat, bit0: nat, numBlocks: nat) returns (checkL2: bool)
    requires entries.Length == SECTION_BYTES && entry0 < SECTION_BYTES && bit0 < 8
    requires 1 <= numBlocks <= 8 * entry0 + bit0 + 1
    modifies entries
    ensures entries[..] == SetRun(old(entries[..]), 8 * entry0 + bit0 + 1 - numBlocks, numBlocks)
    ensures (forall e :: 0 <= e < SECTION_BYTES ==> entries[e] == FULL) ==> checkL2
  {
    hide Bit, SetOne;
    ghost var start, bottom := entries[..], 8 * entry0 + bit0 + 1 - numBlocks;
    var found, entry, bit := numBlocks, entry0, bit0;
    checkL2 := false;
    while found > 0
      invariant 0 <= found <= numBlocks
      invariant found > 0 ==> entry < SECTION_BYTES && bit < 8 && 8 * entry + bit + 1 == bottom + found
      invariant SetRun(start, bottom, numBlocks) == SetRun(entries[..], bottom, found)
      invariant found < numBlocks && (forall e :: 0 <= e < SECTION_BYTES ==> entries[e] == FULL) ==> checkL2
    {
      found := found - 1;
      MarkedOne(entries, entry, bit);
      entries[entry] := entries[entry] | Mask(bit);
      if entries[entry] == FULL { checkL2 := true; }
      if bit == 0 {
        entry, bit := (entry + 0xFF) % 0x100, 7;
      } else {
        bit := bit - 1;
      }
    }
  }

  lemma MarkedOne(entries: array<bv8>, entry: nat, bit: nat)
    requires entries.Length == SECTION_BYTES && entry < SECTION_BYTES && bit < 8
    ensures SetOne(entries[..], 8 * entry + bit) == entries[..][entry := entries[entry] | Mask(bit)]
    ensures ClearOne(entries[..], 8 * entry + bit) == entries[..][entry := entries[entry] & !Mask(bit)]
  {
    assert (8 * entry + bit) / 8 == entry && (8 * entry + bit) % 8 == bit;
  }

  /** The clearing loop of `free_blocks_l2`, forwards. The loop gives up, with an error message, exactly when the run
      would leave the section. */
  method ClearForwards(entries: array<bv8>, entry0: nat, bit0: nat, numBlocks: nat) returns (overflow: bool)
    requires entries.Length == SECTION_BYTES && entry0 < SECTION_BYTES && bit0 < 8
    modifies entries
    ensures var p := 8 * entry0 + bit0; var inside := if overflow then SECTION_BLOCKS - p else numBlocks;
            && (overflow <==> p + numBlocks > SECTION_BLOCKS)
            && entries[..] == ClearRun(old(entries[..]), p, inside)
  {
    hide Bit, ClearOne;
    ghost var start, p := entries[..], 8 * entry0 + bit0;
    ghost var inside := if p + numBlocks <= SECTION_BLOCKS then numBlocks else SECTION_BLOCKS - p;
    var block, entry, bit := 0, entry0, bit0;
    overflow := false;
    while block < numBlocks
      invariant block <= inside && entry <= SECTION_BYTES && bit < 8 && 8 * entry + bit == p + block && !overflow
      invariant ClearRun(start, p, inside) == ClearRun(entries[..], p + block, inside - block)
    {
      if entry >= SECTION_BYTES {
        overflow := true;
        break;
      }
      MarkedOne(entries, entry, bit);
      entries[entry] := entries[entry] & !Mask(bit);
      bit := bit + 1;
      if bit >= 8 { bit, entry := 0, entry + 1; }
      block := block + 1;
    }
  }

  /** The check that follows the marking: is every byte of the section full? */
  method AllFull(entries: array<bv8>) returns (full: bool)
    requires entries.Length == SECTION_BYTES
    ensures full <==> forall e :: 0 <= e < SECTION_BYTES ==> entries[e] == FULL
  {
    var entry := 0;
    while entry < SECTION_BYTES
      invariant entry <= SECTION_BYTES && forall e :: 0 <= e < entry ==> entries[e] == FULL
    {
      if entries[entry] != FULL { return false; }
      entry := entry + 1;
    }
    full := true;
  }
}
