/** The shifts and masks of alloc_static.h, on the 32-bit words the code applies them to, and the integer arithmetic
    that the model uses in their place. */
module BlockMacros {
  import opened Directory
  import opened SectionScan

  /** `MAKE_BLOCK_FROM_L2` */
  function MakeBlock(section: bv32, entry: bv32, bit: bv32): bv32 {
    (section << 9) | (entry << 3) | bit
  }

  /** `L2_SECTION_FROM_BLOCK` */
  function SectionOf(block: bv32): bv32 { block >> 9 }

  /** `L2_ENTRY_FROM_BLOCK` */
  function EntryOf(block: bv32): bv32 { (block >> 3) & 63 }

  /** `L2_BIT_FROM_BLOCK` */
  function BitOf(block: bv32): bv32 { block & 7 }

  /** `L1_MAKE_SECTION` */
  function MakeSection(entry: bv32, bit: bv32): bv32 { (entry << 3) | bit }

  lemma SectionOfMade(section: bv32, entry: bv32, bit: bv32)
    requires section < 1920 && entry < 64 && bit < 8
    ensures SectionOf(MakeBlock(section, entry, bit)) == section
  {
  }

  lemma EntryOfMade(section: bv32, entry: bv32, bit: bv32)
    requires section < 1920 && entry < 64 && bit < 8
    ensures EntryOf(MakeBlock(section, entry, bit)) == entry
  {
  }

  lemma BitOfMade(section: bv32, entry: bv32, bit: bv32)
    requires section < 1920 && entry < 64 && bit < 8
    ensures BitOf(MakeBlock(section, entry, bit)) == bit && MakeBlock(section, entry, bit) < 983040
  {
  }

  lemma MadeOfParts(block: bv32)
    ensures MakeBlock(SectionOf(block), EntryOf(block), BitOf(block)) == block
  {
  }

  /** Making a block number and taking it apart are inverse to each other, for all 983040 blocks. */
  lemma BlockParts(block: bv32, section: bv32, entry: bv32, bit: bv32)
    requires section < 1920 && entry < 64 && bit < 8
    ensures block == MakeBlock(section, entry, bit) <==>
            block < 983040 && SectionOf(block) == section && EntryOf(block) == entry && BitOf(block) == bit
  {
    SectionOfMade(section, entry, bit);
    EntryOfMade(section, entry, bit);
    BitOfMade(section, entry, bit);
    MadeOfParts(block);
    hide MakeBlock, SectionOf, EntryOf, BitOf;
  }

  /** The same for the sections and the summary's bytes and bits. */
  lemma SectionParts(section: bv32, entry: bv32, bit: bv32)
    requires entry < 240 && bit < 8
    ensures section == MakeSection(entry, bit) <==> section >> 3 == entry && section & 7 == bit
    ensures MakeSection(entry, bit) < 1920
  {
  }

  // ---- words as integers ----

  function Half(w: bv32): bv32 { w >> 1 }

  predicate Odd(w: bv32) { w & 1 == 1 }

  function Eighth(w: bv32): bv32 { w >> 3 }

  /** The integer that a word stands for, bit by bit. */
  function Value(w: bv32): (v: nat)
    ensures w == 0 <==> v == 0
    decreases w
  {
    if w == 0 then 0 else (if Odd(w) then 1 else 0) + 2 * Value(Half(w))
  }

  lemma Halve(w: bv32)
    ensures Value(w) == (if Odd(w) then 1 else 0) + 2 * Value(Half(w))
  {
  }

  lemma ThreeBits(w: bv32)
    ensures Half(Half(Half(w))) == Eighth(w) && Half(Half(Half(BitOf(w)))) == 0
    ensures Odd(BitOf(w)) == Odd(w) && Odd(Half(BitOf(w))) == Odd(Half(w))
    ensures Odd(Half(Half(BitOf(w)))) == Odd(Half(Half(w)))
  {
  }

  /** The three lowest bits are the remainder by eight, the rest is the quotient. */
  lemma Low3(w: bv32)
    ensures Value(w) == Value(BitOf(w)) + 8 * Value(Eighth(w)) && Value(BitOf(w)) < 8
  {
    ThreeBits(w);
    Halve(w);
    Halve(Half(w));
    Halve(Half(Half(w)));
    Halve(BitOf(w));
    Halve(Half(BitOf(w)));
    Halve(Half(Half(BitOf(w))));
    hide Value, Half, Odd, Eighth, BitOf;
  }

  lemma SixBits(w: bv32)
    ensures EntryOf(w) & 7 == Eighth(w) & 7 && Eighth(EntryOf(w)) == BitOf(Eighth(Eighth(w)))
    ensures Eighth(Eighth(Eighth(w))) == SectionOf(w) && BitOf(EntryOf(w)) == BitOf(Eighth(w))
    ensures Eighth(BitOf(Eighth(Eighth(w)))) == 0 && BitOf(BitOf(Eighth(Eighth(w)))) == BitOf(Eighth(Eighth(w)))
  {
  }

  /** A word is its section, entry and bit number in the mixed base of the model. */
  lemma PartsValue(w: bv32)
    ensures Value(w) == SECTION_BLOCKS * Value(SectionOf(w)) + 8 * Value(EntryOf(w)) + Value(BitOf(w))
    ensures Value(EntryOf(w)) < SECTION_BYTES && Value(BitOf(w)) < 8
  {
    SixBits(w);
    Low3(w);
    Low3(Eighth(w));
    Low3(Eighth(Eighth(w)));
    Low3(EntryOf(w));
    hide Value, Eighth, BitOf, EntryOf, SectionOf;
  }

  lemma Digits(v: nat, section: nat, entry: nat, bit: nat)
    requires v == SECTION_BLOCKS * section + 8 * entry + bit && entry < SECTION_BYTES && bit < 8
    ensures v / SECTION_BLOCKS == section && v / 8 % SECTION_BYTES == entry && v % 8 == bit
    ensures v % SECTION_BLOCKS == 8 * entry + bit
  {
    assert v / 8 == SECTION_BYTES * section + entry;
  }

  /** The macros compute the quotients and remainders by which the model addresses the bitmap. */
  lemma MacrosAreArithmetic(w: bv32)
    ensures Value(SectionOf(w)) == Value(w) / SECTION_BLOCKS
    ensures Value(EntryOf(w)) == Value(w) / 8 % SECTION_BYTES && Value(BitOf(w)) == Value(w) % 8
  {
    PartsValue(w);
    Digits(Value(w), Value(SectionOf(w)), Value(EntryOf(w)), Value(BitOf(w)));
    hide Value, EntryOf, BitOf, SectionOf;
  }

  /** And the number that is made from a section, an entry and a bit is the model's block number. */
  lemma MadeArithmetically(section: bv32, entry: bv32, bit: bv32)
    requires section < 1920 && entry < 64 && bit < 8
    ensures Value(MakeBlock(section, entry, bit)) == SECTION_BLOCKS * Value(section) + 8 * Value(entry) + Value(bit)
  {
    BlockParts(MakeBlock(section, entry, bit), section, entry, bit);
    PartsValue(MakeBlock(section, entry, bit));
    hide Value, EntryOf, BitOf, SectionOf, MakeBlock;
  }

  // ---- the address of a block ----

  function ByteAddress(block: bv32): bv32 { block << 6 }

  /** A word whose upper eleven bits are clear is not cut off by the shift. */
  lemma ShiftedParts(block: bv32)
    requires block >> 21 == 0
    ensures Eighth(Eighth(ByteAddress(block))) == block && ByteAddress(block) >> 6 == block
    ensures BitOf(ByteAddress(block)) == 0 && BitOf(Eighth(ByteAddress(block))) == 0
  {
  }

  lemma SevenEighths(w: bv32)
    ensures Eighth(Eighth(Eighth(Eighth(Eighth(Eighth(Eighth(w))))))) == w >> 21
  {
  }

  /** Block numbers have at most 21 bits. */
  lemma UpperBitsClear(block: bv32)
    requires Value(block) < NUM_BLOCKS
    ensures block >> 21 == 0
  {
    SevenEighths(block);
    var w1 := Eighth(block);
    var w2 := Eighth(w1);
    var w3 := Eighth(w2);
    var w4 := Eighth(w3);
    var w5 := Eighth(w4);
    var w6 := Eighth(w5);
    Low3(block);
    Low3(w1);
    Low3(w2);
    Low3(w3);
    Low3(w4);
    Low3(w5);
    Low3(w6);
    hide Value, Eighth, BitOf;
  }

  /** Shifted by six, the number of a block is the address the model gives that block, and shifting the address back
      gives the block. */
  lemma AddressIsShift(block: bv32)
    requires Value(block) < NUM_BLOCKS
    ensures Value(ByteAddress(block)) == Address(Value(block)) && ByteAddress(block) >> 6 == block
  {
    UpperBitsClear(block);
    ShiftedParts(block);
    Low3(ByteAddress(block));
    Low3(Eighth(ByteAddress(block)));
    hide Value, Eighth, BitOf, ByteAddress;
  }
}
