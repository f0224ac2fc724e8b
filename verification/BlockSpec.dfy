/** What `compress_block` writes for one block, as a function of the input bytes. */
module BlockSpec {
  import opened Bytes
  import opened MatchLength
  import opened Elements

  type uint16 = x: int | 0 <= x < 0x1_0000

  /** `num_table_entries` for 64 KiB of WRAM, one tasklet, two 256-byte buffers and a 256-byte stack. */
  const TABLE_ENTRIES: nat := 16384
  const MARGIN: nat := 15

  /** `log2_floor` */
  function Log2Floor(n: nat): (k: int)
    ensures n > 0 ==> k >= 0
  {
    if n == 0 then -1 else if n == 1 then 0 else 1 + Log2Floor(n / 2)
  }

  /** `log2_floor` is the exponent of the largest power of two that does not exceed `n`. */
  lemma {:induction false} LogExact(n: nat, k: nat)
    requires n > 0
    ensures Log2Floor(n) == k <==> Two(k) <= n < 2 * Two(k)
    decreases n
  {
    if n > 1 {
      if k > 0 { LogExact(n / 2, k - 1); } else { LogExact(n / 2, 0); }
    }
  }

  /** WRAM_PER_TASKLET is 65536 - 2 * 256 - 256. The table takes the largest power of two of those bytes, two bytes an
      entry, and the hash keeps as many bits as number its entries. */
  lemma TableGeometry()
    ensures Two(Log2Floor(0x1_0000 - 2 * 256 - 256)) / 2 == TABLE_ENTRIES
    ensures 32 - Log2Floor(TABLE_ENTRIES) == 18
  {
    assert Two(5) == 32;
    assert Two(10) == 1024;
    assert Two(14) == 0x4000;
    LogExact(64768, 15);
    LogExact(TABLE_ENTRIES, 14);
  }

  /** The hash of four bytes; the shift by 18 leaves the 14 bits that index the table. */
  function HashBits(word: bv32): bv14 {
    var a := word + (word << 15);
    var b := a ^ (a >> 12);
    var c := b + (b << 2);
    var e := c ^ (c >> 4);
    var f := e + (e << 11);
    (f >> 18) as bv14
  }

  function Hash(word: int): (h: nat)
    requires 0 <= word < TWO_32
    ensures h < TABLE_ENTRIES
  {
    HashBits(word as bv32) as int
  }

  /** The table as `dpu_compress` clears it before each block. */
  function EmptyTable(): (t: seq<uint16>)
    ensures |t| == TABLE_ENTRIES && forall i :: 0 <= i < |t| ==> t[i] == 0
  {
    seq(TABLE_ENTRIES, _ => 0)
  }

  /** The bytes [base, end) of `data` as one block; `data` may go on beyond the end of the block. */
  datatype Block = Block(data: seq<byte>, base: nat, end: nat, ctzOfZero: nat) {

    ghost predicate Valid() {
      base + MARGIN <= end <= |data| && end - base <= TWO_32
    }

    function Limit(): int {
      end - MARGIN
    }

    function HashAt(p: nat): (h: nat)
      ensures h < TABLE_ENTRIES
    {
      Hash(Read32(data, p))
    }

    /** Storing a position keeps the low 16 bits of its distance from the start of the block. */
    function Remember(table: seq<uint16>, p: nat): (t: seq<uint16>)
      requires |table| == TABLE_ENTRIES && base <= p
      ensures |t| == TABLE_ENTRIES
    {
      table[HashAt(p) := (p - base) % 0x1_0000]
    }

    function Candidate(table: seq<uint16>, p: nat): (c: nat)
      requires |table| == TABLE_ENTRIES
      ensures base <= c
    {
      base + table[HashAt(p)]
    }

    /** `base - candidate` in 32-bit arithmetic. */
    function Distance(candidate: nat, curr: nat): nat {
      if candidate <= curr then curr - candidate else (curr - candidate) % TWO_32
    }

    function Literal(from: nat, to: nat): seq<byte>
      requires Valid() && base <= from < to <= end
    {
      EmitLiteral(data[from..to])
    }

    /** The rest of the block as one literal, if anything is left. */
    function Remainder(emitted: nat): seq<byte>
      requires Valid() && base <= emitted <= end
    {
      if emitted < end then Literal(emitted, end) else []
    }

    /** Step 1: look for four matching bytes, in steps that grow by one every 32 probes. */
    function Search(table: seq<uint16>, emitted: nat, curr: nat, skip: nat): seq<byte>
      requires Valid() && |table| == TABLE_ENTRIES && base <= emitted < curr <= end && 32 <= skip
      decreases end - curr, 2
    {
      var next := curr + skip / 32;
      if next > Limit() then Remainder(emitted)
      else
        var candidate := Candidate(table, curr);
        var table' := Remember(table, curr);
        if Read32(data, curr) != Read32(data, candidate) then Search(table', emitted, next, skip + 1)
        else Literal(emitted, curr) + Copies(table', candidate, curr)
    }

    /** The length of the match found at `curr`: the four bytes compared already and what follows them. */
    function Matched(candidate: nat, curr: nat): (m: nat)
      requires Valid() && curr < Limit()
      ensures 4 <= m <= end - curr
    {
      4 + FindMatchLength(data, candidate + 4, curr + 4, end, ctzOfZero)
    }

    /** Steps 2 and 3: the match at `curr`, then what follows it. */
    function Copies(table: seq<uint16>, candidate: nat, curr: nat): seq<byte>
      requires Valid() && |table| == TABLE_ENTRIES && base < curr < Limit()
      decreases end - curr, 1
    {
      var matched := Matched(candidate, curr);
      EmitCopy(Distance(candidate, curr), matched) + AfterCopy(table, curr + matched)
    }

    /** After a copy that ended at `next`: the remainder, a match that begins right there, or a new search. */
    function AfterCopy(table: seq<uint16>, next: nat): seq<byte>
      requires Valid() && |table| == TABLE_ENTRIES && base < next <= end
      decreases end - next, 3
    {
      if next >= Limit() then Remainder(next)
      else
        var table1 := Remember(table, next - 1);
        var table2 := Remember(table1, next);
        if Read32(data, next) == Read32(data, Candidate(table1, next)) then
          Copies(table2, Candidate(table1, next), next)
        else Search(table2, next, next + 1, 32)
    }

    /** The element stream of the whole block. */
    function Compressed(): seq<byte>
      requires Valid()
    {
      Search(EmptyTable(), base, base + 1, 32)
    }
  }
}
