/** How long the compressed form of a block can get, and the exact block sizes for which it decodes. */
module BlockLimits {
  import opened Bytes
  import opened SnappyFormat
  import opened MatchLength
  import opened Elements
  import opened BlockSpec
  import opened BlockTheorems

  // ---- the output bound ----

  /** The most bytes that `n` input bytes can become. */
  function Bound(n: nat): nat {
    n + n / 65 + 2
  }

  lemma RemainderSize(b: Block, emitted: nat)
    requires b.Valid() && b.base <= emitted <= b.end
    ensures |b.Remainder(emitted)| <= Bound(b.end - emitted)
  {
    if emitted < b.end { LiteralTagSize(b.end - emitted); }
  }

  /** A literal of more than 60 bytes and the copy after it cover at least 65 bytes, and that copy saves one. */
  lemma LiteralThenCopyBound(literal: nat, rest: nat)
    requires 1 <= literal <= TWO_32 && 4 <= rest
    ensures |LiteralTag(literal)| + literal + Bound(rest - 4) + 3 <= Bound(literal + rest)
  {
    LiteralTagSize(literal);
    if literal > 60 {
      var extra := |LiteralTag(literal)| - 1;
      assert 65 * extra <= literal + 4;
      assert (rest - 4) / 65 + extra <= (literal + rest) / 65;
    }
  }

  lemma MatchSize(b: Block, emitted: nat, curr: nat, copies: seq<byte>)
    requires b.Valid() && b.base <= emitted < curr < b.Limit()
    requires |copies| <= Bound(b.end - curr - 4) + 3
    ensures |b.Literal(emitted, curr) + copies| <= Bound(b.end - emitted)
  {
    LiteralThenCopyBound(curr - emitted, b.end - curr);
  }

  /** Dropping more matched bytes only helps, and a copy of four bytes already saves one. */
  lemma CopyBound(rest: nat, matched: nat)
    requires 4 <= matched <= rest
    ensures Bound(rest - matched) + matched - 1 <= Bound(rest - 4) + 3 <= Bound(rest)
  {
  }

  lemma {:induction false} SearchSize(b: Block, table: seq<uint16>, emitted: nat, curr: nat, skip: nat)
    requires b.Valid() && |table| == TABLE_ENTRIES && b.base <= emitted < curr <= b.end && 32 <= skip
    ensures |b.Search(table, emitted, curr, skip)| <= Bound(b.end - emitted)
    decreases b.end - curr, 2
  {
    hide Hash, EmitLiteral, EmitCopy, FindMatchLength, LiteralTag, Bound;
    var next := curr + skip / 32;
    if next > b.Limit() {
      RemainderSize(b, emitted);
    } else {
      var candidate := b.Candidate(table, curr);
      var table' := b.Remember(table, curr);
      if Read32(b.data, curr) != Read32(b.data, candidate) {
        SearchSize(b, table', emitted, next, skip + 1);
      } else {
        CopiesSize(b, table', candidate, curr);
        MatchSize(b, emitted, curr, b.Copies(table', candidate, curr));
      }
    }
  }

  lemma {:induction false} CopiesSize(b: Block, table: seq<uint16>, candidate: nat, curr: nat)
    requires b.Valid() && |table| == TABLE_ENTRIES && b.base < curr < b.Limit()
    ensures |b.Copies(table, candidate, curr)| <= Bound(b.end - curr - 4) + 3
    decreases b.end - curr, 1
  {
    hide Hash, FindMatchLength, EmitCopy, LiteralTag, Bound;
    var matched := b.Matched(candidate, curr);
    var next := curr + matched;
    CopySaves(b.Distance(candidate, curr), matched);
    CopyBound(b.end - curr, matched);
    if next >= b.Limit() {
      RemainderSize(b, next);
    } else {
      var table1 := b.Remember(table, next - 1);
      var table2 := b.Remember(table1, next);
      var candidate' := b.Candidate(table1, next);
      if Read32(b.data, next) == Read32(b.data, candidate') {
        CopiesSize(b, table2, candidate', next);
        CopyBound(b.end - next, 4);
      } else {
        SearchSize(b, table2, next, next + 1, 32);
      }
    }
  }

  /** With its four-byte header, a block of n bytes takes at most n + n/65 + 6 bytes of output. */
  lemma BlockSize(b: Block)
    requires b.Valid()
    ensures 4 + |b.Compressed()| <= (b.end - b.base) + (b.end - b.base) / 65 + 6
  {
    SearchSize(b, EmptyTable(), b.base, b.base + 1, 32);
  }

  // ---- blocks that are too large ----

  /** 1 2 3 4, zeros up to position 65536, 1 2 3 4 again and zeros to the end. */
  function FarMatch(n: nat): (d: seq<byte>)
    ensures |d| == n
  {
    seq(n, i => if 0 <= i < 4 then i + 1 else if 0x1_0000 <= i < 0x1_0004 then i - 0xFFFF else 0)
  }

  lemma {:induction false} CommonPrefixIs(d: seq<byte>, s1: nat, s2: nat, limit: nat, n: nat)
    requires s2 + n < limit
    requires forall i :: s2 <= i < s2 + n ==> At(d, i) == At(d, i - s2 + s1)
    requires At(d, s1 + n) != At(d, s2 + n)
    ensures CommonPrefix(d, s1, s2, limit) == n
    decreases n
  {
    if n > 0 {
      assert At(d, s2) == At(d, s1);
      CommonPrefixIs(d, s1 + 1, s2 + 1, limit, n - 1);
    }
  }

  /** The zeros match up to position 65536 and no further. */
  lemma FarMatchRun(n: nat, ctzOfZero: nat)
    requires 65552 <= n <= TWO_32
    ensures Block(FarMatch(n), 0, n, ctzOfZero).Matched(4, 5) == 65531
  {
    var d := FarMatch(n);
    CommonPrefixIs(d, 8, 9, n, 65527);
    MatchIsCommonPrefix(d, 8, 9, n, ctzOfZero);
  }

  lemma FarMatchWords(b: Block)
    requires 65552 <= b.end && b.data == FarMatch(b.end)
    ensures Read32(b.data, 0) == Read32(b.data, 65536) == 67305985
    ensures Read32(b.data, 1) == 262914 && Read32(b.data, 2) == 1027 && Read32(b.data, 3) == 4
    ensures Read32(b.data, 4) == 0 && Read32(b.data, 5) == 0 && Read32(b.data, 65535) == 50462976
  {
  }

  lemma FarMatchHashes()
    ensures Hash(262914) == 536 && Hash(1027) == 5145 && Hash(4) == 5444 && Hash(0) == 0
    ensures Hash(50462976) == 11133 && Hash(67305985) == 13695
  {
  }

  /** What the first probes leave in the table: slot 13695, where the word at 0 belongs, is still empty. */
  function FarMatchTable(b: Block): (t: seq<uint16>)
    requires b.base == 0
    ensures |t| == TABLE_ENTRIES
  {
    b.Remember(b.Remember(b.Remember(b.Remember(b.Remember(EmptyTable(), 1), 2), 3), 4), 5)
  }

  lemma FarMatchTableAt(b: Block)
    requires 65552 <= b.end && b.data == FarMatch(b.end) && b.base == 0
    ensures b.Candidate(b.Remember(FarMatchTable(b), 65535), 65536) == 0
  {
    hide Hash;
    FarMatchWords(b);
    FarMatchHashes();
  }

  /** Five probes: the first four find nothing, the fifth matches the zeros one byte back. */
  lemma FarMatchSearch(b: Block)
    requires b.Valid() && 65552 <= b.end && b.data == FarMatch(b.end) && b.base == 0
    ensures b.Compressed() == b.Literal(0, 5) + b.Copies(FarMatchTable(b), 4, 5)
  {
    hide Hash, EmitLiteral;
    FarMatchWords(b);
    FarMatchHashes();
    var t1 := b.Remember(EmptyTable(), 1);
    var t2 := b.Remember(t1, 2);
    var t3 := b.Remember(t2, 3);
    var t4 := b.Remember(t3, 4);
    assert b.Candidate(t4, 5) == 4;
    assert b.Search(t4, 0, 5, 36) == b.Literal(0, 5) + b.Copies(FarMatchTable(b), 4, 5);
    assert b.Candidate(t3, 4) == 0;
    assert b.Search(t3, 0, 4, 35) == b.Search(t4, 0, 5, 36);
    assert b.Candidate(t2, 3) == 0;
    assert b.Search(t2, 0, 3, 34) == b.Search(t3, 0, 4, 35);
    assert b.Candidate(t1, 2) == 0;
    assert b.Search(t1, 0, 2, 33) == b.Search(t2, 0, 3, 34);
    assert b.Search(EmptyTable(), 0, 1, 32) == b.Search(t1, 0, 2, 33);
  }

  /** The copy of the zeros ends at 65536, where the next match lies 65536 bytes back: its offset is written as zero. */
  lemma FarMatchFails(b: Block)
    requires b.Valid() && 65552 <= b.end && b.data == FarMatch(b.end) && b.base == 0
    ensures Decode([], b.Compressed()) == None
  {
    hide Hash, EmitLiteral, EmitCopy, FindMatchLength, Decode;
    FarMatchSearch(b);
    FarMatchRun(b.end, b.ctzOfZero);
    FarMatchTableAt(b);
    FarMatchWords(b);
    var table1 := b.Remember(FarMatchTable(b), 65535);
    var table2 := b.Remember(table1, 65536);
    var far := EmitCopy(65536, b.Matched(0, 65536)) + b.AfterCopy(table2, 65536 + b.Matched(0, 65536));
    assert b.AfterCopy(FarMatchTable(b), 65536) == far;
    var near := EmitCopy(1, 65531);
    assert b.Copies(FarMatchTable(b), 4, 5) == near + far;
    var out := b.data[0..5];
    LiteralDecodes([], out, near + far);
    CopyDecodes([] + out, 1, 65531, far);
    ZeroOffsetRefused(CopyBytes([] + out, 1, 65531), 65536, b.Matched(0, 65536),
                      b.AfterCopy(table2, 65536 + b.Matched(0, 65536)));
  }

  /** A block size serves every block of that size exactly from 15 up to 65551. */
  lemma BlockSizeExact(n: nat)
    requires MARGIN <= n <= TWO_32
    ensures (forall b: Block :: b.Valid() && b.end - b.base == n ==>
               Decode([], b.Compressed()) == Some(b.data[b.base..b.end]))
            <==> n <= MAX_BLOCK
  {
    hide Decode, Hash;
    if n <= MAX_BLOCK {
      forall b: Block | b.Valid() && b.end - b.base == n
        ensures Decode([], b.Compressed()) == Some(b.data[b.base..b.end])
      {
        BlockRoundTrip(b);
      }
    } else {
      var b := Block(FarMatch(n), 0, n, 32);
      FarMatchFails(b);
      assert b.Valid() && b.end - b.base == n;
    }
  }
}
