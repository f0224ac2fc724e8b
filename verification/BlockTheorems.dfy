/** What the compressed form of one block means, how long it can be, and for which block sizes. */
module BlockTheorems {
  import opened Bytes
  import opened SnappyFormat
  import opened MatchLength
  import opened Elements
  import opened BlockSpec

  /** Largest block whose positions all fit the 16-bit table and the two-byte offsets. */
  const MAX_BLOCK: nat := 65551

  /** Every remembered position lies before `p`. */
  ghost predicate Below(b: Block, table: seq<uint16>, p: nat) {
    |table| == TABLE_ENTRIES && forall i :: 0 <= i < TABLE_ENTRIES ==> b.base + table[i] < p
  }

  lemma RememberBelow(b: Block, table: seq<uint16>, p: nat, q: nat)
    requires b.base <= p < q && Below(b, table, q)
    ensures Below(b, b.Remember(table, p), q)
  {
    assert (p - b.base) % 0x1_0000 <= p - b.base;
  }

  // ---- one step of each loop ----

  lemma SearchUnfolds(b: Block, table: seq<uint16>, emitted: nat, curr: nat, skip: nat)
    requires b.Valid() && |table| == TABLE_ENTRIES && b.base <= emitted < curr <= b.end && 32 <= skip
    ensures b.Search(table, emitted, curr, skip) ==
            var next := curr + skip / 32;
            if next > b.Limit() then b.Remainder(emitted)
            else if Read32(b.data, curr) != Read32(b.data, b.Candidate(table, curr)) then
              b.Search(b.Remember(table, curr), emitted, next, skip + 1)
            else b.Literal(emitted, curr) + b.Copies(b.Remember(table, curr), b.Candidate(table, curr), curr)
  {
    hide Hash, Block.Copies, Block.Literal;
  }

  lemma CopiesUnfolds(b: Block, table: seq<uint16>, candidate: nat, curr: nat)
    requires b.Valid() && |table| == TABLE_ENTRIES && b.base < curr < b.Limit()
    ensures b.Copies(table, candidate, curr) ==
            EmitCopy(b.Distance(candidate, curr), b.Matched(candidate, curr))
            + b.AfterCopy(table, curr + b.Matched(candidate, curr))
  {
    hide Hash, EmitCopy, FindMatchLength, Block.AfterCopy, Block.Search;
  }

  lemma AfterCopyUnfolds(b: Block, table: seq<uint16>, next: nat)
    requires b.Valid() && |table| == TABLE_ENTRIES && b.base < next <= b.end
    ensures b.AfterCopy(table, next) ==
            if next >= b.Limit() then b.Remainder(next)
            else
              var table1 := b.Remember(table, next - 1);
              var table2 := b.Remember(table1, next);
              if Read32(b.data, next) == Read32(b.data, b.Candidate(table1, next)) then
                b.Copies(table2, b.Candidate(table1, next), next)
              else b.Search(table2, next, next + 1, 32)
  {
    hide Hash, Block.Copies, Block.Search;
  }

  // ---- one overlapping copy of matching bytes ----

  /** If the next `length` bytes repeat those `offset` earlier, copying them extends the decoded prefix. */
  lemma {:induction false} CopyExtends(b: Block, curr: nat, offset: nat, length: nat)
    requires b.base + offset <= curr && 1 <= offset && curr + length <= |b.data|
    requires forall i :: curr <= i < curr + length ==> b.data[i] == b.data[i - offset]
    ensures CopyBytes(b.data[b.base..curr], offset, length) == b.data[b.base..curr + length]
    decreases length
  {
    if length > 0 {
      assert b.data[b.base..curr] + [b.data[curr - offset]] == b.data[b.base..curr + 1];
      CopyExtends(b, curr + 1, offset, length - 1);
    }
  }

  /** The match that the compressor copies really repeats the bytes at the candidate. */
  lemma MatchRepeats(b: Block, candidate: nat, curr: nat, i: nat)
    requires b.Valid() && candidate < curr < b.Limit() && Read32(b.data, curr) == Read32(b.data, candidate)
    requires curr <= i < curr + 4 + FindMatchLength(b.data, candidate + 4, curr + 4, b.end, b.ctzOfZero)
    ensures b.data[i] == b.data[i - (curr - candidate)]
  {
    hide FindMatchLength, CommonPrefix;
    Read32Injective(b.data, curr, candidate);
    if i < curr + 4 {
      assert i == curr || i == curr + 1 || i == curr + 2 || i == curr + 3;
    } else {
      MatchIsCommonPrefix(b.data, candidate + 4, curr + 4, b.end, b.ctzOfZero);
      CommonPrefixAgrees(b.data, candidate + 4, curr + 4, b.end, i - curr - 4);
    }
  }

  lemma CopyStep(b: Block, curr: nat, offset: nat, length: nat, rest: seq<byte>)
    requires 1 <= offset <= 65535 && 4 <= length && b.base + offset <= curr && curr + length <= |b.data|
    requires forall i :: curr <= i < curr + length ==> b.data[i] == b.data[i - offset]
    ensures Decode(b.data[b.base..curr], EmitCopy(offset, length) + rest) == Decode(b.data[b.base..curr + length], rest)
  {
    CopyExtends(b, curr, offset, length);
    CopyDecodes(b.data[b.base..curr], offset, length, rest);
  }

  /** Reading `stream` after the block's bytes up to `p` produces the rest of the block. */
  ghost predicate Completes(b: Block, p: nat, stream: seq<byte>)
    requires b.base <= p <= b.end <= |b.data|
  {
    Decode(b.data[b.base..p], stream) == Some(b.data[b.base..b.end])
  }

  lemma MatchStep(b: Block, candidate: nat, curr: nat, rest: seq<byte>)
    requires b.Valid() && b.end - b.base <= MAX_BLOCK
    requires b.base <= candidate < curr < b.Limit() && Read32(b.data, curr) == Read32(b.data, candidate)
    requires Completes(b, curr + b.Matched(candidate, curr), rest)
    ensures Completes(b, curr, EmitCopy(b.Distance(candidate, curr), b.Matched(candidate, curr)) + rest)
  {
    hide Decode, EmitCopy, FindMatchLength;
    var matched := b.Matched(candidate, curr);
    forall i | curr <= i < curr + matched ensures b.data[i] == b.data[i - (curr - candidate)] {
      MatchRepeats(b, candidate, curr, i);
    }
    CopyStep(b, curr, curr - candidate, matched, rest);
  }

  lemma LiteralStep(b: Block, from: nat, to: nat, rest: seq<byte>)
    requires b.Valid() && b.base <= from < to <= b.end
    requires Completes(b, to, rest)
    ensures Completes(b, from, b.Literal(from, to) + rest)
  {
    LiteralDecodes(b.data[b.base..from], b.data[from..to], rest);
    assert b.data[b.base..from] + b.data[from..to] == b.data[b.base..to];
  }

  lemma RemainderCompletes(b: Block, emitted: nat)
    requires b.Valid() && b.base <= emitted <= b.end
    ensures Completes(b, emitted, b.Remainder(emitted))
  {
    if emitted < b.end {
      LiteralStep(b, emitted, b.end, []);
      assert b.Literal(emitted, b.end) + [] == b.Remainder(emitted);
    }
  }

  // ---- the round trip, for each of the three nested loops ----

  lemma {:induction false} SearchCompletes(b: Block, table: seq<uint16>, emitted: nat, curr: nat, skip: nat)
    requires b.Valid() && b.end - b.base <= MAX_BLOCK
    requires b.base <= emitted < curr <= b.end && 32 <= skip && Below(b, table, curr)
    ensures Completes(b, emitted, b.Search(table, emitted, curr, skip))
    decreases b.end - curr, 2
  {
    hide Hash, Completes;
    var next := curr + skip / 32;
    if next > b.Limit() {
      RemainderCompletes(b, emitted);
    } else {
      var candidate := b.Candidate(table, curr);
      var table' := b.Remember(table, curr);
      RememberBelow(b, table, curr, next);
      if Read32(b.data, curr) != Read32(b.data, candidate) {
        SearchCompletes(b, table', emitted, next, skip + 1);
      } else {
        RememberBelow(b, table, curr, curr + 1);
        CopiesComplete(b, table', candidate, curr);
        LiteralStep(b, emitted, curr, b.Copies(table', candidate, curr));
      }
    }
  }

  lemma {:induction false} CopiesComplete(b: Block, table: seq<uint16>, candidate: nat, curr: nat)
    requires b.Valid() && b.end - b.base <= MAX_BLOCK
    requires b.base <= candidate < curr < b.Limit() && Below(b, table, curr + 1)
    requires Read32(b.data, curr) == Read32(b.data, candidate)
    ensures Completes(b, curr, b.Copies(table, candidate, curr))
    decreases b.end - curr, 1
  {
    hide Hash, Completes, FindMatchLength, EmitCopy, Read32, Block.Search;
    var next := curr + b.Matched(candidate, curr);
    if next >= b.Limit() {
      RemainderCompletes(b, next);
    } else {
      var table1 := b.Remember(table, next - 1);
      var table2 := b.Remember(table1, next);
      RememberBelow(b, table, next - 1, next);
      RememberBelow(b, table1, next, next + 1);
      var candidate' := b.Candidate(table1, next);
      if Read32(b.data, next) == Read32(b.data, candidate') {
        CopiesComplete(b, table2, candidate', next);
      } else {
        SearchCompletes(b, table2, next, next + 1, 32);
      }
    }
    MatchStep(b, candidate, curr, b.AfterCopy(table, next));
  }

  /** Each block of 15 to 65551 bytes decodes, on its own, to exactly its input bytes. */
  lemma BlockRoundTrip(b: Block)
    requires b.Valid() && b.end - b.base <= MAX_BLOCK
    ensures Decode([], b.Compressed()) == Some(b.data[b.base..b.end])
  {
    SearchCompletes(b, EmptyTable(), b.base, b.base + 1, 32);
    assert b.data[b.base..b.base] == [];
  }
}
