/** The compressor of snappy_compress.c, step by step, against what BlockSpec says each block becomes. */
module Compress {
  import opened Bytes
  import opened MatchLength
  import opened Elements
  import opened SeqRead
  import opened AppendWindow
  import opened BlockSpec
  import opened BlockTheorems
  import opened FileSpec

  ghost predicate Separate(inp: InBuffer, out: OutBuffer) {
    inp.sr.cache != out.buffer && inp.sr.cache != out.append
  }

  /** The tail of `find_match_length`. */
  method FindTail(inp: InBuffer, s1: nat, s2: nat, limit: nat, ctzOfZero: nat) returns (more: nat)
    requires inp.Valid() && s1 < s2 <= limit <= inp.length
    ensures more == TailMatch(inp.Data(), s1, s2, limit, ctzOfZero)
  {
    hide XorTrailingZeros, SeqReader.Loaded;
    var x := inp.ReadUint32(s1);
    var y := inp.ReadUint32(s2);
    var zeros := if x == y then ctzOfZero else XorTrailingZeros(x, y);
    more := if zeros / 8 < limit - s2 then zeros / 8 else limit - s2;
  }

  /** `find_match_length` */
  method FindMatch(inp: InBuffer, s1: nat, s2: nat, limit: nat, ctzOfZero: nat) returns (matched: nat)
    requires inp.Valid() && s1 < s2 <= limit <= inp.length && 4 <= limit
    ensures matched == FindMatchLength(inp.Data(), s1, s2, limit, ctzOfZero)
  {
    hide TailMatch, SeqReader.Loaded;
    matched := 0;
    var p2 := s2;
    while p2 <= limit - 4
      invariant s2 <= p2 <= limit && p2 == s2 + matched
      invariant matched + FindMatchLength(inp.Data(), s1 + matched, p2, limit, ctzOfZero)
                == FindMatchLength(inp.Data(), s1, s2, limit, ctzOfZero)
    {
      var a := inp.ReadUint32(p2);
      var b := inp.ReadUint32(s1 + matched);
      if a != b { break; }
      p2, matched := p2 + 4, matched + 4;
    }
    var more := FindTail(inp, s1 + matched, p2, limit, ctzOfZero);
    matched := matched + more;
  }

  /** One round of `copy_output_buffer`: as many bytes as the window still takes. */
  method CopyChunk(inp: InBuffer, out: OutBuffer, len: nat) returns (n: nat)
    requires inp.Valid() && out.Valid() && Separate(inp, out) && 1 <= len
    requires inp.curr + len <= inp.length && out.curr + len <= out.buffer.Length
    modifies inp`ptr, inp`curr, inp.sr`mramAddr, inp.sr.cache
    modifies out`appendWindow, out`curr, out`image, out.buffer, out.append
    ensures inp.Valid() && out.Valid()
    ensures 1 <= n <= len && inp.curr == old(inp.curr) + n && out.curr == old(out.curr) + n
    ensures out.appendWindow < out.curr <= out.appendWindow + OUT
    ensures var bytes := inp.Data()[old(inp.curr)..inp.curr];
            out.image == old(out.image) + bytes && out.Stored() == old(out.Stored()) + bytes
  {
    hide InStep, OutBuffer.Stored;
    var index := out.MakeRoom();
    n := if OUT - index < len then OUT - index else len;
    var chunk := inp.Window(n);
    out.Put(chunk);
    inp.Advance(n);
  }

  /** `copy_output_buffer`: the next `len` input bytes go to the output, window by window. */
  method CopyOutput(inp: InBuffer, out: OutBuffer, len: nat)
    requires inp.Valid() && out.Valid() && Separate(inp, out)
    requires inp.curr + len <= inp.length && out.curr + len <= out.buffer.Length
    modifies inp`ptr, inp`curr, inp.sr`mramAddr, inp.sr.cache
    modifies out`appendWindow, out`curr, out`image, out.buffer, out.append
    ensures inp.Valid() && out.Valid() && inp.curr == old(inp.curr) + len && out.curr == old(out.curr) + len
    ensures len > 0 ==> out.Settled()
    ensures var bytes := inp.Data()[old(inp.curr)..inp.curr];
            out.image == old(out.image) + bytes && out.Stored() == old(out.Stored()) + bytes
  {
    hide InStep, OutBuffer.Stored, SeqReader.Loaded;
    var left: nat := len;
    ghost var from, data := inp.curr, inp.Data();
    while left > 0
      invariant inp.Valid() && out.Valid() && left <= len
      invariant inp.curr == from + len - left && out.curr == old(out.curr) + len - left
      invariant out.image == old(out.image) + data[from..inp.curr]
      invariant out.Stored() == old(out.Stored()) + data[from..inp.curr]
      invariant left < len ==> out.appendWindow < out.curr <= out.appendWindow + OUT
    {
      ghost var at := inp.curr;
      var n := CopyChunk(inp, out, left);
      assert data[from..inp.curr] == data[from..at] + data[at..inp.curr];
      left := left - n;
    }
    if len > 0 { WindowIsUnique(out.curr, out.appendWindow); }
  }

  /** `emit_literal` */
  method WriteLiteral(inp: InBuffer, out: OutBuffer, len: nat)
    requires inp.Valid() && out.Valid() && Separate(inp, out) && 1 <= len <= TWO_32
    requires inp.curr + len <= inp.length
    requires out.curr + |LiteralTag(len)| + len <= out.buffer.Length
    modifies inp`ptr, inp`curr, inp.sr`mramAddr, inp.sr.cache
    modifies out`appendWindow, out`curr, out`image, out.buffer, out.append
    ensures inp.Valid() && out.Valid() && out.Settled() && inp.curr == old(inp.curr) + len
    ensures var bytes := EmitLiteral(inp.Data()[old(inp.curr)..inp.curr]);
            out.image == old(out.image) + bytes && out.Stored() == old(out.Stored()) + bytes
  {
    hide InStep, OutBuffer.Stored;
    var tag := LiteralTagBytes(len);
    out.Write(tag);
    CopyOutput(inp, out, len);
  }

  /** The tag array of `emit_literal`: one byte, or a marker and the length bytes. */
  method LiteralTagBytes(len: nat) returns (bytes: seq<byte>)
    requires 1 <= len <= TWO_32
    ensures bytes == LiteralTag(len)
  {
    var tag := new byte[5];
    var n := len - 1;
    var count := 1;
    if n < 60 {
      tag[0] := n * 4;
    } else {
      count := FillLengthBytes(tag, n);
      tag[0] := (58 + count) * 4 % 0x100;
      assert tag[1..count] == LengthBytes(n);
    }
    bytes := tag[..count];
    assert bytes == [tag[0]] + tag[1..count];
  }

  /** The length bytes of a long literal, low byte first, from index 1 on. */
  method FillLengthBytes(tag: array<byte>, length: nat) returns (count: nat)
    requires tag.Length == 5 && length < TWO_32
    modifies tag
    ensures 1 <= count <= 5 && tag[1..count] == LengthBytes(length)
  {
    hide LengthBytes;
    LengthFits(length, 4);
    var n := length;
    count := 1;
    while n > 0
      invariant 1 <= count <= 5 && |LengthBytes(n)| <= 5 - count
      invariant tag[1..count] + LengthBytes(n) == LengthBytes(length)
    {
      ghost var before := tag[1..count];
      NextLengthByte(before, n);
      tag[count] := n % 0x100;
      assert tag[1..count + 1] == before + [n % 0x100];
      n := n / 0x100;
      count := count + 1;
    }
    NoLengthBytes();
  }

  lemma NextLengthByte(before: seq<byte>, n: nat)
    requires n > 0
    ensures before + LengthBytes(n) == before + [n % 0x100] + LengthBytes(n / 0x100)
    ensures |LengthBytes(n)| == 1 + |LengthBytes(n / 0x100)|
  {
  }

  lemma NoLengthBytes()
    ensures LengthBytes(0) == []
  {
  }

  lemma LengthFits(n: nat, k: nat)
    requires n < TWO_32 && k == 4
    ensures |LengthBytes(n)| <= k
  {
    assert Power256(2) == 0x1_0000;
    assert Power256(4) == TWO_32;
    LengthBytesCount(n, 4);
  }

  /** `emit_copy_less_than64` */
  method WriteCopyPiece(out: OutBuffer, offset: nat, len: nat)
    requires out.Valid() && 4 <= len && out.curr + |CopyPiece(offset, len)| <= out.buffer.Length
    modifies out`appendWindow, out`curr, out`image, out.buffer, out.append
    ensures out.Valid() && out.Settled()
    ensures out.image == old(out.image) + CopyPiece(offset, len)
    ensures out.Stored() == old(out.Stored()) + CopyPiece(offset, len)
  {
    hide InStep, OutBuffer.Stored;
    var tag;
    if len < 12 && offset < 2048 {
      tag := [Truncate8(1 + (len - 4) * 4 + offset / 0x100 * 0x20), Truncate8(offset)];
    } else {
      tag := [Truncate8(2 + (len - 1) * 4), Truncate8(offset), Truncate8(offset / 0x100)];
    }
    out.Write(tag);
  }

  lemma EmitCopyUnfolds(offset: nat, len: nat)
    requires 4 <= len
    ensures EmitCopy(offset, len) == if len >= 68 then CopyPiece(offset, 64) + EmitCopy(offset, len - 64)
                                     else if len > 64 then CopyPiece(offset, 60) + CopyPiece(offset, len - 60)
                                     else CopyPiece(offset, len)
  {
  }

  /** `emit_copy` */
  method WriteCopy(out: OutBuffer, offset: nat, length: nat)
    requires out.Valid() && 4 <= length && out.curr + |EmitCopy(offset, length)| <= out.buffer.Length
    modifies out`appendWindow, out`curr, out`image, out.buffer, out.append
    ensures out.Valid() && out.Settled()
    ensures out.image == old(out.image) + EmitCopy(offset, length)
    ensures out.Stored() == old(out.Stored()) + EmitCopy(offset, length)
  {
    hide InStep, OutBuffer.Stored, OutBuffer.Settled, CopyPiece, EmitCopy;
    var len: nat := length;
    ghost var image, stored, written: seq<byte> := out.image, out.Stored(), [];
    while len >= 68
      invariant out.Valid() && 4 <= len <= length && out.curr + |EmitCopy(offset, len)| <= out.buffer.Length
      invariant written + EmitCopy(offset, len) == EmitCopy(offset, length)
      invariant out.image == image + written && out.Stored() == stored + written
    {
      EmitCopyUnfolds(offset, len);
      WriteCopyPiece(out, offset, 64);
      Shift(image, stored, written, CopyPiece(offset, 64), EmitCopy(offset, len - 64));
      written := written + CopyPiece(offset, 64);
      len := len - 64;
    }
    EmitCopyUnfolds(offset, len);
    if len > 64 {
      WriteCopyPiece(out, offset, 60);
      Shift(image, stored, written, CopyPiece(offset, 60), CopyPiece(offset, len - 60));
      written := written + CopyPiece(offset, 60);
      len := len - 60;
    }
    WriteCopyPiece(out, offset, len);
    Shift(image, stored, written, CopyPiece(offset, len), []);
  }

  // ---- compress_block ----

  /** One probe: look up the candidate for `curr`, remember `curr` in its place, compare four bytes. */
  method Probe(inp: InBuffer, table: array<uint16>, base: nat, curr: nat, hash: nat, ghost b: Block)
    returns (candidate: nat, matched: bool)
    requires inp.Valid() && b.data == inp.Data() && b.base == base <= curr < inp.length
    requires table.Length == TABLE_ENTRIES && Below(b, table[..], curr) && hash == b.HashAt(curr)
    requires table as object != inp.sr.cache
    modifies table
    ensures inp.Valid()
    ensures candidate == b.Candidate(old(table[..]), curr) < curr
    ensures table[..] == b.Remember(old(table[..]), curr) && Below(b, table[..], curr + 1)
    ensures matched <==> Read32(b.data, curr) == Read32(b.data, candidate)
  {
    hide Hash;
    ghost var before := table[..];
    candidate := base + table[hash];
    assert candidate == b.Candidate(before, curr);
    table[hash] := (curr - base) % 0x1_0000;
    assert table[..] == b.Remember(before, curr);
    RememberBelow(b, before, curr, curr + 1);
    var here := inp.ReadUint32(curr);
    var there := inp.ReadUint32(candidate);
    matched := here == there;
  }

  lemma BelowLater(b: Block, table: seq<uint16>, p: nat, q: nat)
    requires Below(b, table, p) && p <= q
    ensures Below(b, table, q)
  {
  }

  /** The inner search loop: the first probe after `emitted` that finds four matching bytes, if there is one. */
  method FindCandidate(inp: InBuffer, table: array<uint16>, base: nat, end: nat, emitted: nat, ghost b: Block)
    returns (found: bool, curr: nat, candidate: nat)
    requires inp.Valid() && b.Valid() && b == Block(inp.Data(), base, end, b.ctzOfZero) && end <= inp.length
    requires table.Length == TABLE_ENTRIES && base <= emitted < end && Below(b, table[..], emitted + 1)
    requires table as object != inp.sr.cache
    modifies table
    ensures inp.Valid()
    ensures !found ==> b.Search(old(table[..]), emitted, emitted + 1, 32) == b.Remainder(emitted)
    ensures found ==>
              && base <= candidate < curr < b.Limit() && emitted < curr && Below(b, table[..], curr + 1)
              && Read32(b.data, curr) == Read32(b.data, candidate)
              && b.Search(old(table[..]), emitted, emitted + 1, 32)
                 == b.Literal(emitted, curr) + b.Copies(table[..], candidate, curr)
  {
    hide Hash, Below, Block.Search, Block.Copies, Block.Literal, Block.Remainder, Block.Remember, Block.Candidate;
    hide SeqReader.Loaded;
    curr := emitted + 1;
    var word := inp.ReadUint32(curr);
    var nextHash := Hash(word);
    var skip: nat, next: nat := 32, curr;
    candidate := base;
    while true
      invariant 32 <= skip && emitted < next <= end && nextHash == b.HashAt(next)
      invariant inp.Valid() && Below(b, table[..], next)
      invariant b.Search(old(table[..]), emitted, emitted + 1, 32) == b.Search(table[..], emitted, next, skip)
      decreases end - next
    {
      SearchUnfolds(b, table[..], emitted, next, skip);
      curr := next;
      var hash := nextHash;
      var between := skip / 32;
      skip := skip + 1;
      next := curr + between;
      if next > end - MARGIN { return false, curr, candidate; }
      word := inp.ReadUint32(next);
      nextHash := Hash(word);
      candidate, found := Probe(inp, table, base, curr, hash, b);
      if found { return; }
      BelowLater(b, table[..], curr + 1, next);
    }
  }

  /** The copy for the match at `curr`, with the reader moved past the matched bytes. */
  method CopyMatch(inp: InBuffer, out: OutBuffer, end: nat, ctzOfZero: nat, candidate: nat, curr: nat, ghost b: Block)
    returns (next: nat)
    requires inp.Valid() && out.Valid() && Separate(inp, out)
    requires b.Valid() && b.data == inp.Data() && b.end == end <= inp.length && b.ctzOfZero == ctzOfZero
    requires b.base <= candidate < curr < b.Limit() && inp.curr == curr
    requires out.curr + |EmitCopy(b.Distance(candidate, curr), b.Matched(candidate, curr))| <= out.buffer.Length
    modifies inp`ptr, inp`curr, inp.sr`mramAddr, inp.sr.cache
    modifies out`appendWindow, out`curr, out`image, out.buffer, out.append
    ensures inp.Valid() && out.Valid() && out.Settled() && inp.curr == next == curr + b.Matched(candidate, curr)
    ensures var bytes := EmitCopy(b.Distance(candidate, curr), b.Matched(candidate, curr));
            out.image == old(out.image) + bytes && out.Stored() == old(out.Stored()) + bytes
  {
    hide InStep, OutBuffer.Stored, OutBuffer.Settled, EmitCopy, FindMatchLength;
    var more := FindMatch(inp, candidate + 4, curr + 4, end, ctzOfZero);
    var matched := 4 + more;
    next := curr + matched;
    inp.Advance(matched);
    WriteCopy(out, curr - candidate, matched);
  }

  /** After a copy: remember the last two positions and look for a match right at `next`. */
  method LookAhead(inp: InBuffer, table: array<uint16>, base: nat, next: nat, ghost b: Block)
    returns (candidate: nat, matched: bool)
    requires inp.Valid() && b.data == inp.Data() && b.base == base < next <= inp.length
    requires table.Length == TABLE_ENTRIES && Below(b, table[..], next)
    requires table as object != inp.sr.cache
    modifies table
    ensures inp.Valid()
    ensures var table1 := b.Remember(old(table[..]), next - 1);
            candidate == b.Candidate(table1, next) < next && table[..] == b.Remember(table1, next)
    ensures Below(b, table[..], next + 1)
    ensures matched <==> Read32(b.data, next) == Read32(b.data, candidate)
  {
    hide Hash;
    ghost var before := table[..];
    var last, here := inp.ReadTwoUint32(next - 1);
    table[Hash(last)] := (next - base - 1) % 0x1_0000;
    assert table[..] == b.Remember(before, next - 1);
    RememberBelow(b, before, next - 1, next);
    ghost var table1 := table[..];
    candidate := base + table[Hash(here)];
    assert candidate == b.Candidate(table1, next);
    table[Hash(here)] := (next - base) % 0x1_0000;
    assert table[..] == b.Remember(table1, next);
    RememberBelow(b, table1, next, next + 1);
    var there := inp.ReadUint32(candidate);
    matched := here == there;
  }

  /** The copy loop: copies for as long as another match begins where the last one ended. */
  method FollowCopies(inp: InBuffer, out: OutBuffer, table: array<uint16>, base: nat, end: nat, ctzOfZero: nat,
                      candidate0: nat, curr0: nat, ghost b: Block)
    returns (next: nat, ghost written: seq<byte>)
    requires inp.Valid() && out.Valid() && Separate(inp, out)
    requires b.Valid() && b == Block(inp.Data(), base, end, ctzOfZero) && end <= inp.length
    requires table.Length == TABLE_ENTRIES && Below(b, table[..], curr0 + 1)
    requires table as object !in {inp.sr.cache, out.buffer, out.append}
    requires base <= candidate0 < curr0 < b.Limit() && inp.curr == curr0
    requires b.data[curr0..curr0 + 4] == b.data[candidate0..candidate0 + 4]
    requires out.curr + |b.Copies(table[..], candidate0, curr0)| <= out.buffer.Length
    modifies inp`ptr, inp`curr, inp.sr`mramAddr, inp.sr.cache
    modifies out`appendWindow, out`curr, out`image, out.buffer, out.append, table
    ensures inp.Valid() && out.Valid() && out.Settled() && inp.curr == next && curr0 < next <= end
    ensures out.image == old(out.image) + written && out.Stored() == old(out.Stored()) + written
    ensures b.Copies(old(table[..]), candidate0, curr0)
            == written + if next >= b.Limit() then b.Remainder(next) else b.Search(table[..], next, next + 1, 32)
    ensures next < b.Limit() ==> Below(b, table[..], next + 1)
  {
    hide Hash, Below, Block.Search, Block.Copies, Block.AfterCopy, Block.Remainder, Block.Remember, Block.Candidate;
    hide InStep, OutBuffer.Stored, OutBuffer.Settled, EmitCopy, FindMatchLength, SeqReader.Loaded, Read32;
    var candidate, curr := candidate0, curr0;
    WordsAreSlices(b.data, curr0, candidate0);
    ghost var image, stored := out.image, out.Stored();
    written := [];
    while true
      invariant inp.Valid() && out.Valid() && curr0 <= curr < b.Limit() && base <= candidate < curr && inp.curr == curr
      invariant Below(b, table[..], curr + 1)
      invariant out.image == image + written && out.Stored() == stored + written
      invariant written + b.Copies(table[..], candidate, curr) == b.Copies(old(table[..]), candidate0, curr0)
      decreases end - curr
    {
      ghost var piece := EmitCopy(b.Distance(candidate, curr), b.Matched(candidate, curr));
      CopiesUnfolds(b, table[..], candidate, curr);
      next := CopyMatch(inp, out, end, ctzOfZero, candidate, curr, b);
      Shift(image, stored, written, piece, b.AfterCopy(table[..], next));
      written := written + piece;
      AfterCopyUnfolds(b, table[..], next);
      if next >= end - MARGIN { return; }
      BelowLater(b, table[..], curr + 1, next);
      var again;
      candidate, again := LookAhead(inp, table, base, next, b);
      curr := next;
      if !again { return; }
    }
  }

  /** The literal up to `to`, from wherever the reader stands. */
  method WriteUpTo(inp: InBuffer, out: OutBuffer, to: nat, ghost b: Block)
    requires inp.Valid() && out.Valid() && Separate(inp, out)
    requires b.Valid() && b.data == inp.Data() && b.base <= inp.curr < to <= b.end <= inp.length
    requires out.curr + |b.Literal(inp.curr, to)| <= out.buffer.Length
    modifies inp`ptr, inp`curr, inp.sr`mramAddr, inp.sr.cache
    modifies out`appendWindow, out`curr, out`image, out.buffer, out.append
    ensures inp.Valid() && out.Valid() && out.Settled() && inp.curr == to
    ensures var bytes := b.Literal(old(inp.curr), to);
            out.image == old(out.image) + bytes && out.Stored() == old(out.Stored()) + bytes
  {
    hide InStep, OutBuffer.Stored, OutBuffer.Settled, SeqReader.Loaded, LiteralTag;
    WriteLiteral(inp, out, to - inp.curr);
  }

  /** `emit_remainder`: what is left of the block becomes one literal. */
  method WriteRemainder(inp: InBuffer, out: OutBuffer, end: nat, ghost b: Block)
    requires inp.Valid() && out.Valid() && Separate(inp, out)
    requires b.Valid() && b.data == inp.Data() && b.base <= inp.curr <= end == b.end <= inp.length
    requires inp.curr == end ==> out.Settled()
    requires out.curr + |b.Remainder(inp.curr)| <= out.buffer.Length
    modifies inp`ptr, inp`curr, inp.sr`mramAddr, inp.sr.cache
    modifies out`appendWindow, out`curr, out`image, out.buffer, out.append
    ensures inp.Valid() && out.Valid() && out.Settled() && inp.curr == end
    ensures var bytes := b.Remainder(old(inp.curr));
            out.image == old(out.image) + bytes && out.Stored() == old(out.Stored()) + bytes
  {
    hide InStep, OutBuffer.Stored, OutBuffer.Settled, SeqReader.Loaded, Block.Literal;
    if inp.curr < end {
      WriteUpTo(inp, out, end, b);
    } else {
      assert out.image + [] == out.image && out.Stored() + [] == out.Stored();
    }
  }

  lemma EmptyBelow(b: Block)
    ensures Below(b, EmptyTable(), b.base + 1)
  {
  }

  /** One outer iteration: a literal and the copies after it, or the remainder of the block. */
  method WriteRound(inp: InBuffer, out: OutBuffer, table: array<uint16>, base: nat, end: nat, ctzOfZero: nat,
                    ghost b: Block)
    returns (atEnd: bool, ghost written: seq<byte>)
    requires inp.Valid() && out.Valid() && Separate(inp, out)
    requires b.Valid() && b == Block(inp.Data(), base, end, ctzOfZero) && base <= inp.curr < end <= inp.length
    requires table.Length == TABLE_ENTRIES && Below(b, table[..], inp.curr + 1)
    requires table as object !in {inp.sr.cache, out.buffer, out.append}
    requires out.curr + |b.Search(table[..], inp.curr, inp.curr + 1, 32)| <= out.buffer.Length
    modifies inp`ptr, inp`curr, inp.sr`mramAddr, inp.sr.cache
    modifies out`appendWindow, out`curr, out`image, out.buffer, out.append, table
    ensures inp.Valid() && out.Valid() && out.Settled()
    ensures out.image == old(out.image) + written && out.Stored() == old(out.Stored()) + written
    ensures atEnd ==> inp.curr == end && old(b.Search(table[..], inp.curr, inp.curr + 1, 32)) == written
    ensures !atEnd ==>
              && old(inp.curr) < inp.curr < end && Below(b, table[..], inp.curr + 1)
              && old(b.Search(table[..], inp.curr, inp.curr + 1, 32))
                 == written + b.Search(table[..], inp.curr, inp.curr + 1, 32)
  {
    hide Hash, Below, Block.Search, Block.Copies, Block.Remainder, Block.Literal, Read32;
    hide InStep, OutBuffer.Stored, OutBuffer.Settled, SeqReader.Loaded;
    ghost var image, stored, from := out.image, out.Stored(), inp.curr;
    var found, curr, candidate := FindCandidate(inp, table, base, end, inp.curr, b);
    if !found {
      WriteRemainder(inp, out, end, b);
      return true, b.Remainder(from);
    }
    ghost var copies := b.Copies(table[..], candidate, curr);
    WriteUpTo(inp, out, curr, b);
    written := b.Literal(from, curr);
    ghost var more;
    var next;
    WordsAreSlices(b.data, curr, candidate);
    next, more := FollowCopies(inp, out, table, base, end, ctzOfZero, candidate, curr, b);
    ghost var rest := if next >= b.Limit() then b.Remainder(next) else b.Search(table[..], next, next + 1, 32);
    Shift(image, stored, written, more, rest);
    written := written + more;
    atEnd := next >= end - MARGIN;
    if atEnd {
      WriteRemainder(inp, out, end, b);
      Shift(image, stored, written, rest, []);
      written := written + rest;
    }
  }

  /** The elements of one block of at least 15 bytes. */
  method WriteElements(inp: InBuffer, out: OutBuffer, table: array<uint16>, base: nat, end: nat, ctzOfZero: nat,
                       ghost b: Block)
    requires inp.Valid() && out.Valid() && Separate(inp, out)
    requires b.Valid() && b == Block(inp.Data(), base, end, ctzOfZero) && base == inp.curr < end <= inp.length
    requires table.Length == TABLE_ENTRIES && table[..] == EmptyTable()
    requires table as object !in {inp.sr.cache, out.buffer, out.append}
    requires out.curr + |b.Compressed()| <= out.buffer.Length
    modifies inp`ptr, inp`curr, inp.sr`mramAddr, inp.sr.cache
    modifies out`appendWindow, out`curr, out`image, out.buffer, out.append, table
    ensures inp.Valid() && out.Valid() && out.Settled() && inp.curr == end
    ensures out.image == old(out.image) + b.Compressed() && out.Stored() == old(out.Stored()) + b.Compressed()
  {
    hide Hash, Below, Block.Search, Block.Remainder, EmptyTable;
    hide InStep, OutBuffer.Stored, OutBuffer.Settled, SeqReader.Loaded;
    ghost var image, stored, written: seq<byte> := out.image, out.Stored(), [];
    EmptyBelow(b);
    while true
      invariant inp.Valid() && out.Valid() && base <= inp.curr < end && Below(b, table[..], inp.curr + 1)
      invariant out.image == image + written && out.Stored() == stored + written
      invariant written + b.Search(table[..], inp.curr, inp.curr + 1, 32) == b.Compressed()
      decreases end - inp.curr
    {
      ghost var todo := b.Search(table[..], inp.curr, inp.curr + 1, 32);
      var atEnd;
      ghost var more;
      atEnd, more := WriteRound(inp, out, table, base, end, ctzOfZero, b);
      if atEnd {
        Shift(image, stored, written, more, []);
        return;
      }
      Shift(image, stored, written, more, b.Search(table[..], inp.curr, inp.curr + 1, 32));
      written := written + more;
    }
  }

  /** `compress_block`: the header is skipped, the elements follow, then the header is filled in.
      A block of fewer than 15 bytes leaves the header open and takes no input. */
  method CompressBlock(inp: InBuffer, out: OutBuffer, size: nat, table: array<uint16>, ctzOfZero: nat)
    requires inp.Valid() && out.Valid() && out.Settled() && Separate(inp, out) && inp.curr + size <= inp.length
    requires table.Length == TABLE_ENTRIES && table[..] == EmptyTable()
    requires table as object !in {inp.sr.cache, out.buffer, out.append}
    requires MARGIN <= size ==>
               var stream := Block(inp.Data(), inp.curr, inp.curr + size, ctzOfZero).Compressed();
               out.curr + 20 + |stream| <= out.buffer.Length
    modifies inp`ptr, inp`curr, inp.sr`mramAddr, inp.sr.cache
    modifies out`appendWindow, out`curr, out`image, out.buffer, out.append, table
    ensures inp.Valid() && out.Valid()
    ensures size < MARGIN ==>
              && inp.curr == old(inp.curr) && out.curr == old(out.curr) + 4
              && out.image == Reserve(old(out.image), out.initial)
    ensures MARGIN <= size ==> inp.curr == old(inp.curr) + size && out.Settled()
    ensures MARGIN <= size ==>
              var stream := Block(inp.Data(), old(inp.curr), old(inp.curr) + size, ctzOfZero).Compressed();
              var before := Output(old(out.image), old(out.Stored()));
              Output(out.image, out.Stored()) == AddBlock(before, out.initial, stream)
  {
    hide Block.Compressed, InStep, OutBuffer.Stored, SeqReader.Loaded, WindowOf, EmptyTable;
    hide Reserve, PatchBelow, AddBlock;
    var base, end := inp.curr, inp.curr + size;
    ghost var image, stored := out.image, out.Stored();
    out.ReserveHeader();
    var start := out.curr;
    if size >= MARGIN {
      ghost var b := Block(inp.Data(), base, end, ctzOfZero);
      WriteElements(inp, out, table, base, end, ctzOfZero, b);
      AddedBlock(image, stored, out.initial, b.Compressed());
      out.WriteCompressedLength(start - 4, (out.curr - start) % TWO_32);
    }
  }

  /** The header space and the elements, patched, are the block `AddBlock` adds. */
  lemma AddedBlock(image: seq<byte>, stored: seq<byte>, initial: seq<byte>, stream: seq<byte>)
    requires |image| == |stored| && |initial| == OUT
    ensures var reserved := Reserve(image, initial); var n := |image|;
            var whole := stored + reserved[n..] + stream;
            Output(reserved + stream, PatchBelow(whole, n, HeaderBytes(|stream|), WindowOf(n + 4 + |stream|)))
            == AddBlock(Output(image, stored), initial, stream)
  {
    hide Reserve, PatchBelow, WindowOf, HeaderBytes;
    var reserved := Reserve(image, initial);
    assert (reserved + stream)[|image|..] == reserved[|image|..] + stream;
    ConcatAssoc(stored, reserved[|image|..], stream);
  }

  // ---- dpu_compress ----

  /** `dpu_compress`: block after block from a cleared table, then the last window. The output is exactly the file of
      FileSpec, and the whole input has been read. */
  method DpuCompress(inp: InBuffer, out: OutBuffer, blockSize: nat, table: array<uint16>, ctzOfZero: nat)
    requires inp.Valid() && out.Valid() && Separate(inp, out) && inp.curr == 0 && out.curr == 0
    requires table.Length == TABLE_ENTRIES && table as object !in {inp.sr.cache, out.buffer, out.append}
    requires CanFinish(inp.length, blockSize)
    requires |FileOf(inp.Data(), inp.length, blockSize, ctzOfZero, out.initial)| + 16 <= out.buffer.Length
    modifies inp`ptr, inp`curr, inp.sr`mramAddr, inp.sr.cache, table
    modifies out`appendWindow, out`curr, out`image, out`length, out.buffer, out.append
    ensures inp.Valid() && inp.curr == inp.length
    ensures out.length <= out.buffer.Length
    ensures out.buffer[..out.length] == FileOf(inp.Data(), inp.length, blockSize, ctzOfZero, out.initial)
  {
    hide InStep, OutBuffer.Stored, SeqReader.Loaded, WindowOf, Streams, AddAll, AddBlock, EmptyTable;
    hide CanFinish, Capacity, Block.Compressed;
    var remain := inp.length;
    ghost var data, length, initial := inp.Data(), inp.length, out.initial;
    ghost var all := AddAll(Output([], []), initial, Streams(data, 0, length, blockSize, ctzOfZero));
    FileSize(data, 0, length, blockSize, ctzOfZero);
    while inp.curr < inp.length
      invariant inp.Valid() && out.Valid() && out.Settled()
      invariant inp.curr + remain == length && CanFinish(remain, blockSize)
      invariant |out.image| == |out.Stored()|
      invariant AddAll(Output(out.image, out.Stored()), initial,
                       Streams(data, inp.curr, length, blockSize, ctzOfZero)) == all
      decreases remain
    {
      NextBlock(Output(out.image, out.Stored()), initial, data, inp.curr, length, blockSize, ctzOfZero);
      var size := if remain < blockSize then remain else blockSize;
      ClearTable(table);
      CompressBlock(inp, out, size, table, ctzOfZero);
      remain := remain - size;
    }
    NoMoreBlocks(Output(out.image, out.Stored()), initial, data, length, blockSize, ctzOfZero);
    out.Finish();
  }

  lemma NoMoreBlocks(o: Output, initial: seq<byte>, data: seq<byte>, length: nat, blockSize: nat, ctzOfZero: nat)
    requires o.Valid() && |initial| == OUT && length <= |data| && length <= TWO_32
    ensures AddAll(o, initial, Streams(data, length, length, blockSize, ctzOfZero)) == o
  {
  }

  /** `memset` of the hash table. */
  method ClearTable(table: array<uint16>)
    requires table.Length == TABLE_ENTRIES
    modifies table
    ensures table[..] == EmptyTable()
  {
    forall i | 0 <= i < TABLE_ENTRIES { table[i] := 0; }
  }
}
