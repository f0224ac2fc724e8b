/** The bytes the compressor writes for one literal or copy, and what they mean to a Snappy reader. */
module Elements {
  import opened Bytes
  import opened SnappyFormat

  /** The value kept when an integer is stored in a `uint8_t`. */
  function Truncate8(v: int): byte {
    v % 0x100
  }

  // ---- emit_literal ----

  /** The length bytes of a long literal: low byte first, as many as the value needs. */
  function LengthBytes(n: nat): (s: seq<byte>)
    decreases n
  {
    if n == 0 then [] else [n % 0x100] + LengthBytes(n / 0x100)
  }

  function LiteralTag(length: nat): (s: seq<byte>)
    requires 1 <= length <= TWO_32
    ensures 1 <= |s|
  {
    var n := length - 1;
    if n < 60 then [Truncate8(n * 4)]
    else
      var more := LengthBytes(n);
      [Truncate8((59 + |more|) * 4)] + more
  }

  function EmitLiteral(bytes: seq<byte>): (s: seq<byte>)
    requires 1 <= |bytes| <= TWO_32
    ensures |s| == |LiteralTag(|bytes|)| + |bytes|
  {
    LiteralTag(|bytes|) + bytes
  }

  // ---- emit_copy ----

  /** `emit_copy_less_than64`: the two-byte form where the length and the offset fit it, otherwise the three-byte
      form. */
  function CopyPiece(offset: nat, length: nat): seq<byte>
    requires 4 <= length
  {
    if length < 12 && offset < 2048 then
      [Truncate8(1 + (length - 4) * 4 + offset / 0x100 * 0x20), Truncate8(offset)]
    else
      [Truncate8(2 + (length - 1) * 4), Truncate8(offset), Truncate8(offset / 0x100)]
  }

  /** `emit_copy`: pieces of 64 while at least four bytes stay for the last one. */
  function EmitCopy(offset: nat, length: nat): seq<byte>
    requires 4 <= length
    decreases length, offset
  {
    if length >= 68 then CopyPiece(offset, 64) + EmitCopy(offset, length - 64)
    else if length > 64 then CopyPiece(offset, 60) + CopyPiece(offset, length - 60)
    else CopyPiece(offset, length)
  }

  // ---- literals decode to their bytes ----

  lemma {:induction false} LengthBytesValue(n: nat)
    ensures LittleEndian(LengthBytes(n)) == n
  {
    if n > 0 {
      LengthBytesValue(n / 0x100);
      assert LengthBytes(n)[1..] == LengthBytes(n / 0x100);
    }
  }

  lemma {:induction false} LengthBytesCount(n: nat, k: nat)
    requires n < Power256(k)
    ensures |LengthBytes(n)| <= k
    ensures n > 0 ==> LengthBytes(n) != []
  {
    if n > 0 && k > 0 {
      assert n / 0x100 < Power256(k - 1);
      LengthBytesCount(n / 0x100, k - 1);
    }
  }

  function Power256(k: nat): nat {
    if k == 0 then 1 else 256 * Power256(k - 1)
  }

  lemma ShortLiteralParses(bytes: seq<byte>, rest: seq<byte>)
    requires 1 <= |bytes| <= 60
    ensures var s := EmitLiteral(bytes); ParseElement(s + rest) == Parsed(Literal(bytes), |s|)
  {
    var s := EmitLiteral(bytes) + rest;
    assert s[0] == (|bytes| - 1) * 4;
    assert s[1..1 + |bytes|] == bytes;
  }

  lemma LongLiteralParses(bytes: seq<byte>, rest: seq<byte>)
    requires 60 < |bytes| <= TWO_32
    ensures var s := EmitLiteral(bytes); ParseElement(s + rest) == Parsed(Literal(bytes), |s|)
  {
    var s, n := EmitLiteral(bytes) + rest, |bytes| - 1;
    var more := LengthBytes(n);
    LengthBytesValue(n);
    assert Power256(2) == 0x1_0000;
    assert Power256(4) == TWO_32;
    LengthBytesCount(n, 4);
    assert s[0] == (59 + |more|) * 4;
    assert s[1..1 + |more|] == more;
    assert s[1 + |more|..1 + |more| + |bytes|] == bytes;
  }

  lemma LiteralDecodes(out: seq<byte>, bytes: seq<byte>, rest: seq<byte>)
    requires 1 <= |bytes| <= TWO_32
    ensures Decode(out, EmitLiteral(bytes) + rest) == Decode(out + bytes, rest)
  {
    if |bytes| <= 60 { ShortLiteralParses(bytes, rest); } else { LongLiteralParses(bytes, rest); }
    DecodeHead(out, EmitLiteral(bytes), rest, Literal(bytes));
  }

  // ---- copies decode to one overlapping copy ----

  lemma {:induction false} CopyBytesLength(out: seq<byte>, offset: nat, length: nat)
    requires 1 <= offset <= |out|
    ensures |CopyBytes(out, offset, length)| == |out| + length
    decreases length
  {
    if length > 0 { CopyBytesLength(out + [out[|out| - offset]], offset, length - 1); }
  }

  lemma {:induction false} CopyBytesSplit(out: seq<byte>, offset: nat, a: nat, b: nat)
    requires 1 <= offset <= |out|
    ensures offset <= |CopyBytes(out, offset, a)|
    ensures CopyBytes(CopyBytes(out, offset, a), offset, b) == CopyBytes(out, offset, a + b)
    decreases a
  {
    if a > 0 { CopyBytesSplit(out + [out[|out| - offset]], offset, a - 1, b); }
  }

  lemma ShortTag(length: nat, high: nat)
    requires 4 <= length < 12 && high < 8
    ensures var tag := 1 + (length - 4) * 4 + high * 0x20;
            tag < 0x100 && tag % 4 == 1 && tag / 4 / 8 == high && tag / 4 % 8 == length - 4
  {
  }

  lemma ShortPieceParses(offset: nat, length: nat, rest: seq<byte>)
    requires 4 <= length < 12 && offset < 2048
    ensures ParseElement(CopyPiece(offset, length) + rest) == Parsed(Copy(offset, length), 2)
  {
    var s, high, low := CopyPiece(offset, length) + rest, offset / 0x100, [Truncate8(offset)];
    ShortTag(length, high);
    assert s[0] == 1 + (length - 4) * 4 + high * 0x20;
    assert s[1..2] == low && low[1..] == [];
    assert LittleEndian(low) == offset % 0x100;
  }

  lemma TwoBytes(low: byte, high: byte)
    ensures LittleEndian([low, high]) == low + 0x100 * high
  {
    var both, last: seq<byte> := [low, high], [high];
    assert both[1..] == last && last[1..] == [];
    assert LittleEndian(last) == high;
  }

  lemma SplitWord(offset: nat)
    ensures offset % 0x100 + 0x100 * (offset / 0x100 % 0x100) == offset % 0x1_0000
  {
    var low, rest := offset % 0x100, offset / 0x100;
    LowWord(offset, low + 0x100 * (rest % 0x100), rest / 0x100);
  }

  lemma LowWord(offset: nat, word: nat, high: nat)
    requires offset == word + 0x1_0000 * high && word < 0x1_0000
    ensures offset % 0x1_0000 == word
  {
  }

  lemma LowAndHigh(offset: nat)
    ensures LittleEndian([Truncate8(offset), Truncate8(offset / 0x100)]) == offset % 0x1_0000
  {
    hide LittleEndian;
    TwoBytes(Truncate8(offset), Truncate8(offset / 0x100));
    SplitWord(offset);
  }

  lemma LongPieceParses(offset: nat, length: nat, rest: seq<byte>)
    requires 4 <= length <= 64 && !(length < 12 && offset < 2048)
    ensures ParseElement(CopyPiece(offset, length) + rest) == Parsed(Copy(offset % 0x1_0000, length), 3)
  {
    hide LittleEndian;
    var s := CopyPiece(offset, length) + rest;
    var tag: int := s[0];
    assert tag == 2 + 4 * (length - 1);
    assert s[1..3] == [Truncate8(offset), Truncate8(offset / 0x100)];
    LowAndHigh(offset);
  }

  /** A tag carries the length exactly and the offset modulo 65536. */
  lemma PieceParses(offset: nat, length: nat, rest: seq<byte>)
    requires 4 <= length <= 64
    ensures var s := CopyPiece(offset, length);
            ParseElement(s + rest) == Parsed(Copy(offset % 0x1_0000, length), |s|)
  {
    if length < 12 && offset < 2048 {
      ShortPieceParses(offset, length, rest);
    } else {
      LongPieceParses(offset, length, rest);
    }
  }

  lemma PieceDecodes(out: seq<byte>, offset: nat, length: nat, rest: seq<byte>)
    requires 4 <= length <= 64
    ensures Decode(out, CopyPiece(offset, length) + rest) ==
            if 1 <= offset % 0x1_0000 <= |out| then Decode(CopyBytes(out, offset % 0x1_0000, length), rest) else None
  {
    PieceParses(offset, length, rest);
    DecodeHead(out, CopyPiece(offset, length), rest, Copy(offset % 0x1_0000, length));
  }

  /** A copy that needs more than one piece begins with one of at most 64 bytes and leaves at least four. */
  lemma FirstPiece(offset: nat, length: nat) returns (first: nat)
    requires length > 64
    ensures 4 <= first <= 64 && first + 4 <= length && first == if length >= 68 then 64 else 60
    ensures EmitCopy(offset, length) == CopyPiece(offset, first) + EmitCopy(offset, length - first)
  {
    first := if length >= 68 then 64 else 60;
  }

  lemma OnePiece(offset: nat, length: nat)
    requires 4 <= length <= 64
    ensures EmitCopy(offset, length) == CopyPiece(offset, length)
  {
  }

  /** Reading the first piece of a longer stream. */
  lemma PieceThenTail(out: seq<byte>, offset: nat, length: nat, tail: seq<byte>, rest: seq<byte>)
    requires 4 <= length <= 64
    ensures Decode(out, CopyPiece(offset, length) + tail + rest) ==
            if 1 <= offset % 0x1_0000 <= |out| then
              Decode(CopyBytes(out, offset % 0x1_0000, length), tail + rest)
            else None
  {
    assert CopyPiece(offset, length) + tail + rest == CopyPiece(offset, length) + (tail + rest);
    PieceDecodes(out, offset, length, tail + rest);
  }

  /** One piece in front of a stream that decodes like the rest of the copy. */
  lemma PieceThenCopy(out: seq<byte>, offset: nat, first: nat, more: nat, tail: seq<byte>, rest: seq<byte>)
    requires 4 <= first <= 64 && 1 <= offset <= 65535 && offset <= |out|
    requires offset <= |CopyBytes(out, offset, first)|
    requires var mid := CopyBytes(out, offset, first);
             Decode(mid, tail + rest) == Decode(CopyBytes(mid, offset, more), rest)
    ensures Decode(out, CopyPiece(offset, first) + tail + rest) == Decode(CopyBytes(out, offset, first + more), rest)
  {
    assert offset % 0x1_0000 == offset;
    PieceThenTail(out, offset, first, tail, rest);
    CopyBytesSplit(out, offset, first, more);
  }

  /** Splitting a copy into pieces keeps its meaning: reading them all is one overlapping copy. */
  lemma {:induction false} CopyDecodes(out: seq<byte>, offset: nat, length: nat, rest: seq<byte>)
    requires 4 <= length && 1 <= offset <= 65535 && offset <= |out|
    ensures Decode(out, EmitCopy(offset, length) + rest) == Decode(CopyBytes(out, offset, length), rest)
    decreases length
  {
    hide CopyPiece, EmitCopy, Decode, CopyBytes;
    if length > 64 {
      var first := FirstPiece(offset, length);
      CopyBytesLength(out, offset, first);
      CopyDecodes(CopyBytes(out, offset, first), offset, length - first, rest);
      PieceThenCopy(out, offset, first, length - first, EmitCopy(offset, length - first), rest);
    } else {
      assert offset % 0x1_0000 == offset;
      OnePiece(offset, length);
      PieceDecodes(out, offset, length, rest);
    }
  }

  /** The bytes that a list of copies from one offset stands for, if each is 4 to 64 bytes long. */
  ghost predicate CopiesOf(es: seq<Element>, offset: nat, length: nat)
    decreases |es|
  {
    if es == [] then length == 0
    else es[0].Copy? && es[0].offset == offset && 4 <= es[0].length <= 64 && es[0].length <= length
         && CopiesOf(es[1..], offset, length - es[0].length)
  }

  /** The pieces of a copy are copies from its offset, of 4 to 64 bytes each, whose lengths add up to it. */
  lemma {:induction false} CopyParses(offset: nat, length: nat)
    requires 4 <= length && offset <= 65535
    ensures ParseAll(EmitCopy(offset, length)).Some?
    ensures CopiesOf(ParseAll(EmitCopy(offset, length)).value, offset, length)
    decreases length
  {
    assert offset % 0x1_0000 == offset;
    var first := length;
    if length > 64 { first := FirstPiece(offset, length); }
    var piece, rest := CopyPiece(offset, first), if length > 64 then EmitCopy(offset, length - first) else [];
    PieceParses(offset, first, rest);
    assert EmitCopy(offset, length) == piece + rest;
    assert (piece + rest)[|piece|..] == rest;
    if length > 64 { CopyParses(offset, length - first); }
    hide EmitCopy, CopyPiece, ParseElement;
    var es := ParseAll(rest).value;
    assert ParseAll(piece + rest) == Some([Copy(offset, first)] + es);
    assert ([Copy(offset, first)] + es)[1..] == es;
  }

  /** The length of piece `i`: 64 bytes each, but if that left fewer than four for the last, it gets four more and the
      one before it 60. */
  function PieceLength(length: nat, i: nat): int {
    var n := (length + 63) / 64;
    var missing := 64 * n - length;
    if i + 1 == n then 64 - missing + (if missing > 60 then 4 else 0)
    else if i + 2 == n && missing > 60 then 60
    else 64
  }

  ghost predicate ArePieces(es: seq<Element>, offset: nat, length: nat) {
    && |es| == (length + 63) / 64
    && forall i :: 0 <= i < |es| ==>
         es[i].Copy? && es[i].offset == offset && es[i].length == PieceLength(length, i)
  }

  lemma PieceLengthNext(length: nat, first: nat, i: nat)
    requires length > 64 && first == if length >= 68 then 64 else 60
    ensures PieceLength(length, 0) == first && PieceLength(length, i + 1) == PieceLength(length - first, i)
    ensures (length + 63) / 64 == 1 + (length - first + 63) / 64
  {
  }

  lemma OneMorePiece(es: seq<Element>, offset: nat, length: nat, first: nat)
    requires length > 64 && first == if length >= 68 then 64 else 60
    requires ArePieces(es, offset, length - first)
    ensures ArePieces([Copy(offset, first)] + es, offset, length)
  {
    hide PieceLength;
    var es' := [Copy(offset, first)] + es;
    PieceLengthNext(length, first, 0);
    forall i | 0 <= i < |es'|
      ensures es'[i].Copy? && es'[i].offset == offset && es'[i].length == PieceLength(length, i) {
      if i > 0 { PieceLengthNext(length, first, i - 1); }
    }
  }

  /** The elements that a copy is written as. */
  lemma {:induction false} PiecesExactly(offset: nat, length: nat) returns (es: seq<Element>)
    requires 4 <= length && offset <= 65535
    ensures ParseAll(EmitCopy(offset, length)) == Some(es) && ArePieces(es, offset, length)
    decreases length
  {
    assert offset % 0x1_0000 == offset;
    var first, rest, more := length, [], [];
    if length > 64 {
      first := FirstPiece(offset, length);
      rest := EmitCopy(offset, length - first);
      more := PiecesExactly(offset, length - first);
      OneMorePiece(more, offset, length, first);
    }
    es := [Copy(offset, first)] + more;
    assert ArePieces(es, offset, length);
    hide PieceLength, ArePieces;
    var piece := CopyPiece(offset, first);
    PieceParses(offset, first, rest);
    assert EmitCopy(offset, length) == piece + rest && (piece + rest)[|piece|..] == rest;
    hide EmitCopy, CopyPiece, ParseElement;
  }

  /** An offset that is a multiple of 65536 is written as zero, which no reader accepts. */
  lemma ZeroOffsetRefused(out: seq<byte>, offset: nat, length: nat, rest: seq<byte>)
    requires 4 <= length && offset % 0x1_0000 == 0
    ensures Decode(out, EmitCopy(offset, length) + rest) == None
  {
    if length > 64 {
      var first := FirstPiece(offset, length);
      PieceThenTail(out, offset, first, EmitCopy(offset, length - first), rest);
    } else {
      PieceDecodes(out, offset, length, rest);
    }
  }

  // ---- sizes ----

  /** Every copy piece is at least one byte shorter than what it stands for. */
  lemma {:induction false} CopySaves(offset: nat, length: nat)
    requires 4 <= length
    ensures |EmitCopy(offset, length)| <= length - 1
    decreases length
  {
    if length >= 68 { CopySaves(offset, length - 64); }
  }

  lemma Less64(length: nat)
    requires length >= 64
    ensures (length + 63) / 64 == 1 + (length - 64 + 63) / 64 && length % 64 == (length - 64) % 64
  {
  }

  lemma Remainder64(length: nat)
    requires 4 <= length < 68
    ensures (length + 63) / 64 == if length <= 64 then 1 else 2
    ensures length % 64 == if length < 64 then length else length - 64
  {
  }

  /** A copy takes as few elements as 64 bytes each allow, of three bytes each; the last one takes two if the offset is
      short and one to eleven bytes are left over a multiple of 64. */
  lemma {:induction false} CopySize(offset: nat, length: nat)
    requires 4 <= length
    ensures |EmitCopy(offset, length)| ==
            3 * ((length + 63) / 64) - if offset < 2048 && 1 <= length % 64 <= 11 then 1 else 0
    decreases length
  {
    if length >= 68 {
      CopySize(offset, length - 64);
      Less64(length);
      assert |EmitCopy(offset, length)| == 3 + |EmitCopy(offset, length - 64)|;
      hide EmitCopy;
    } else {
      Remainder64(length);
      hide EmitCopy;
    }
  }

  /** A literal costs one tag byte up to 60 bytes, two up to 256, three up to 65536 and at most five beyond. */
  lemma LiteralTagSize(length: nat)
    requires 1 <= length <= TWO_32
    ensures |LiteralTag(length)| == if length <= 60 then 1 else if length <= 0x100 then 2
                                    else if length <= 0x1_0000 then 3 else if length <= 0x100_0000 then 4 else 5
  {
    var n := length - 1;
    if n >= 60 {
      var n1, n2, n3 := n / 0x100, n / 0x1_0000, n / 0x100_0000;
      assert n1 / 0x100 == n2 && n2 / 0x100 == n3 && n3 / 0x100 == 0;
      assert LengthBytes(n3) == if n3 == 0 then [] else [n3 % 0x100];
      assert |LengthBytes(n2)| == if n2 == 0 then 0 else 1 + |LengthBytes(n3)|;
      assert |LengthBytes(n1)| == if n1 == 0 then 0 else 1 + |LengthBytes(n2)|;
    }
  }
}
