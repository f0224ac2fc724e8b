/** The whole output of `dpu_compress`: blocks behind four-byte headers, and which headers survive. */
module FileSpec {
  import opened Bytes
  import opened SnappyFormat
  import opened AppendWindow
  import opened BlockSpec
  import opened BlockTheorems
  import opened BlockLimits

  /** The byte count of a block as it is stored in its header. */
  function HeaderBytes(n: nat): (s: seq<byte>)
    ensures |s| == 4
  {
    LittleEndian32(n % TWO_32)
  }

  // ---- which inputs the driver loop finishes ----

  /** What remains after whole blocks is nothing, or enough for the margin. */
  predicate CanFinish(remain: nat, blockSize: nat) {
    remain == 0 || (blockSize >= MARGIN && (remain % blockSize == 0 || remain % blockSize >= MARGIN))
  }

  function Next(remain: nat, blockSize: nat): (n: nat)
    ensures n <= remain && n <= blockSize
  {
    if remain < blockSize then remain else blockSize
  }

  lemma FinishStep(remain: nat, blockSize: nat)
    requires remain > 0
    ensures CanFinish(remain, blockSize) <==>
            Next(remain, blockSize) >= MARGIN && CanFinish(remain - Next(remain, blockSize), blockSize)
  {
    if 0 < blockSize <= remain {
      SubtractModulus(remain, blockSize);
    } else if remain < blockSize {
      SmallModulus(remain, blockSize);
    }
  }

  lemma AtLeastOnce(k: int, m: nat)
    requires k >= 1
    ensures k * m >= m
  {
  }

  lemma SameRemainder(q: int, r: nat, q': int, r': nat, m: nat)
    requires r < m && r' < m && q * m + r == q' * m + r'
    ensures r == r'
  {
    if q < q' { AtLeastOnce(q' - q, m); } else if q' < q { AtLeastOnce(q - q', m); }
  }

  lemma SubtractModulus(a: nat, m: nat)
    requires 0 < m <= a
    ensures (a - m) % m == a % m
  {
    var q, r := a / m, a % m;
    var q', r' := (a - m) / m, (a - m) % m;
    assert a == q * m + r;
    assert a - m == q' * m + r';
    SameRemainder(q - 1, r, q', r', m);
  }

  lemma SmallModulus(a: nat, m: nat)
    requires a < m
    ensures a % m == a
  {
  }

  /** The control state of the driver loop: the reader's position and `length_remain`. */
  datatype Driver = Driver(curr: nat, remain: nat)

  /** One round: a block shorter than the margin is counted off but takes no input. */
  function Step(s: Driver, blockSize: nat): Driver {
    var size := Next(s.remain, blockSize);
    Driver(if size < MARGIN then s.curr else s.curr + size, s.remain - size)
  }

  function After(s: Driver, blockSize: nat, rounds: nat): Driver
    decreases rounds
  {
    if rounds == 0 then s else After(Step(s, blockSize), blockSize, rounds - 1)
  }

  /** Once the count runs ahead of the reader, the reader never reaches the end. */
  lemma {:induction false} StuckForever(s: Driver, blockSize: nat, length: nat, rounds: nat)
    requires s.curr + s.remain < length
    ensures After(s, blockSize, rounds).curr < length
    decreases rounds
  {
    if rounds > 0 { StuckForever(Step(s, blockSize), blockSize, length, rounds - 1); }
  }

  lemma {:induction false} NeverDone(s: Driver, blockSize: nat, length: nat, rounds: nat)
    requires s.curr + s.remain == length && !CanFinish(s.remain, blockSize)
    ensures After(s, blockSize, rounds).curr < length
    decreases rounds
  {
    if rounds > 0 {
      FinishStep(s.remain, blockSize);
      var size := Next(s.remain, blockSize);
      if size >= MARGIN {
        NeverDone(Step(s, blockSize), blockSize, length, rounds - 1);
      } else if size > 0 {
        StuckForever(Step(s, blockSize), blockSize, length, rounds - 1);
      } else {
        NeverDone(Step(s, blockSize), blockSize, length, rounds - 1);
      }
    }
  }

  /** The number of blocks. */
  function Rounds(remain: nat, blockSize: nat): nat
    decreases remain
  {
    if remain == 0 || blockSize == 0 then 0 else 1 + Rounds(remain - Next(remain, blockSize), blockSize)
  }

  lemma {:induction false} DoneAfterRounds(s: Driver, blockSize: nat)
    requires CanFinish(s.remain, blockSize)
    ensures After(s, blockSize, Rounds(s.remain, blockSize)) == Driver(s.curr + s.remain, 0)
    decreases s.remain
  {
    if s.remain > 0 {
      FinishStep(s.remain, blockSize);
      DoneAfterRounds(Step(s, blockSize), blockSize);
    }
  }

  /** The driver loop ends exactly when no block is shorter than the margin. */
  lemma TerminatesExactly(length: nat, blockSize: nat)
    ensures (exists rounds :: After(Driver(0, length), blockSize, rounds).curr >= length)
            <==> CanFinish(length, blockSize)
  {
    if CanFinish(length, blockSize) {
      DoneAfterRounds(Driver(0, length), blockSize);
      assert After(Driver(0, length), blockSize, Rounds(length, blockSize)).curr >= length;
    } else {
      forall rounds ensures After(Driver(0, length), blockSize, rounds).curr < length {
        NeverDone(Driver(0, length), blockSize, length, rounds);
      }
    }
  }

  // ---- the output as blocks are added ----

  /** `image` is what flushing writes, `stored` what the logical output holds. */
  datatype Output = Output(image: seq<byte>, stored: seq<byte>) {
    ghost predicate Valid() { |image| == |stored| }
  }

  function AddBlock(o: Output, initial: seq<byte>, stream: seq<byte>): (r: Output)
    requires o.Valid() && |initial| == OUT
    ensures r.Valid() && |r.image| == |o.image| + 4 + |stream|
  {
    var image := Reserve(o.image, initial) + stream;
    Output(image, PatchBelow(o.stored + image[|o.image|..], |o.image|, HeaderBytes(|stream|), WindowOf(|image|)))
  }

  /** The room that blocks take with their headers. */
  function Sizes(streams: seq<seq<byte>>): nat
    decreases |streams|
  {
    if streams == [] then 0 else 4 + |streams[0]| + Sizes(streams[1..])
  }

  function AddAll(o: Output, initial: seq<byte>, streams: seq<seq<byte>>): (r: Output)
    requires o.Valid() && |initial| == OUT
    ensures r.Valid() && |r.image| == |o.image| + Sizes(streams)
    ensures o.stored <= r.stored
    decreases |streams|
  {
    if streams == [] then o
    else
      AddBlockBytes(o, initial, streams[0]);
      AddAll(AddBlock(o, initial, streams[0]), initial, streams[1..])
  }

  /** The element streams of the blocks from `pos` on. */
  function Streams(data: seq<byte>, pos: nat, length: nat, blockSize: nat, ctzOfZero: nat): seq<seq<byte>>
    requires pos <= length <= |data| && length <= TWO_32 && CanFinish(length - pos, blockSize)
    decreases length - pos
  {
    if pos == length then []
    else
      FinishStep(length - pos, blockSize);
      var next := pos + Next(length - pos, blockSize);
      [Block(data, pos, next, ctzOfZero).Compressed()] + Streams(data, next, length, blockSize, ctzOfZero)
  }

  // ---- where the input is cut ----

  lemma CancelFactor(x: int, y: int, m: nat)
    requires m > 0 && x * m == y * m
    ensures x == y
  {
    if x > y { AtLeastOnce(x - y, m); } else if y > x { AtLeastOnce(y - x, m); }
  }

  /** One more whole block. */
  lemma OneMoreBlock(r: nat, m: nat)
    requires 0 < m
    ensures (r + m) / m == 1 + r / m
  {
    SubtractModulus(r + m, m);
    var q, q' := (r + m) / m, r / m;
    assert r + m == q * m + (r + m) % m && r == q' * m + r % m;
    CancelFactor(q - 1, q', m);
  }

  /** Where block `i` of the blocks from `pos` on begins. */
  function CutAt(pos: nat, i: nat, blockSize: nat): nat {
    pos + i * blockSize
  }

  lemma NextCut(pos: nat, i: nat, blockSize: nat)
    requires i > 0
    ensures CutAt(pos, i, blockSize) == CutAt(pos + blockSize, i - 1, blockSize)
    ensures CutAt(pos, i, blockSize) >= pos + blockSize
  {
    AtLeastOnce(i, blockSize);
  }

  /** The input is cut at the multiples of the block size, and only the last block may be shorter. */
  lemma {:induction false} StreamsCut(data: seq<byte>, pos: nat, length: nat, blockSize: nat, ctzOfZero: nat, i: nat)
    requires pos <= length <= |data| && length <= TWO_32 && CanFinish(length - pos, blockSize)
    ensures var streams := Streams(data, pos, length, blockSize, ctzOfZero);
            && |streams| == (if pos == length then 0 else (length - pos + blockSize - 1) / blockSize)
            && (i < |streams| ==>
                  var from, to := CutAt(pos, i, blockSize), CutAt(pos, i + 1, blockSize);
                  var end := if to <= length then to else length;
                  from + MARGIN <= end && streams[i] == Block(data, from, end, ctzOfZero).Compressed())
    decreases length - pos
  {
    hide Block.Compressed;
    if pos < length {
      FinishStep(length - pos, blockSize);
      NextCut(pos, 1, blockSize);
      if length - pos <= blockSize {
        OneMoreBlock(length - pos - 1, blockSize);
        SmallQuotient(length - pos - 1, blockSize);
        if i > 0 { NextCut(pos, i, blockSize); }
      } else {
        OneMoreBlock(length - pos - 1, blockSize);
        if i > 0 {
          NextCut(pos, i, blockSize);
          NextCut(pos, i + 1, blockSize);
          StreamsCut(data, pos + blockSize, length, blockSize, ctzOfZero, i - 1);
        } else {
          StreamsCut(data, pos + blockSize, length, blockSize, ctzOfZero, i);
        }
      }
    }
  }

  lemma SmallQuotient(a: nat, m: nat)
    requires a < m
    ensures a / m == 0
  {
  }

  // ---- what is in the file ----

  /** Byte `i` of the header in front of a block of `n` bytes: patched if its window was flushed before the block
      ended, otherwise overwritten with the stale byte of the window. */
  function HeaderByte(image: seq<byte>, initial: seq<byte>, n: nat, i: nat): byte
    requires |initial| == OUT && i < 4
  {
    if |image| + i < WindowOf(|image| + 4 + n) then HeaderBytes(n)[i] else Stale(image, initial, |image| + i)
  }

  /** Patching the four bytes `w` in the middle of a file. */
  lemma PatchInside(a: seq<byte>, w: seq<byte>, c: seq<byte>, word: seq<byte>, limit: nat, r: seq<byte>)
    requires |w| == |word| == |r| == 4
    requires forall i :: 0 <= i < 4 ==> r[i] == if |a| + i < limit then word[i] else w[i]
    ensures PatchBelow(a + w + c, |a|, word, limit) == a + r + c
  {
    var p := PatchBelow(a + w + c, |a|, word, limit);
    forall i | 0 <= i < |p| ensures p[i] == (a + r + c)[i] { }
  }

  function Header(image: seq<byte>, initial: seq<byte>, n: nat): (h: seq<byte>)
    requires |initial| == OUT
    ensures |h| == 4
  {
    [HeaderByte(image, initial, n, 0), HeaderByte(image, initial, n, 1),
     HeaderByte(image, initial, n, 2), HeaderByte(image, initial, n, 3)]
  }

  lemma AddBlockBytes(o: Output, initial: seq<byte>, stream: seq<byte>)
    requires o.Valid() && |initial| == OUT
    ensures AddBlock(o, initial, stream).stored == o.stored + Header(o.image, initial, |stream|) + stream
    ensures AddBlock(o, initial, stream).image == o.image + Reserve(o.image, initial)[|o.image|..] + stream
  {
    hide HeaderBytes, WindowOf, Stale;
    var n, reserved := |o.image|, Reserve(o.image, initial);
    assert reserved[..n] == o.image;
    assert (reserved + stream)[n..] == reserved[n..] + stream;
    ConcatAssoc(o.stored, reserved[n..], stream);
    PatchInside(o.stored, reserved[n..], stream, HeaderBytes(|stream|), WindowOf(n + 4 + |stream|),
                Header(o.image, initial, |stream|));
  }

  /** The bytes of `file` from `pos` on are the blocks `streams`, each behind four header bytes. */
  ghost predicate Holds(file: seq<byte>, pos: nat, streams: seq<seq<byte>>)
    decreases |streams|
  {
    if streams == [] then pos == |file|
    else
      var next := pos + 4 + |streams[0]|;
      next <= |file| && file[pos + 4..next] == streams[0] && Holds(file, next, streams[1..])
  }

  /** Every header carries the byte count of its block. */
  ghost predicate HeadersHold(file: seq<byte>, pos: nat, streams: seq<seq<byte>>)
    decreases |streams|
  {
    streams == [] ||
    (var next := pos + 4 + |streams[0]|;
     next <= |file| && file[pos..pos + 4] == HeaderBytes(|streams[0]|) && HeadersHold(file, next, streams[1..]))
  }

  /** A header survives if each of its bytes was patched in time or has the right stale value. */
  ghost predicate Survives(image: seq<byte>, initial: seq<byte>, n: nat)
    requires |initial| == OUT
  {
    forall i :: 0 <= i < 4 ==>
      |image| + i < WindowOf(|image| + 4 + n) || Stale(image, initial, |image| + i) == HeaderBytes(n)[i]
  }

  ghost predicate AllSurvive(o: Output, initial: seq<byte>, streams: seq<seq<byte>>)
    requires o.Valid() && |initial| == OUT
    decreases |streams|
  {
    streams == [] ||
    (Survives(o.image, initial, |streams[0]|) && AllSurvive(AddBlock(o, initial, streams[0]), initial, streams[1..]))
  }

  lemma SurvivesByte(image: seq<byte>, initial: seq<byte>, n: nat)
    requires |initial| == OUT
    ensures Survives(image, initial, n) <==>
            && HeaderByte(image, initial, n, 0) == HeaderBytes(n)[0]
            && HeaderByte(image, initial, n, 1) == HeaderBytes(n)[1]
            && HeaderByte(image, initial, n, 2) == HeaderBytes(n)[2]
            && HeaderByte(image, initial, n, 3) == HeaderBytes(n)[3]
  {
    hide WindowOf, HeaderBytes, Stale;
    forall i | 0 <= i < 4
      ensures HeaderByte(image, initial, n, i) == HeaderBytes(n)[i] <==>
              |image| + i < WindowOf(|image| + 4 + n) || Stale(image, initial, |image| + i) == HeaderBytes(n)[i]
    {
    }
  }

  lemma HeaderSurvives(o: Output, initial: seq<byte>, stream: seq<byte>)
    requires o.Valid() && |initial| == OUT
    ensures AddBlock(o, initial, stream).stored[|o.stored|..|o.stored| + 4] == HeaderBytes(|stream|)
            <==> Survives(o.image, initial, |stream|)
  {
    AddBlockBytes(o, initial, stream);
    SurvivesByte(o.image, initial, |stream|);
    hide HeaderBytes, AddBlock, HeaderByte, Survives;
    var h, r := HeaderBytes(|stream|), AddBlock(o, initial, stream).stored;
    assert h == [h[0], h[1], h[2], h[3]];
    assert r[|o.stored|..|o.stored| + 4] == Header(o.image, initial, |stream|);
  }

  /** A block and its header, read in a file that continues after them. */
  lemma SlicesOfPrefix(file: seq<byte>, part: seq<byte>, n: nat)
    requires part <= file && n + 4 <= |part|
    ensures file[n..n + 4] == part[n..n + 4] && file[n + 4..|part|] == part[n + 4..]
  {
  }

  lemma AddAllUnfolds(o: Output, initial: seq<byte>, streams: seq<seq<byte>>)
    requires o.Valid() && |initial| == OUT
    ensures AddAll(o, initial, streams) ==
            if streams == [] then o else AddAll(AddBlock(o, initial, streams[0]), initial, streams[1..])
  {
    hide AddBlock;
  }

  /** Whatever happens to the headers, the element streams are in the file, and the headers are right exactly when
      each of them survives the later flush of its window. */
  lemma {:induction false} FileContents(o: Output, initial: seq<byte>, streams: seq<seq<byte>>)
    requires o.Valid() && |initial| == OUT
    ensures Holds(AddAll(o, initial, streams).stored, |o.stored|, streams)
    ensures HeadersHold(AddAll(o, initial, streams).stored, |o.stored|, streams) <==> AllSurvive(o, initial, streams)
    decreases |streams|
  {
    hide AddBlock, HeaderBytes, Survives, AddAll, Header, Reserve;
    AddAllUnfolds(o, initial, streams);
    if streams != [] {
      var o' := AddBlock(o, initial, streams[0]);
      AddBlockBytes(o, initial, streams[0]);
      assert o'.stored[|o.stored| + 4..] == streams[0];
      HeaderSurvives(o, initial, streams[0]);
      FileContents(o', initial, streams[1..]);
      SlicesOfPrefix(AddAll(o, initial, streams).stored, o'.stored, |o.stored|);
    }
  }

  // ---- reading the file back ----

  /** A reader of the container: a little-endian byte count, that many bytes, and so on to the end. */
  function Split(file: seq<byte>): Option<seq<seq<byte>>>
    decreases |file|
  {
    if file == [] then Some([])
    else if |file| < 4 then None
    else
      var n := Read32(file, 0);
      if |file| < 4 + n then None
      else
        match Split(file[4 + n..])
        case Some(streams) => Some([file[4..4 + n]] + streams)
        case None => None
  }

  /** The blocks decoded one by one, each on its own, and joined. */
  function DecodeBlocks(streams: seq<seq<byte>>): Option<seq<byte>>
    decreases |streams|
  {
    if streams == [] then Some([])
    else
      match (Decode([], streams[0]), DecodeBlocks(streams[1..]))
      case (Some(a), Some(b)) => Some(a + b)
      case _ => None
  }

  /** Reading a whole file back. */
  function DecodeFile(file: seq<byte>): Option<seq<byte>> {
    match Split(file)
    case Some(streams) => DecodeBlocks(streams)
    case None => None
  }

  /** For every input whose blocks are 15 to 65551 bytes long, the blocks decode to exactly the input. */
  lemma {:induction false} StreamsDecode(data: seq<byte>, pos: nat, length: nat, blockSize: nat, ctzOfZero: nat)
    requires pos <= length <= |data| && length <= TWO_32 && CanFinish(length - pos, blockSize)
    requires blockSize <= MAX_BLOCK || length - pos <= MAX_BLOCK
    ensures DecodeBlocks(Streams(data, pos, length, blockSize, ctzOfZero)) == Some(data[pos..length])
    decreases length - pos
  {
    hide Decode, Block.Compressed;
    if pos == length {
      assert data[pos..length] == [];
    } else {
      FinishStep(length - pos, blockSize);
      var next := pos + Next(length - pos, blockSize);
      var b := Block(data, pos, next, ctzOfZero);
      BlockRoundTrip(b);
      StreamsDecode(data, next, length, blockSize, ctzOfZero);
      var streams := Streams(data, pos, length, blockSize, ctzOfZero);
      assert streams[0] == b.Compressed() && streams[1..] == Streams(data, next, length, blockSize, ctzOfZero);
      assert data[pos..next] + data[next..length] == data[pos..length];
    }
  }

  lemma SplitFirst(file: seq<byte>, stream: seq<byte>)
    requires |stream| < TWO_32 && 4 + |stream| <= |file| && file[4..4 + |stream|] == stream
    ensures file[..4] == HeaderBytes(|stream|) <==> Read32(file, 0) == |stream|
    ensures Read32(file, 0) == |stream| ==>
              Split(file) == match Split(file[4 + |stream|..])
                             case Some(streams) => Some([stream] + streams)
                             case None => None
  {
    if file[..4] == HeaderBytes(|stream|) { HeaderReads(file, |stream|); }
    if Read32(file, 0) == |stream| { HeaderWritten(file, |stream|); }
  }

  /** A reader finds exactly the blocks that were written if and only if every header is right. */
  lemma {:induction false} SplitsExactly(file: seq<byte>, pos: nat, streams: seq<seq<byte>>)
    requires pos <= |file| && |file| < TWO_32 && Holds(file, pos, streams)
    ensures Split(file[pos..]) == Some(streams) <==> HeadersHold(file, pos, streams)
    decreases |streams|
  {
    hide HeaderBytes;
    if streams == [] {
      assert file[pos..] == [];
    } else {
      var rest, next := file[pos..], pos + 4 + |streams[0]|;
      assert rest[4..4 + |streams[0]|] == streams[0] && rest[..4] == file[pos..pos + 4];
      assert rest[4 + |streams[0]|..] == file[next..];
      SplitFirst(rest, streams[0]);
      SplitsExactly(file, next, streams[1..]);
      SplitCases(rest, streams);
    }
  }

  lemma SplitCases(file: seq<byte>, streams: seq<seq<byte>>)
    requires streams != [] && 4 + |streams[0]| <= |file|
    ensures Split(file) == Some(streams) ==>
              Read32(file, 0) == |streams[0]| && Split(file[4 + |streams[0]|..]) == Some(streams[1..])
    ensures [streams[0]] + streams[1..] == streams
  {
    var n := Read32(file, 0);
    if Split(file) == Some(streams) {
      var more := Split(file[4 + n..]).value;
      assert streams == [file[4..4 + n]] + more;
      assert streams[0] == file[4..4 + n];
    }
  }

  /** Four bytes that read as one word are the same four bytes. */
  lemma SameWords(a: seq<byte>, b: seq<byte>)
    requires |a| == |b| == 4 && Read32(a, 0) == Read32(b, 0)
    ensures a == b
  {
    var both := a + b;
    assert Read32(both, 0) == Read32(a, 0) && Read32(both, 4) == Read32(b, 0);
    WordsAreSlices(both, 0, 4);
    hide Read32;
    assert both[0..4] == a && both[4..8] == b;
  }

  lemma HeaderValue(n: nat)
    requires n < TWO_32
    ensures Read32(HeaderBytes(n), 0) == n
  {
  }

  /** Four bytes that read as one word are the same four bytes. */
  lemma HeaderWritten(file: seq<byte>, n: nat)
    requires 4 <= |file| && n < TWO_32 && Read32(file, 0) == n
    ensures file[..4] == HeaderBytes(n)
  {
    assert Read32(file[..4], 0) == Read32(file, 0);
    HeaderValue(n);
    hide HeaderBytes, Read32;
    SameWords(file[..4], HeaderBytes(n));
  }

  lemma HeaderReads(file: seq<byte>, n: nat)
    requires 4 <= |file| && n < TWO_32 && file[..4] == HeaderBytes(n)
    ensures Read32(file, 0) == n
  {
    var h := HeaderBytes(n);
    assert file[0] == h[0] && file[1] == h[1] && file[2] == h[2] && file[3] == h[3];
    assert Read32(h, 0) == n;
  }

  // ---- sizes of whole files ----

  /** Room enough for the output of `length` input bytes, with the slack the header patch and the last flush touch. */
  function Capacity(length: nat, blockSize: nat): nat {
    length + length / 65 + 6 * Rounds(length, blockSize) + 16
  }

  lemma {:induction false} FileSize(data: seq<byte>, pos: nat, length: nat, blockSize: nat, ctzOfZero: nat)
    requires pos <= length <= |data| && length <= TWO_32 && CanFinish(length - pos, blockSize)
    ensures Sizes(Streams(data, pos, length, blockSize, ctzOfZero)) + 16 <= Capacity(length - pos, blockSize)
    decreases length - pos
  {
    hide Block.Compressed;
    if pos < length {
      FinishStep(length - pos, blockSize);
      var next := pos + Next(length - pos, blockSize);
      var b := Block(data, pos, next, ctzOfZero);
      BlockSize(b);
      var streams := Streams(data, pos, length, blockSize, ctzOfZero);
      assert streams[0] == b.Compressed() && streams[1..] == Streams(data, next, length, blockSize, ctzOfZero);
      FileSize(data, next, length, blockSize, ctzOfZero);
      assert (next - pos) / 65 + (length - next) / 65 <= (length - pos) / 65;
    }
  }

  /** Taking the next block off the front of what is still to be written. */
  lemma NextBlock(o: Output, initial: seq<byte>, data: seq<byte>, pos: nat, length: nat, blockSize: nat, ctzOfZero: nat)
    requires o.Valid() && |initial| == OUT
    requires pos < length <= |data| && length <= TWO_32 && CanFinish(length - pos, blockSize)
    ensures var size := Next(length - pos, blockSize);
            && MARGIN <= size && CanFinish(length - pos - size, blockSize)
            && var stream := Block(data, pos, pos + size, ctzOfZero).Compressed();
               var all := AddAll(o, initial, Streams(data, pos, length, blockSize, ctzOfZero));
               all == AddAll(AddBlock(o, initial, stream), initial,
                             Streams(data, pos + size, length, blockSize, ctzOfZero))
               && |o.image| + 4 + |stream| <= |all.image|
  {
    hide Block.Compressed, AddBlock;
    FinishStep(length - pos, blockSize);
    var size := Next(length - pos, blockSize);
    var stream := Block(data, pos, pos + size, ctzOfZero).Compressed();
    var streams := Streams(data, pos, length, blockSize, ctzOfZero);
    assert streams[0] == stream && streams[1..] == Streams(data, pos + size, length, blockSize, ctzOfZero);
  }

  lemma {:induction false} RoundsBound(remain: nat, blockSize: nat)
    requires CanFinish(remain, blockSize)
    ensures MARGIN * Rounds(remain, blockSize) <= remain
    decreases remain
  {
    if remain > 0 {
      FinishStep(remain, blockSize);
      RoundsBound(remain - Next(remain, blockSize), blockSize);
    }
  }

  // ---- the main results ----

  /** The file that compressing `length` bytes of `data` leaves behind. */
  function FileOf(data: seq<byte>, length: nat, blockSize: nat, ctzOfZero: nat, initial: seq<byte>): (file: seq<byte>)
    requires length <= |data| && length <= TWO_32 && CanFinish(length, blockSize) && |initial| == OUT
    ensures |file| == Sizes(Streams(data, 0, length, blockSize, ctzOfZero))
  {
    AddAll(Output([], []), initial, Streams(data, 0, length, blockSize, ctzOfZero)).stored
  }

  /** Every element stream is in the file and the streams decode to the input; the headers are right, and a reader of
      the file finds those streams, exactly when all headers survive; and then the whole file decodes to the input. */
  lemma FileRoundTrip(data: seq<byte>, length: nat, blockSize: nat, ctzOfZero: nat, initial: seq<byte>)
    requires length <= |data| && length <= 0x400_0000 && CanFinish(length, blockSize) && |initial| == OUT
    requires blockSize <= MAX_BLOCK || length <= MAX_BLOCK
    ensures var streams := Streams(data, 0, length, blockSize, ctzOfZero);
            var file := FileOf(data, length, blockSize, ctzOfZero, initial);
            && Holds(file, 0, streams)
            && DecodeBlocks(streams) == Some(data[..length])
            && (HeadersHold(file, 0, streams) <==> AllSurvive(Output([], []), initial, streams))
            && (Split(file) == Some(streams) <==> AllSurvive(Output([], []), initial, streams))
            && (AllSurvive(Output([], []), initial, streams) ==> DecodeFile(file) == Some(data[..length]))
  {
    hide Split, DecodeBlocks, Streams, AddAll, AllSurvive;
    var streams := Streams(data, 0, length, blockSize, ctzOfZero);
    var file := FileOf(data, length, blockSize, ctzOfZero, initial);
    var o := Output([], []);
    FileContents(o, initial, streams);
    StreamsDecode(data, 0, length, blockSize, ctzOfZero);
    FileSize(data, 0, length, blockSize, ctzOfZero);
    RoundsBound(length, blockSize);
    assert AddAll(o, initial, streams).Valid();
    SplitsExactly(file, 0, streams);
    assert file[0..] == file;
  }

  /** A header byte survives if the block ends in a later 256-byte window than it lies in, or by the luck of a right
      stale byte. So the whole header survives when the block ends in a later window than the header does, and nothing
      of the patch does when the block ends in the window its header begins in. */
  lemma SurvivalByWindows(image: seq<byte>, initial: seq<byte>, n: nat)
    requires |initial| == OUT && n > 0
    ensures Survives(image, initial, n) <==>
            forall i :: 0 <= i < 4 ==>
              (|image| + i) / OUT < (|image| + 3 + n) / OUT || Stale(image, initial, |image| + i) == HeaderBytes(n)[i]
    ensures (|image| + 3) / OUT < (|image| + 3 + n) / OUT ==> Survives(image, initial, n)
    ensures |image| / OUT == (|image| + 3 + n) / OUT ==>
              (Survives(image, initial, n) <==>
               forall i :: 0 <= i < 4 ==> Stale(image, initial, |image| + i) == HeaderBytes(n)[i])
  {
    hide HeaderBytes, Stale;
    var last := |image| + 3 + n;
    assert WindowOf(last + 1) == last / OUT * OUT;
  }

  /** With 15 zeros as input, one literal follows a header of four stale bytes. */
  lemma SmallFile(ctzOfZero: nat)
    ensures var data, initial := seq(15, _ => 0), seq(OUT, _ => 0);
            FileOf(data, 15, 15, ctzOfZero, initial) == [0, 0, 0, 0, 56] + data
  {
    hide HashBits;
    var data: seq<byte>, initial: seq<byte> := seq(15, _ => 0), seq(OUT, _ => 0);
    var b := Block(data, 0, 15, ctzOfZero);
    assert data[0..15] == data;
    assert b.Search(EmptyTable(), 0, 1, 32) == b.Remainder(0);
    var stream := b.Compressed();
    assert stream == [56] + data;
    assert Streams(data, 15, 15, 15, ctzOfZero) == [];
    var streams: seq<seq<byte>> := [stream];
    assert Streams(data, 0, 15, 15, ctzOfZero) == streams;
    var o := Output([], []);
    AddBlockBytes(o, initial, stream);
    var r := AddBlock(o, initial, stream);
    assert streams[1..] == [];
    assert AddAll(o, initial, streams) == r;
    assert WindowOf(20) == 0;
    assert r.stored == r.stored[0..4] + r.stored[4..];
  }

  /** The smallest input, all zeros, with a window that starts out zero: the header of its only block is lost and the
      file cannot be read back. */
  lemma SmallFileUnreadable(ctzOfZero: nat)
    ensures var data, initial := seq(15, _ => 0), seq(OUT, _ => 0);
            DecodeFile(FileOf(data, 15, 15, ctzOfZero, initial)) == None
  {
    hide FileOf;
    var data: seq<byte>, initial: seq<byte> := seq(15, _ => 0), seq(OUT, _ => 0);
    SmallFile(ctzOfZero);
    var file: seq<byte> := [0, 0, 0, 0, 56] + data;
    var rest := file[4..];
    assert Read32(file, 0) == 0 && Read32(rest, 0) == 56;
    assert DecodeFile(rest) == None;
  }
}
