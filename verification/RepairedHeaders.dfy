/** The compressor with its header patch repaired: the byte count also goes into the open append window. Every header is
    then right, and every file reads back. */
module RepairedHeaders {
  import opened Bytes
  import opened AppendWindow
  import opened BlockTheorems
  import opened FileSpec

  /** Overwriting the four bytes at `offset`, except those below `from`. */
  function PatchFrom(image: seq<byte>, offset: nat, word: seq<byte>, from: nat): (r: seq<byte>)
    requires |word| == 4
    ensures |r| == |image|
    ensures forall i :: 0 <= i < |r| ==>
              r[i] == if offset <= i < offset + 4 && from <= i then word[i - offset] else image[i]
  {
    seq(|image|, i requires 0 <= i < |image| =>
      if offset <= i < offset + 4 && from <= i then word[i - offset] else image[i])
  }

  /** `AddBlock` with both patches: MRAM below the open window, and the window's memory. */
  function AddPatched(o: Output, initial: seq<byte>, stream: seq<byte>): (r: Output)
    requires o.Valid() && |initial| == OUT
    ensures r.Valid() && |r.image| == |o.image| + 4 + |stream|
  {
    var n, image, header := |o.image|, Reserve(o.image, initial) + stream, HeaderBytes(|stream|);
    var open, stored := WindowOf(|image|), o.stored + image[n..];
    Output(PatchFrom(image, n, header, open), PatchFrom(PatchBelow(stored, n, header, open), n, header, open))
  }

  function AddAllPatched(o: Output, initial: seq<byte>, streams: seq<seq<byte>>): (r: Output)
    requires o.Valid() && |initial| == OUT
    ensures r.Valid() && |r.image| == |o.image| + Sizes(streams)
    decreases |streams|
  {
    if streams == [] then o else AddAllPatched(AddPatched(o, initial, streams[0]), initial, streams[1..])
  }

  /** However the block lies over the windows, its header is right. */
  lemma AddPatchedBytes(o: Output, initial: seq<byte>, stream: seq<byte>)
    requires o.Valid() && |initial| == OUT
    ensures AddPatched(o, initial, stream).stored == o.stored + HeaderBytes(|stream|) + stream
  {
    hide HeaderBytes, WindowOf, Stale;
    var r, whole := AddPatched(o, initial, stream).stored, o.stored + HeaderBytes(|stream|) + stream;
    forall i | 0 <= i < |r| ensures r[i] == whole[i] { }
  }

  lemma {:induction false} PatchedContents(o: Output, initial: seq<byte>, streams: seq<seq<byte>>)
    requires o.Valid() && |initial| == OUT
    ensures var file := AddAllPatched(o, initial, streams).stored;
            o.stored <= file && Holds(file, |o.stored|, streams) && HeadersHold(file, |o.stored|, streams)
    decreases |streams|
  {
    hide AddPatched, HeaderBytes;
    if streams != [] {
      var o' := AddPatched(o, initial, streams[0]);
      AddPatchedBytes(o, initial, streams[0]);
      PatchedContents(o', initial, streams[1..]);
      assert o'.stored[|o.stored|..|o.stored| + 4] == HeaderBytes(|streams[0]|);
      assert o'.stored[|o.stored| + 4..] == streams[0];
      SlicesOfPrefix(AddAllPatched(o, initial, streams).stored, o'.stored, |o.stored|);
    }
  }

  /** The file that the repaired compressor leaves behind. */
  function PatchedFileOf(data: seq<byte>, length: nat, blockSize: nat, ctzOfZero: nat, initial: seq<byte>):
    (file: seq<byte>)
    requires length <= |data| && length <= TWO_32 && CanFinish(length, blockSize) && |initial| == OUT
    ensures |file| == Sizes(Streams(data, 0, length, blockSize, ctzOfZero))
  {
    AddAllPatched(Output([], []), initial, Streams(data, 0, length, blockSize, ctzOfZero)).stored
  }

  /** With the repair, every file whose blocks are 15 to 65551 bytes long decodes to exactly the input, whatever the
      append window held at the start. */
  lemma RepairedRoundTrip(data: seq<byte>, length: nat, blockSize: nat, ctzOfZero: nat, initial: seq<byte>)
    requires length <= |data| && length <= 0x400_0000 && CanFinish(length, blockSize) && |initial| == OUT
    requires blockSize <= MAX_BLOCK || length <= MAX_BLOCK
    ensures DecodeFile(PatchedFileOf(data, length, blockSize, ctzOfZero, initial)) == Some(data[..length])
  {
    hide Split, DecodeBlocks, Streams, AddAll, AddAllPatched;
    var streams, file := Streams(data, 0, length, blockSize, ctzOfZero),
                         PatchedFileOf(data, length, blockSize, ctzOfZero, initial);
    var o := Output([], []);
    PatchedContents(o, initial, streams);
    StreamsDecode(data, 0, length, blockSize, ctzOfZero);
    FileSize(data, 0, length, blockSize, ctzOfZero);
    RoundsBound(length, blockSize);
    assert AddAllPatched(o, initial, streams).Valid();
    SplitsExactly(file, 0, streams);
    assert file[0..] == file;
  }
}
