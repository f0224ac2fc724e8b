/** The output side: a 256-byte append window that is written to MRAM lazily. */
module AppendWindow {
  import opened Bytes

  /** `OUT_BUFFER_LENGTH` */
  const OUT: nat := 256

  /** The byte a reserved position `k` gets: nothing writes it, so the window still holds the byte from 256 positions
      earlier, or what the window's memory held at the start. */
  function Stale(image: seq<byte>, initial: seq<byte>, k: nat): byte
    requires |initial| == OUT && k < |image| + OUT
  {
    if k >= OUT then image[k - OUT] else initial[k]
  }

  /** Skipping four bytes for a header. */
  function Reserve(image: seq<byte>, initial: seq<byte>): (r: seq<byte>)
    requires |initial| == OUT
    ensures |r| == |image| + 4 && image <= r
    ensures forall k :: |image| <= k < |r| ==> r[k] == Stale(image, initial, k)
  {
    var n := |image|;
    image + [Stale(image, initial, n), Stale(image, initial, n + 1),
             Stale(image, initial, n + 2), Stale(image, initial, n + 3)]
  }

  /** The window that is open once `n` bytes have been appended: full windows stay open until the next byte. */
  function WindowOf(n: nat): (w: nat)
    ensures w % OUT == 0 && w <= n <= w + OUT && (n > 0 ==> w < n)
  {
    if n == 0 then 0 else (n - 1) / OUT * OUT
  }

  lemma WindowIsUnique(n: nat, w: nat)
    requires w % OUT == 0 && w <= n <= w + OUT && (n > 0 ==> w < n)
    ensures w == WindowOf(n)
  {
  }

  /** Overwriting the four bytes at `offset`, except those at or above `limit`. */
  function PatchBelow(stored: seq<byte>, offset: nat, word: seq<byte>, limit: nat): (r: seq<byte>)
    requires |word| == 4
    ensures |r| == |stored|
    ensures forall i :: 0 <= i < |r| ==>
              r[i] == if offset <= i < offset + 4 && i < limit then word[i - offset] else stored[i]
  {
    seq(|stored|, i requires 0 <= i < |stored| =>
      if offset <= i < offset + 4 && i < limit then word[i - offset] else stored[i])
  }

  /** The byte that index `j` of the window at `w` holds once `image` has been appended. */
  function Resident(image: seq<byte>, initial: seq<byte>, w: nat, j: nat): byte
    requires |initial| == OUT && w <= |image| && j < OUT
  {
    if w + j < |image| then image[w + j] else if w >= OUT then image[w + j - OUT] else initial[j]
  }

  /** The window's memory agrees with the image, also where a reservation runs into the next window. */
  ghost predicate InStep(append: seq<byte>, image: seq<byte>, initial: seq<byte>, w: nat)
    requires |append| == OUT == |initial| && w <= |image|
  {
    && (forall j :: 0 <= j < OUT ==> append[j] == Resident(image, initial, w, j))
    && (forall k :: w + OUT <= k < |image| ==> image[k] == image[k - OUT])
  }

  /** The stale bytes of a reservation are what the window's memory holds at their place. */
  lemma ReservedBytes(append: seq<byte>, image: seq<byte>, initial: seq<byte>, w: nat)
    requires |append| == OUT == |initial| && w == WindowOf(|image|) && InStep(append, image, initial, w)
    ensures InStep(append, Reserve(image, initial), initial, w)
  {
    hide Reserve, WindowOf;
  }

  /** Copying a chunk into the open window keeps it in step. */
  lemma PutBytes(append: seq<byte>, append': seq<byte>, image: seq<byte>, initial: seq<byte>, w: nat, chunk: seq<byte>)
    requires |append| == |append'| == OUT == |initial| && w <= |image| && |image| + |chunk| <= w + OUT
    requires InStep(append, image, initial, w)
    requires forall j :: 0 <= j < OUT ==>
               append'[j] == if |image| - w <= j < |image| - w + |chunk| then chunk[j - (|image| - w)] else append[j]
    ensures InStep(append', image + chunk, initial, w)
  {
  }

  /** The last write covers the open window and stays within eight bytes of its end. */
  lemma FinalSize(w: nat, length: nat, final: nat)
    requires w == WindowOf(length) && w < length
    requires final == if length % OUT == 0 then OUT else (length % OUT + 7) / 8 * 8
    ensures length - w <= final <= OUT && w + final <= length + 7
  {
  }

  lemma TakeMore(before: seq<byte>, arr: seq<byte>, done: nat, n: nat)
    requires done + n <= |arr|
    ensures before + arr[..done] + arr[done..][..n] == before + arr[..done + n]
  {
    assert arr[..done] + arr[done..][..n] == arr[..done + n];
  }

  /** `out_buffer_context`. `buffer` is MRAM from the start of the output buffer on. */
  class OutBuffer {
    const buffer: array<byte>
    const append: array<byte>
    var appendWindow: nat
    var curr: nat
    var length: nat

    /** Every byte appended so far, reserved positions included, as the window presents it. */
    ghost var image: seq<byte>
    /** What the append window's memory held at the start. */
    ghost const initial: seq<byte>

    ghost predicate Valid()
      reads this, buffer, append
    {
      && append.Length == OUT && |initial| == OUT && buffer != append
      && appendWindow % OUT == 0 && appendWindow <= curr <= appendWindow + OUT + 4 && appendWindow <= buffer.Length
      && |image| == curr
      && InStep(append[..], image, initial, appendWindow)
    }

    /** No reservation is pending beyond the open window. */
    ghost predicate Settled()
      reads this
    {
      appendWindow == WindowOf(curr)
    }

    /** The logical contents of the output buffer: what MRAM holds below the window, then the window itself. */
    ghost function Stored(): (s: seq<byte>)
      requires appendWindow <= |image| && appendWindow <= buffer.Length
      reads this, buffer
      ensures |s| == |image|
    {
      buffer[..appendWindow] + image[appendWindow..]
    }

    /** The set-up of `snappy_compress_main`: an empty buffer and a window of unspecified bytes. */
    constructor (buffer: array<byte>, append: array<byte>)
      requires append.Length == OUT && buffer != append
      ensures Valid() && Settled() && this.buffer == buffer && this.append == append && initial == append[..]
      ensures curr == 0 && image == [] && Stored() == []
    {
      this.buffer, this.append := buffer, append;
      appendWindow, curr, length := 0, 0, 0;
      image, initial := [], append[..];
    }

    /** Skipping the four bytes of the header moves only `curr`. */
    method ReserveHeader()
      requires Valid() && Settled()
      modifies this`curr, this`image
      ensures Valid() && curr == old(curr) + 4 && appendWindow == old(appendWindow)
      ensures image == Reserve(old(image), initial)
      ensures Stored() == old(Stored()) + image[old(curr)..]
    {
      hide Stale, WindowOf, Reserve, InStep;
      ghost var was, all := image, Reserve(image, initial);
      ReservedBytes(append[..], was, initial, appendWindow);
      assert was + all[|was|..] == all;
      curr := curr + 4;
      image := all;
    }

    /** Writing the full window to MRAM and opening the next one. */
    method FlushWindow()
      requires Valid() && appendWindow + OUT <= curr && appendWindow + OUT <= buffer.Length
      modifies this`appendWindow, buffer
      ensures Valid() && appendWindow == old(appendWindow) + OUT
      ensures Stored() == old(Stored())
    {
      assert append[..] == image[appendWindow..appendWindow + OUT];
      hide InStep;
      forall i | 0 <= i < OUT { buffer[appendWindow + i] := append[i]; }
      appendWindow := appendWindow + OUT;
      assert buffer[..appendWindow] == old(buffer[..appendWindow]) + image[old(appendWindow)..appendWindow];
    }

    /** `memcpy` into the open window. */
    method Put(chunk: seq<byte>)
      requires Valid() && curr + |chunk| <= appendWindow + OUT
      modifies this`curr, this`image, append
      ensures Valid() && curr == old(curr) + |chunk| && appendWindow == old(appendWindow)
      ensures image == old(image) + chunk && Stored() == old(Stored()) + chunk
    {
      hide InStep;
      var index := curr - appendWindow;
      forall i | 0 <= i < |chunk| { append[index + i] := chunk[i]; }
      PutBytes(old(append[..]), append[..], image, initial, appendWindow, chunk);
      curr := curr + |chunk|;
      image := image + chunk;
    }

    /** The head of both append loops: a full window is flushed before more bytes come. */
    method MakeRoom() returns (index: nat)
      requires Valid() && (appendWindow + OUT <= curr ==> appendWindow + OUT <= buffer.Length)
      modifies this`appendWindow, buffer
      ensures Valid() && index == curr - appendWindow < OUT && Stored() == old(Stored())
    {
      hide InStep;
      index := curr - appendWindow;
      if index >= OUT {
        FlushWindow();
        index := index - OUT;
      }
    }

    /** One turn of the loop: as much of `rest` as the open window takes. */
    method WriteSome(rest: seq<byte>) returns (n: nat)
      requires Valid() && rest != [] && curr + |rest| <= buffer.Length
      modifies this`appendWindow, this`curr, this`image, buffer, append
      ensures Valid() && 0 < n <= |rest| && curr == old(curr) + n && Settled()
      ensures image == old(image) + rest[..n] && Stored() == old(Stored()) + rest[..n]
    {
      hide InStep, Stored;
      var index := MakeRoom();
      n := if OUT - index < |rest| then OUT - index else |rest|;
      Put(rest[..n]);
      WindowIsUnique(curr, appendWindow);
    }

    /** `write_output_buffer` */
    method Write(arr: seq<byte>)
      requires Valid() && curr + |arr| <= buffer.Length
      modifies this`appendWindow, this`curr, this`image, buffer, append
      ensures Valid() && curr == old(curr) + |arr|
      ensures arr != [] ==> Settled()
      ensures image == old(image) + arr && Stored() == old(Stored()) + arr
    {
      hide InStep, Stored, WindowOf;
      var done := 0;
      while done < |arr|
        invariant Valid() && done <= |arr| && curr == old(curr) + done
        invariant image == old(image) + arr[..done] && Stored() == old(Stored()) + arr[..done]
        invariant done > 0 ==> Settled()
      {
        var n := WriteSome(arr[done..]);
        TakeMore(old(image), arr, done, n);
        TakeMore(old(Stored()), arr, done, n);
        done := done + n;
      }
      assert arr[..|arr|] == arr;
    }

    /** Read 16 aligned bytes of MRAM, replace four, write them back. */
    method PatchMram(offset: nat, value: nat)
      requires value < TWO_32 && offset / 8 * 8 + 16 <= buffer.Length
      modifies buffer
      ensures forall i :: 0 <= i < buffer.Length ==>
                buffer[i] == if offset <= i < offset + 4 then LittleEndian32(value)[i - offset] else old(buffer[i])
    {
      var aligned, at := offset / 8 * 8, offset % 8;
      var read := buffer[aligned..aligned + 16];
      ghost var word := LittleEndian32(value);
      read := read[at := value % 0x100][at + 1 := value / 0x100 % 0x100];
      read := read[at + 2 := value / 0x1_0000 % 0x100][at + 3 := value / 0x100_0000 % 0x100];
      assert forall k :: 0 <= k < 4 ==> read[at + k] == word[k];
      forall i | 0 <= i < 16 { buffer[aligned + i] := read[i]; }
    }

    /** `write_compressed_length`: only MRAM changes, so only bytes below the open window are kept. */
    method WriteCompressedLength(offset: nat, value: nat)
      requires Valid() && value < TWO_32 && offset / 8 * 8 + 16 <= buffer.Length
      modifies buffer
      ensures Valid()
      ensures Stored() == PatchBelow(old(Stored()), offset, LittleEndian32(value), appendWindow)
    {
      hide LittleEndian32, InStep;
      PatchMram(offset, value);
    }

    /** The end of `dpu_compress`: the open window, up to a multiple of eight bytes, goes to MRAM. */
    method Finish()
      requires Valid() && Settled() && curr + 7 <= buffer.Length
      modifies this`length, buffer
      ensures length == curr && buffer[..length] == old(Stored())
    {
      ghost var stored := Stored();
      assert forall i :: appendWindow <= i < curr ==> append[i - appendWindow] == stored[i];
      hide InStep, Stored;
      length := curr;
      if appendWindow < length {
        var final := (length % OUT + 7) / 8 * 8;
        if final == 0 { final := OUT; }
        FinalSize(appendWindow, length, final);
        forall i | 0 <= i < final { buffer[appendWindow + i] := append[i]; }
      }
      assert forall i :: 0 <= i < length ==> buffer[i] == stored[i];
    }
  }
}
