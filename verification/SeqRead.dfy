/** The sequential reader: a 512-byte WRAM cache that slides over MRAM in 256-byte pages. */
module SeqRead {
  import opened Bytes

  const PAGE: nat := 256
  const CACHE_SIZE: nat := 512
  const MRAM_SIZE: nat := 0x400_0000
  const TWO_64: int := 0x1_0000_0000_0000_0000

  /** `__SEQREAD_ALLOC`: a page-aligned cache address from the WRAM heap, whose 16-bit top moves past the cache. */
  function Alloc(heap: nat): (r: (nat, nat))
    requires heap < 0x1_0000
    ensures r.0 % PAGE == 0 && heap <= r.0 < heap + PAGE
    ensures r.0 + CACHE_SIZE <= r.1 <==> (heap + 7) / 8 * 8 - heap + r.0 + CACHE_SIZE < 0x1_0000
    ensures var top := (heap + 7) / 8 * 8 - heap + r.0 + CACHE_SIZE;
            r.1 == if top < 0x1_0000 then top else top - 0x1_0000
  {
    var pointer := (heap + PAGE - 1) / PAGE * PAGE;
    var size := pointer + CACHE_SIZE - heap;
    (pointer, ((heap + 7) / 8 * 8 + size) % 0x1_0000)
  }

  /** Unsigned subtraction of small values: small differences are exact, negative ones wrap to huge values. */
  lemma WrapAround(a: nat, b: nat, modulus: int)
    requires modulus in {TWO_32, TWO_64} && a <= 2 * MRAM_SIZE && b <= 2 * MRAM_SIZE
    ensures (a - b) % modulus == if b <= a then a - b else a - b + modulus
  {
    if b > a { assert (a - b + modulus) % modulus == a - b + modulus; }
  }

  /** The page test of a seek: the wrapped difference fits in a page exactly when the target lies in the cached page. */
  lemma Miss(target: nat, addr: nat)
    requires target <= 2 * MRAM_SIZE && addr <= MRAM_SIZE
    ensures var offset := (target - addr) % TWO_64;
            if addr <= target < addr + PAGE then offset == target - addr && offset / PAGE == 0 else offset / PAGE != 0
  {
    WrapAround(target, addr, TWO_64);
  }

  lemma AlignedSum(base: nat, offset: nat)
    requires base % PAGE == 0 && offset < PAGE
    ensures (base + offset) % PAGE == offset
  {
  }

  /** `seqreader_t` with the cache it fills. `mram` is the memory it reads, which nothing here writes. */
  class SeqReader {
    const mram: seq<byte>
    const cache: array<byte>
    var wramCache: nat
    var mramAddr: nat

    constructor (mram: seq<byte>, cache: array<byte>)
      ensures this.mram == mram && this.cache == cache
    {
      this.mram, this.cache := mram, cache;
      wramCache, mramAddr := 0, 0;
    }

    ghost predicate Shape()
      reads this
    {
      |mram| == MRAM_SIZE && cache.Length == CACHE_SIZE && wramCache % PAGE == 0 && mramAddr % PAGE == 0
    }

    /** The cache holds the two pages of MRAM that start at `mramAddr`. */
    ghost predicate Loaded()
      reads this, cache
    {
      mramAddr + CACHE_SIZE <= |mram| && cache[..] == mram[mramAddr..mramAddr + CACHE_SIZE]
    }

    /** `__SEQREAD_TELL` */
    function Tell(ptr: nat): nat
      reads this
    {
      mramAddr + ptr % PAGE
    }

    /** `__SEQREAD_SEEK`, with the 64-bit wrap-around that makes every target before the cached page a miss. */
    method Seek(target: nat) returns (ptr: nat)
      requires Shape() && (mramAddr <= target < mramAddr + PAGE ==> Loaded())
      requires target / PAGE * PAGE + CACHE_SIZE <= MRAM_SIZE && mramAddr <= MRAM_SIZE
      modifies `mramAddr, cache
      ensures Shape() && Loaded()
      ensures wramCache <= ptr < wramCache + PAGE && Tell(ptr) == target
      ensures old(mramAddr) <= target < old(mramAddr) + PAGE ==> mramAddr == old(mramAddr)
    {
      Miss(target, mramAddr);
      var offset := (target - mramAddr) % TWO_64;
      if offset / PAGE != 0 {
        var page := target / PAGE * PAGE;
        LoadPage(page);
        offset := target % PAGE;
        mramAddr := page;
      }
      ptr := offset + wramCache;
      AlignedSum(wramCache, offset);
    }

    /** `MRAM_READ_PAGE` */
    method LoadPage(page: nat)
      requires cache.Length == CACHE_SIZE && page + CACHE_SIZE <= |mram|
      modifies cache
      ensures cache[..] == mram[page..page + CACHE_SIZE]
    {
      forall i | 0 <= i < CACHE_SIZE { cache[i] := mram[page + i]; }
    }

    /** `__SEQREAD_INIT`: starting past the end of MRAM makes the first seek load the cache. */
    method Init(cacheAddr: nat, target: nat) returns (ptr: nat)
      requires |mram| == MRAM_SIZE && cache.Length == CACHE_SIZE && cacheAddr % PAGE == 0
      requires target / PAGE * PAGE + CACHE_SIZE <= MRAM_SIZE
      modifies this, cache
      ensures Shape() && Loaded() && wramCache == cacheAddr
      ensures wramCache <= ptr < wramCache + PAGE && Tell(ptr) == target
    {
      wramCache := cacheAddr;
      mramAddr := MRAM_SIZE;
      ptr := Seek(target);
    }
  }

  /** `in_buffer_context`: the input buffer at MRAM address `buffer`, read through the cache from `curr` on. */
  class InBuffer {
    const sr: SeqReader
    const buffer: nat
    var ptr: nat
    var curr: nat
    var length: nat

    /** The bytes of MRAM from the start of the input buffer. */
    ghost function Data(): seq<byte>
      requires buffer <= |sr.mram|
    {
      sr.mram[buffer..]
    }

    /** The cache pointer stands for the current position, and the cache and all direct reads stay inside MRAM. */
    ghost predicate Valid()
      reads this, sr, sr.cache
    {
      && sr.Shape() && sr.Loaded()
      && sr.wramCache <= ptr < sr.wramCache + PAGE
      && sr.Tell(ptr) == buffer + curr
      && curr <= length && buffer + length + CACHE_SIZE <= MRAM_SIZE
    }

    /** The set-up of `snappy_compress_main`: reader on the start of the buffer, nothing consumed. */
    constructor (mram: seq<byte>, cache: array<byte>, cacheAddr: nat, buffer: nat, length: nat)
      requires |mram| == MRAM_SIZE && cache.Length == CACHE_SIZE && cacheAddr % PAGE == 0
      requires buffer + length + CACHE_SIZE <= MRAM_SIZE
      modifies cache
      ensures Valid() && fresh(this) && fresh(sr) && sr.cache == cache && sr.mram == mram
      ensures this.buffer == buffer && curr == 0 && this.length == length
    {
      sr := new SeqReader(mram, cache);
      this.buffer, this.curr, this.length := buffer, 0, length;
      ptr := 0;
      new;
      ptr := sr.Init(cacheAddr, buffer);
    }

    /** `advance_seqread` */
    method Advance(len: nat)
      requires Valid() && curr + len <= length
      modifies this`ptr, this`curr, sr`mramAddr, sr.cache
      ensures Valid() && curr == old(curr) + len
    {
      var at := sr.Tell(ptr);
      ptr := sr.Seek(at + len);
      curr := curr + len;
    }

    /** The cached bytes from the current position, which lie inside the cache for at least 256 bytes. */
    lemma CachedByte(i: nat)
      requires Valid() && i < PAGE
      ensures ptr - sr.wramCache + i < CACHE_SIZE
      ensures curr + i < |Data()| && sr.cache[ptr - sr.wramCache + i] == Data()[curr + i]
    {
      var j := ptr - sr.wramCache + i;
      assert sr.cache[j] == sr.cache[..][j];
    }

    /** The `n` bytes at the cache pointer, the source of the copy loop's `memcpy`. */
    method Window(n: nat) returns (bytes: seq<byte>)
      requires Valid() && n <= PAGE && curr + n <= length
      ensures bytes == Data()[curr..curr + n]
    {
      var at := ptr - sr.wramCache;
      bytes := sr.cache[at..at + n];
      forall i | 0 <= i < n ensures bytes[i] == Data()[curr + i] {
        CachedByte(i);
      }
    }

    /** `read_uint32`: from the cache when the word lies in its first 252 bytes ahead, otherwise 16 aligned bytes of
        MRAM. */
    method ReadUint32(offset: nat) returns (v: int)
      requires Valid() && offset <= length
      ensures v == Read32(Data(), offset)
    {
      WrapAround(offset, curr, TWO_32);
      var ahead := (offset - curr) % TWO_32;
      if ahead < PAGE - 4 {
        assert offset == curr + ahead;
        var at := ptr - sr.wramCache + ahead;
        CachedByte(ahead);
        CachedByte(ahead + 1);
        CachedByte(ahead + 2);
        CachedByte(ahead + 3);
        v := Combine(sr.cache[at], sr.cache[at + 1], sr.cache[at + 2], sr.cache[at + 3]);
      } else {
        var aligned := offset / 8 * 8;
        var read := sr.mram[buffer + aligned..buffer + aligned + 16];
        var at := offset % 8;
        v := Combine(read[at], read[at + 1], read[at + 2], read[at + 3]);
      }
    }

    /** `read_two_uint32`: the words at `offset` and `offset + 1` from 24 aligned bytes of MRAM. */
    method ReadTwoUint32(offset: nat) returns (v0: int, v1: int)
      requires Valid() && offset <= length
      ensures v0 == Read32(Data(), offset) && v1 == Read32(Data(), offset + 1)
    {
      var aligned := offset / 8 * 8;
      var read := sr.mram[buffer + aligned..buffer + aligned + 24];
      var at := offset % 8;
      v0 := Combine(read[at], read[at + 1], read[at + 2], read[at + 3]);
      v1 := Combine(read[at + 1], read[at + 2], read[at + 3], read[at + 4]);
    }
  }

  function Combine(b0: byte, b1: byte, b2: byte, b3: byte): (v: int)
  {
    b0 + 0x100 * b1 + 0x1_0000 * b2 + 0x100_0000 * b3
  }
}
