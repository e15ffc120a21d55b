/**
 * What `FindPattern` looks at and what it reports.
 *
 * The module region [base, base + size) is read in non-overlapping chunks of
 * 0x100000 bytes (the last one shorter). Within the chunk at `offset`, a start
 * position i is examined only when i + N < readSize, N being the number of
 * compiled tokens; the first examined position (chunks in address order,
 * positions in increasing order) at which every token is the wildcard -1 or
 * equal to the chunk's byte is reported as base + offset + i.
 */
module Matcher {
  import opened Wrappers
  import opened Machine
  import opened ProcessMemory

  /** `chunkSize`: 1 MiB. */
  const ChunkSize: nat := 0x100000

  /** A contiguous module image: `moduleBase` and `moduleSize`. */
  datatype Region = Region(base: nat, size: nat)

  /** `readSize = min(chunkSize, moduleSize - offset)`. */
  function ChunkLength(size: nat, offset: nat): (len: nat)
    requires offset < size
    ensures 0 < len <= ChunkSize && offset + len <= size
    ensures len == ChunkSize || offset + len == size
  {
    if ChunkSize <= size - offset then ChunkSize else size - offset
  }

  /**
   * The loop bound `chunk.size() - patternBytes.size()` where it does not wrap;
   * when the chunk is shorter than the pattern no position is examined
   * (see InnerBoundAsWritten for the bound as the source computes it).
   */
  function InnerBound(len: nat, n: nat): (b: nat)
    // position i < b is exactly position i with i + n < len
    ensures b == 0 || b + n <= len
    ensures b + n >= len
  {
    if n <= len then len - n else 0
  }

  /**
   * The source's bound: a `size_t` subtraction, which wraps modulo 2^W when the
   * chunk is shorter than the pattern.
   */
  function InnerBoundAsWritten(arch: Arch, len: nat, n: nat): (b: nat)
    ensures b < Modulus(arch)
    ensures n <= len < Modulus(arch) ==> b == len - n
    ensures len < n <= len + Modulus(arch) ==> b == Modulus(arch) - (n - len)
  {
    Wrap(arch, len - n)
  }

  /** Where the chunk is at least as long as the pattern the two bounds agree. */
  lemma InnerBoundAgrees(arch: Arch, len: nat, n: nat)
    requires n <= len < Modulus(arch)
    ensures InnerBoundAsWritten(arch, len, n) == InnerBound(len, n)
  {
  }

  /**
   * A final chunk of 5 bytes and a pattern of 10 tokens: the source's bound
   * wraps past the chunk's end, so its inner loop reads `chunk[5 + 0]` of a
   * 5-byte vector (undefined behaviour); the corrected bound examines nothing.
   */
  lemma InnerBoundWrapsOnShortChunk(arch: Arch)
    ensures InnerBoundAsWritten(arch, 5, 10) > 5
    ensures InnerBound(5, 10) == 0
  {
    ModulusIsPointerRange(arch);
  }

  /** In general: a chunk shorter than the pattern makes the source's bound overrun the chunk. */
  lemma InnerBoundAsWrittenOverruns(arch: Arch, len: nat, n: nat)
    requires len < n < Modulus(arch)
    ensures InnerBoundAsWritten(arch, len, n) > len
    ensures InnerBound(len, n) == 0
  {
    assert InnerBoundAsWritten(arch, len, n) == Modulus(arch) - (n - len);
  }

  /** Does the compiled pattern match `buf` at position i? -1 matches any byte. */
  predicate MatchesAt(pat: seq<int>, buf: seq<Byte>, i: nat)
    requires i + |pat| <= |buf|
    ensures MatchesAt(pat, buf, i) ==> forall j :: 0 <= j < |pat| ==> -1 <= pat[j] < 256
  {
    forall j :: 0 <= j < |pat| ==> pat[j] == -1 || buf[i + j] == pat[j]
  }

  /** A token outside -1 .. 255 equals no byte, so a pattern holding one never matches. */
  lemma WideTokenNeverMatches(pat: seq<int>, buf: seq<Byte>, i: nat, j: nat)
    requires i + |pat| <= |buf| && j < |pat|
    requires pat[j] != -1 && !(0 <= pat[j] < 256)
    ensures !MatchesAt(pat, buf, i)
  {
    assert buf[i + j] != pat[j];
  }

  /** The buffer `ReadBytes(moduleBase + offset, readSize)` hands back for one chunk. */
  function ChunkAt(mem: Memory, region: Region, offset: nat): (chunk: seq<Byte>)
    requires offset < region.size
    ensures |chunk| == ChunkLength(region.size, offset)
  {
    ReadMemory(mem, region.base + offset, ChunkLength(region.size, offset))
  }

  /** The start of the chunk that holds module offset p. */
  function ChunkStart(p: nat): (offset: nat)
    ensures offset % ChunkSize == 0 && offset <= p < offset + ChunkSize
  {
    p - p % ChunkSize
  }

  /** Is module offset p a position the scan examines for a pattern of n tokens? */
  predicate Examined(size: nat, n: nat, p: nat)
    // the window of n tokens at p ends strictly inside p's chunk
    ensures Examined(size, n, p) <==> p < size && p % ChunkSize + n < ChunkLength(size, ChunkStart(p))
  {
    p < size && p % ChunkSize < InnerBound(ChunkLength(size, ChunkStart(p)), n)
  }

  /** Is module offset p an examined position at which the pattern matches its chunk? */
  predicate HitAt(mem: Memory, region: Region, pat: seq<int>, p: nat)
    ensures HitAt(mem, region, pat, p) ==>
      p < region.size && p % ChunkSize + |pat| < ChunkLength(region.size, ChunkStart(p)) &&
      forall j :: 0 <= j < |pat| ==> -1 <= pat[j] < 256
  {
    Examined(region.size, |pat|, p) &&
    MatchesAt(pat, ChunkAt(mem, region, ChunkStart(p)), p % ChunkSize)
  }

  /** The chunks partition the region: every offset below the size lies in exactly one. */
  lemma ChunkPartition(size: nat, p: nat, offset: nat)
    requires p < size && offset % ChunkSize == 0 && offset < size
    ensures ChunkStart(p) < size && p < ChunkStart(p) + ChunkLength(size, ChunkStart(p))
    ensures offset <= p < offset + ChunkLength(size, offset) <==> offset == ChunkStart(p)
  {
  }

  /** Offset i of the chunk at `offset` is module offset offset + i. */
  lemma HitInChunk(mem: Memory, region: Region, pat: seq<int>, offset: nat, i: nat)
    requires offset % ChunkSize == 0 && offset < region.size && i < ChunkSize
    ensures ChunkStart(offset + i) == offset && (offset + i) % ChunkSize == i
    ensures HitAt(mem, region, pat, offset + i) <==>
      i < InnerBound(ChunkLength(region.size, offset), |pat|) &&
      MatchesAt(pat, ChunkAt(mem, region, offset), i)
  {
  }

  /**
   * A scan of the chunk at `offset` that found no match before position i,
   * after the chunks before it had no hit, leaves no hit below module offset
   * offset + i; once i reaches the inner bound, none below the next chunk.
   */
  lemma ChunkScanned(mem: Memory, region: Region, pat: seq<int>, offset: nat, i: nat)
    requires offset % ChunkSize == 0 && offset < region.size
    requires forall q :: 0 <= q < offset ==> !HitAt(mem, region, pat, q)
    requires i <= InnerBound(ChunkLength(region.size, offset), |pat|)
    requires forall j :: 0 <= j < i ==> !MatchesAt(pat, ChunkAt(mem, region, offset), j)
    ensures forall q :: 0 <= q < offset + i ==> !HitAt(mem, region, pat, q)
    ensures i == InnerBound(ChunkLength(region.size, offset), |pat|) ==>
      forall q :: 0 <= q < offset + ChunkSize ==> !HitAt(mem, region, pat, q)
  {
    forall q | offset <= q < offset + ChunkSize
      ensures q < offset + i || i == InnerBound(ChunkLength(region.size, offset), |pat|) ==>
        !HitAt(mem, region, pat, q)
    {
      if q < region.size {
        HitInChunk(mem, region, pat, offset, q - offset);
      }
    }
  }

  /**
   * The first match the scan of the chunk at `offset` finds, after no hit in
   * the chunks before it, is what `FindPattern` reports.
   */
  lemma FirstMatchInChunk(mem: Memory, region: Region, pat: seq<int>, offset: nat, i: nat)
    requires offset % ChunkSize == 0 && offset < region.size
    requires forall q :: 0 <= q < offset ==> !HitAt(mem, region, pat, q)
    requires i < InnerBound(ChunkLength(region.size, offset), |pat|)
    requires MatchesAt(pat, ChunkAt(mem, region, offset), i)
    requires forall j :: 0 <= j < i ==> !MatchesAt(pat, ChunkAt(mem, region, offset), j)
    ensures offset + i < region.size
    ensures FindResult(mem, region, pat) == region.base + offset + i
  {
    ChunkScanned(mem, region, pat, offset, i);
    HitInChunk(mem, region, pat, offset, i);
    FindResultOfFirstHit(mem, region, pat, offset + i);
  }

  /** The first hit at module offset p or later, in increasing order. */
  function FirstHitFrom(mem: Memory, region: Region, pat: seq<int>, p: nat): (r: Option<nat>)
    ensures r.Some? ==> p <= r.value < region.size && HitAt(mem, region, pat, r.value)
    ensures r.Some? ==> forall q :: p <= q < r.value ==> !HitAt(mem, region, pat, q)
    ensures r.None? ==> forall q :: p <= q ==> !HitAt(mem, region, pat, q)
    decreases region.size - p
  {
    if p >= region.size then None
    else if HitAt(mem, region, pat, p) then Some(p)
    else FirstHitFrom(mem, region, pat, p + 1)
  }

  /** What `FindPattern` returns for a compiled pattern: the first hit's address, or 0. */
  function FindResult(mem: Memory, region: Region, pat: seq<int>): (r: nat)
    ensures r != 0 ==> region.base <= r < region.base + region.size && HitAt(mem, region, pat, r - region.base)
    ensures (forall q :: 0 <= q < region.size ==> !HitAt(mem, region, pat, q)) ==> r == 0
  {
    match FirstHitFrom(mem, region, pat, 0)
    case None => 0
    case Some(p) => region.base + p
  }

  /** The first hit determines the result. */
  lemma FindResultOfFirstHit(mem: Memory, region: Region, pat: seq<int>, p: nat)
    requires HitAt(mem, region, pat, p)
    requires forall q :: 0 <= q < p ==> !HitAt(mem, region, pat, q)
    ensures FindResult(mem, region, pat) == region.base + p
  {
  }

  /** Without any hit the result is 0. */
  lemma FindResultOfNoHit(mem: Memory, region: Region, pat: seq<int>)
    requires forall q :: 0 <= q < region.size ==> !HitAt(mem, region, pat, q)
    ensures FindResult(mem, region, pat) == 0
  {
  }

  /**
   * The result names an examined matching position and no examined position
   * before it matches; 0 is returned exactly when nothing matches (given a
   * module that does not start at address 0), and a non-zero result lies in
   * the region.
   */
  lemma FindResultIsFirstHit(mem: Memory, region: Region, pat: seq<int>)
    requires 0 < region.base
    ensures FindResult(mem, region, pat) == 0 <==> forall q :: !HitAt(mem, region, pat, q)
    ensures FindResult(mem, region, pat) != 0 ==>
      var p := FindResult(mem, region, pat) - region.base;
      region.base <= FindResult(mem, region, pat) < region.base + region.size &&
      HitAt(mem, region, pat, p) &&
      forall q :: 0 <= q < p ==> !HitAt(mem, region, pat, q)
  {
    var r := FirstHitFrom(mem, region, pat, 0);
    if r.Some? {
      assert HitAt(mem, region, pat, r.value);
    }
  }

  /**
   * A reported hit matches memory itself when its chunk was readable: every
   * token is -1 or the byte at base + p + j.
   */
  lemma HitMatchesMemory(mem: Memory, region: Region, pat: seq<int>, p: nat, j: nat)
    requires HitAt(mem, region, pat, p) && j < |pat|
    requires Readable(mem, region.base + ChunkStart(p), ChunkLength(region.size, ChunkStart(p)))
    ensures region.base + p + j in mem.cells
    ensures pat[j] == -1 || pat[j] == mem.cells[region.base + p + j]
  {
    var offset := ChunkStart(p);
    var i := p % ChunkSize;
    assert i + j < ChunkLength(region.size, offset);
    assert ChunkAt(mem, region, offset)[i + j] == mem.cells[region.base + offset + (i + j)];
  }

  /**
   * A chunk that could not be read fully matches as zeros: a pattern made of
   * wildcards and 0x00 tokens hits at every examined position of such a chunk.
   */
  lemma UnreadableChunkMatchesZeros(mem: Memory, region: Region, pat: seq<int>, p: nat)
    requires Examined(region.size, |pat|, p)
    requires !Readable(mem, region.base + ChunkStart(p), ChunkLength(region.size, ChunkStart(p)))
    requires forall j :: 0 <= j < |pat| ==> pat[j] == -1 || pat[j] == 0
    ensures HitAt(mem, region, pat, p)
  {
    var offset := ChunkStart(p);
    var chunk := ChunkAt(mem, region, offset);
    assert forall k :: 0 <= k < |chunk| ==> chunk[k] == 0;
  }

  /**
   * No window that reaches the end of its chunk is examined: a match that
   * straddles a chunk boundary, or ends exactly at a chunk's end, is never
   * reported.
   */
  lemma NoHitReachingChunkEnd(mem: Memory, region: Region, pat: seq<int>, p: nat)
    requires p < region.size
    requires p % ChunkSize + |pat| >= ChunkLength(region.size, ChunkStart(p))
    ensures !HitAt(mem, region, pat, p)
  {
  }
}
