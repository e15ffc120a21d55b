/**
 * The scanner object: its session state (the opened process, standing for
 * `hProcess`, and the selected module's base and size) and the operations of
 * the scanning engine, each proved against the specification functions of
 * the other modules.
 */
module Scanner {
  import opened Wrappers
  import opened Machine
  import opened ProcessMemory
  import opened Patterns
  import opened Matcher
  import opened Resolver
  import opened Targets

  /** The address `FindPattern` returns for a pattern text. */
  function FoundAt(mem: Memory, region: Region, pattern: string): nat
  {
    FindResult(mem, region, Compile(pattern))
  }

  /** The `FindPattern` result of each pattern of a list, in list order. */
  function FoundAll(mem: Memory, region: Region, patterns: seq<string>): (hits: seq<nat>)
    ensures |hits| == |patterns|
  {
    seq(|patterns|, m requires 0 <= m < |patterns| => FoundAt(mem, region, patterns[m]))
  }

  /** The index of the first non-zero entry at or after `from`. */
  function FirstNonZero(hits: seq<nat>, from: nat): (r: Option<nat>)
    ensures r.Some? ==> from <= r.value < |hits| && hits[r.value] != 0
    ensures r.Some? ==> forall m :: from <= m < r.value ==> hits[m] == 0
    ensures r.None? ==> forall m :: from <= m < |hits| ==> hits[m] == 0
    decreases |hits| - from
  {
    if from >= |hits| then None
    else if hits[from] != 0 then Some(from)
    else FirstNonZero(hits, from + 1)
  }

  /** The first non-zero entry is found from the start. */
  lemma FirstNonZeroIs(hits: seq<nat>, k: nat)
    requires k < |hits| && hits[k] != 0
    requires forall m :: 0 <= m < k ==> hits[m] == 0
    ensures FirstNonZero(hits, 0) == Some(k)
  {
  }

  /**
   * What a Scan function returns for its list: the resolution of the first
   * pattern with a non-zero `FindPattern` result, or 0 when none hits.
   */
  function FirstResolved(mem: Memory, arch: Arch, region: Region, target: Target, patterns: seq<string>): (r: nat)
    ensures r < Modulus(arch)
  {
    var hits := FoundAll(mem, region, patterns);
    match FirstNonZero(hits, 0)
    case None => 0
    case Some(k) => Resolve(mem, arch, EncodingFor(target, patterns[k]), hits[k])
  }

  /**
   * The first pattern that hits alone decides the result, even when it
   * resolves to 0: later patterns are not tried.
   */
  lemma FirstHitDecides(mem: Memory, arch: Arch, region: Region, target: Target,
                        patterns: seq<string>, k: nat)
    requires k < |patterns| && FoundAt(mem, region, patterns[k]) != 0
    requires forall m :: 0 <= m < k ==> FoundAt(mem, region, patterns[m]) == 0
    ensures FirstResolved(mem, arch, region, target, patterns) ==
            Resolve(mem, arch, EncodingFor(target, patterns[k]), FoundAt(mem, region, patterns[k]))
  {
    var hits := FoundAll(mem, region, patterns);
    assert forall m :: 0 <= m < k ==> hits[m] == 0;
    FirstNonZeroIs(hits, k);
  }

  /** When no pattern hits, the Scan function returns 0. */
  lemma NoHitGivesZero(mem: Memory, arch: Arch, region: Region, target: Target, patterns: seq<string>)
    requires forall m :: 0 <= m < |patterns| ==> FoundAt(mem, region, patterns[m]) == 0
    ensures FirstResolved(mem, arch, region, target, patterns) == 0
  {
    var hits := FoundAll(mem, region, patterns);
    assert forall m :: 0 <= m < |hits| ==> hits[m] == 0;
  }

  /** The innermost loop of `FindPattern`: every token is -1 or the chunk's byte. */
  method MatchesChunkAt(patternBytes: seq<int>, chunk: seq<Byte>, i: nat) returns (found: bool)
    requires i + |patternBytes| <= |chunk|
    ensures found <==> MatchesAt(patternBytes, chunk, i)
  {
    found := true;
    var j := 0;
    while j < |patternBytes|
      invariant j <= |patternBytes|
      invariant forall k :: 0 <= k < j ==> patternBytes[k] == -1 || chunk[i + k] == patternBytes[k]
    {
      if patternBytes[j] != -1 && chunk[i + j] != patternBytes[j] {
        found := false;
        break;
      }
      j := j + 1;
    }
  }

  /**
   * The loop of `FindPattern` over one chunk: the first position below the
   * inner bound at which the pattern matches, if any.
   */
  method ScanChunk(patternBytes: seq<int>, chunk: seq<Byte>) returns (hit: Option<nat>)
    ensures hit.Some? ==> hit.value < InnerBound(|chunk|, |patternBytes|) &&
                          MatchesAt(patternBytes, chunk, hit.value)
    ensures hit.Some? ==> forall j :: 0 <= j < hit.value ==> !MatchesAt(patternBytes, chunk, j)
    ensures hit.None? ==>
      forall j :: 0 <= j < InnerBound(|chunk|, |patternBytes|) ==> !MatchesAt(patternBytes, chunk, j)
  {
    var bound := InnerBound(|chunk|, |patternBytes|);
    var i := 0;
    while i < bound
      invariant i <= bound
      invariant forall j :: 0 <= j < i ==> !MatchesAt(patternBytes, chunk, j)
    {
      var found := MatchesChunkAt(patternBytes, chunk, i);
      if found {
        return Some(i);
      }
      i := i + 1;
    }
    return None;
  }

  /** Sequence concatenation is associative (used to re-bracket the loop invariant of `PatternToBytes`). */
  lemma ConcatAssoc<T>(a: seq<T>, b: seq<T>, c: seq<T>)
    ensures (a + b) + c == a + (b + c)
  {
  }

  class GModOffsetScanner {
    var process: Memory
    const arch: Arch
    var moduleBase: nat
    var moduleSize: nat

    /**
     * The session invariant: the process's readable bytes and the module lie
     * inside the 2^W address space, and stepping the chunk offset past the
     * module's end does not wrap `size_t`.
     */
    ghost predicate Valid()
      reads this
    {
      InAddressSpace(process, arch) &&
      moduleBase + moduleSize <= Modulus(arch) &&
      moduleSize + ChunkSize <= Modulus(arch)
    }

    function ModuleRegion(): Region
      reads this
    {
      Region(moduleBase, moduleSize)
    }

    /** No process opened yet (every read fails) and no module selected. */
    constructor (arch: Arch)
      ensures this.arch == arch && process == Memory(map[])
      ensures moduleBase == 0 && moduleSize == 0
      ensures Valid()
    {
      this.arch := arch;
      process := Memory(map[]);
      moduleBase, moduleSize := 0, 0;
    }

    /** The successful outcome of `AttachToProcess`: the handle now reads `target`. */
    method AttachToProcess(target: Memory)
      requires Valid() && InAddressSpace(target, arch)
      modifies this
      ensures Valid() && process == target
      ensures moduleBase == old(moduleBase) && moduleSize == old(moduleSize)
    {
      process := target;
    }

    /** The successful outcome of `GetModuleInfo`: the found module's base and size are stored. */
    method SetModule(base: nat, size: nat)
      requires Valid()
      requires base + size <= Modulus(arch) && size + ChunkSize <= Modulus(arch)
      modifies this
      ensures Valid() && moduleBase == base && moduleSize == size
      ensures process == old(process)
    {
      moduleBase, moduleSize := base, size;
    }

    /** `ReadBytes`: a buffer of exactly `size` bytes; what was not transferred stays 0. */
    method ReadBytes(address: nat, size: nat) returns (buffer: seq<Byte>)
      ensures buffer == ReadMemory(process, address, size)
      ensures |buffer| == size
      ensures !Readable(process, address, size) ==> forall k :: 0 <= k < size ==> buffer[k] == 0
    {
      buffer := ReadMemory(process, address, size);
    }

    /** `Read<int32_t>`: the little-endian `int32_t` at the address, 0 when the read fails. */
    method ReadInt32(address: nat) returns (value: int)
      ensures value == LoadInt32(process, address)
      ensures -0x8000_0000 <= value < 0x8000_0000
      ensures !Readable(process, address, 4) ==> value == 0
    {
      var bytes := ReadBytes(address, 4);
      assert Pow256(4) == Int32Range by { assert Pow256(2) == 0x1_0000; }
      value := ToInt32(DecodeLE(bytes));
      if !Readable(process, address, 4) {
        DecodeZeros(bytes);
      }
    }

    /** `Read<uintptr_t>`: the little-endian pointer-width value at the address, 0 when the read fails. */
    method ReadPointer(address: nat) returns (value: nat)
      ensures value == LoadUnsigned(process, address, PtrBytes(arch))
      ensures value < Modulus(arch)
      ensures !Readable(process, address, PtrBytes(arch)) ==> value == 0
    {
      var bytes := ReadBytes(address, PtrBytes(arch));
      ModulusIsPointerRange(arch);
      value := DecodeLE(bytes);
    }

    /** `PatternToBytes`: the cursor walk over the pattern text. */
    method PatternToBytes(pattern: string) returns (bytes: seq<int>)
      ensures bytes == Compile(pattern)
      ensures |bytes| <= |pattern|
    {
      bytes := [];
      var current := 0;
      while current < |pattern|
        invariant current <= |pattern| + 1
        invariant bytes + CompileFrom(pattern, current) == Compile(pattern)
        decreases |pattern| - current
      {
        ghost var start, before := current, bytes;
        if pattern[current] == '?' {
          current := current + 1;
          if current < |pattern| && pattern[current] == '?' {
            current := current + 1;
          }
          bytes := bytes + [-1];
        } else {
          var (value, end) := StrToUl(pattern, current);
          bytes := bytes + [ToInt32(value)];
          current := end;
        }
        current := current + 1;
        assert bytes == before + [StepValue(pattern, start)] && current == NextCursor(pattern, start);
        assert CompileFrom(pattern, start) == [StepValue(pattern, start)] + CompileFrom(pattern, current);
        ConcatAssoc(before, [StepValue(pattern, start)], CompileFrom(pattern, current));
      }
    }

    /**
     * `FindPattern`: scan the module chunk by chunk and return the address of
     * the first examined position where the pattern matches, or 0. The sums
     * `moduleBase + offset + i` and `offset += chunkSize` are taken in
     * `uintptr_t` and `size_t`; the session invariant is what keeps them
     * from wrapping.
     */
    method FindPattern(pattern: string) returns (address: nat)
      requires Valid()
      ensures address == FoundAt(process, ModuleRegion(), pattern)
      ensures address != 0 ==> moduleBase <= address < moduleBase + moduleSize
      ensures address < Modulus(arch)
    {
      var patternBytes := PatternToBytes(pattern);
      var n := |patternBytes|;
      ghost var region := ModuleRegion();
      var offset := 0;
      while offset < moduleSize
        invariant offset % ChunkSize == 0
        invariant forall q :: 0 <= q < offset ==> !HitAt(process, region, patternBytes, q)
        decreases moduleSize - offset
      {
        var readSize := if ChunkSize <= moduleSize - offset then ChunkSize else moduleSize - offset;
        var chunk := ReadBytes(Wrap(arch, moduleBase + offset), readSize);
        assert chunk == ChunkAt(process, region, offset);
        var hit := ScanChunk(patternBytes, chunk);
        if hit.Some? {
          FirstMatchInChunk(process, region, patternBytes, offset, hit.value);
          address := Wrap(arch, moduleBase + offset + hit.value);
          return;
        }
        ChunkScanned(process, region, patternBytes, offset, InnerBound(|chunk|, n));
        offset := Wrap(arch, offset + ChunkSize);
      }
      address := 0;
      FindResultOfNoHit(process, region, patternBytes);
    }

    /** The resolution step of the Scan functions for one matched site. */
    method ResolveSite(enc: Encoding, site: nat) returns (address: nat)
      ensures address == Resolve(process, arch, enc, site)
    {
      match enc
      case RipRelative(dispAt, anchor) =>
        var offset := ReadInt32(Wrap(arch, site + dispAt));
        address := Wrap(arch, site + anchor + offset);
      case AbsoluteLiteral(at) =>
        address := ReadPointer(Wrap(arch, site + at));
    }

    /** The loop the three Scan functions share: patterns in list order, first hit wins. */
    method ScanTarget(target: Target, patterns: seq<string>) returns (address: nat)
      requires Valid()
      ensures address == FirstResolved(process, arch, ModuleRegion(), target, patterns)
    {
      ghost var region := ModuleRegion();
      var k := 0;
      while k < |patterns|
        invariant k <= |patterns|
        invariant forall m :: 0 <= m < k ==> FoundAt(process, region, patterns[m]) == 0
      {
        var pattern := patterns[k];
        var result := FindPattern(pattern);
        if result != 0 {
          address := ResolveSite(EncodingFor(target, pattern), result);
          FirstHitDecides(process, arch, region, target, patterns, k);
          return;
        }
        assert FoundAt(process, region, pattern) == 0;
        k := k + 1;
      }
      address := 0;
      NoHitGivesZero(process, arch, region, target, patterns);
    }

    method ScanGModEntityList() returns (address: nat)
      requires Valid()
      ensures address == FirstResolved(process, arch, ModuleRegion(), EntityList, EntityListPatterns)
    {
      address := ScanTarget(EntityList, EntityListPatterns);
    }

    method ScanGModLocalPlayer() returns (address: nat)
      requires Valid()
      ensures address == FirstResolved(process, arch, ModuleRegion(), LocalPlayer, LocalPlayerPatterns)
    {
      address := ScanTarget(LocalPlayer, LocalPlayerPatterns);
    }

    method ScanGModViewMatrix() returns (address: nat)
      requires Valid()
      ensures address == FirstResolved(process, arch, ModuleRegion(), ViewMatrix, ViewMatrixPatterns)
    {
      address := ScanTarget(ViewMatrix, ViewMatrixPatterns);
    }
  }
}
