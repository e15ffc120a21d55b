/**
 * The three things the scanner looks for, the signatures it tries for each
 * (in the order it tries them), and how it decides which encoding a matched
 * signature uses.
 */
module Targets {
  import opened Wrappers
  import opened Machine
  import opened ProcessMemory
  import opened Resolver
  import Patterns

  datatype Target = EntityList | LocalPlayer | ViewMatrix

  const EntityListPatterns: seq<string> := [
    "8B 0D ? ? ? ? 8B 01 FF 50 ? 85 C0",
    "A1 ? ? ? ? 8B 14 B8 85 D2",
    "8B 15 ? ? ? ? 33 C9 83 FA FF",
    "8B 0D ? ? ? ? 8B 14 81",
    "48 8B 0D ? ? ? ? 48 85 C9 74 ? 48 8B 01",
    "4C 8B 05 ? ? ? ? 4D 85 C0"
  ]

  const LocalPlayerPatterns: seq<string> := [
    "8B 0D ? ? ? ? 83 F9 FF 74 ? 8B 01",
    "A1 ? ? ? ? 83 F8 FF 74 ? 8B 08",
    "8B 15 ? ? ? ? 85 D2 74 ? 8B 02",
    "48 8B 0D ? ? ? ? 48 85 C9 74 ? E8",
    "48 8B 05 ? ? ? ? 48 85 C0 74 ? 48 8B 08"
  ]

  const ViewMatrixPatterns: seq<string> := [
    "F3 0F 10 05 ? ? ? ? F3 0F 11 45",
    "0F 10 05 ? ? ? ? 0F 11 45",
    "F3 0F 10 0D ? ? ? ? F3 0F 59 0D",
    "0F 10 05 ? ? ? ? 8D 85 ? ? ? ? B9",
    "F3 0F 10 05 ? ? ? ? F3 0F 11 85"
  ]

  predicate StartsWith(s: string, prefix: string)
  {
    |prefix| <= |s| && s[..|prefix|] == prefix
  }

  /**
   * The `is64bit` test on the pattern text: `find("48") == 0 || find("4C") == 0`
   * for the entity list, only `find("48") == 0` for the local player. The view
   * matrix has no test.
   */
  predicate Is64BitPattern(target: Target, pattern: string)
    ensures Is64BitPattern(target, pattern) <==>
      (target == EntityList && (StartsWith(pattern, "48") || StartsWith(pattern, "4C"))) ||
      (target == LocalPlayer && StartsWith(pattern, "48"))
  {
    FindZeroIsPrefix(pattern, "48");
    FindZeroIsPrefix(pattern, "4C");
    match target
    case EntityList => Find(pattern, "48") == Some(0) || Find(pattern, "4C") == Some(0)
    case LocalPlayer => Find(pattern, "48") == Some(0)
    case ViewMatrix => false
  }

  /**
   * How a matched pattern is resolved: x64 references at site + 7 +
   * int32 @ site + 3, x86 ones as the pointer at site + 2, and the view matrix
   * always at site + 8 + int32 @ site + 4.
   */
  function EncodingFor(target: Target, pattern: string): (enc: Encoding)
    ensures target == ViewMatrix ==> enc == RipRelative(4, 8)
    ensures target == EntityList ==>
      enc == (if StartsWith(pattern, "48") || StartsWith(pattern, "4C") then RipRelative(3, 7) else AbsoluteLiteral(2))
    ensures target == LocalPlayer ==>
      enc == (if StartsWith(pattern, "48") then RipRelative(3, 7) else AbsoluteLiteral(2))
  {
    match target
    case ViewMatrix => RipRelative(4, 8)
    case _ => if Is64BitPattern(target, pattern) then RipRelative(3, 7) else AbsoluteLiteral(2)
  }

  /**
   * In the scanner's own lists, the first four entity-list signatures and the
   * first three local-player signatures are resolved as x86 absolute
   * pointers, the remaining ones as x64 relative references.
   */
  lemma ListEncodings()
    ensures forall k :: 0 <= k < |EntityListPatterns| ==>
      EncodingFor(EntityList, EntityListPatterns[k]) == if k < 4 then AbsoluteLiteral(2) else RipRelative(3, 7)
    ensures forall k :: 0 <= k < |LocalPlayerPatterns| ==>
      EncodingFor(LocalPlayer, LocalPlayerPatterns[k]) == if k < 3 then AbsoluteLiteral(2) else RipRelative(3, 7)
  {
    forall k | 0 <= k < |EntityListPatterns|
      ensures EncodingFor(EntityList, EntityListPatterns[k]) == if k < 4 then AbsoluteLiteral(2) else RipRelative(3, 7)
    {
      var p := EntityListPatterns[k];
      if k == 0 { assert p[0] == '8' && p[1] == 'B' && p[..2] == [p[0], p[1]]; }
      else if k == 1 { assert p[0] == 'A' && p[1] == '1' && p[..2] == [p[0], p[1]]; }
      else if k == 2 { assert p[0] == '8' && p[1] == 'B' && p[..2] == [p[0], p[1]]; }
      else if k == 3 { assert p[0] == '8' && p[1] == 'B' && p[..2] == [p[0], p[1]]; }
      else if k == 4 { assert p[0] == '4' && p[1] == '8' && p[..2] == [p[0], p[1]]; }
      else { assert p[0] == '4' && p[1] == 'C' && p[..2] == [p[0], p[1]]; }
    }
    forall k | 0 <= k < |LocalPlayerPatterns|
      ensures EncodingFor(LocalPlayer, LocalPlayerPatterns[k]) == if k < 3 then AbsoluteLiteral(2) else RipRelative(3, 7)
    {
      var p := LocalPlayerPatterns[k];
      if k == 0 { assert p[0] == '8' && p[1] == 'B' && p[..2] == [p[0], p[1]]; }
      else if k == 1 { assert p[0] == 'A' && p[1] == '1' && p[..2] == [p[0], p[1]]; }
      else if k == 2 { assert p[0] == '8' && p[1] == 'B' && p[..2] == [p[0], p[1]]; }
      else { assert p[0] == '4' && p[1] == '8' && p[..2] == [p[0], p[1]]; }
    }
  }

  /** The last token of a signature is a hex byte, not a wildcard. */
  predicate EndsInByteToken(pattern: string)
  {
    |pattern| >= 2 && Patterns.IsHexDigit(pattern[|pattern| - 2]) && Patterns.IsHexDigit(pattern[|pattern| - 1])
  }

  /**
   * Every signature of the three lists ends in a byte token, so at every
   * position the scan examines the last comparison reads a chunk byte.
   */
  lemma SignaturesEndInByteToken()
    ensures forall k :: 0 <= k < |EntityListPatterns| ==> EndsInByteToken(EntityListPatterns[k])
    ensures forall k :: 0 <= k < |LocalPlayerPatterns| ==> EndsInByteToken(LocalPlayerPatterns[k])
    ensures forall k :: 0 <= k < |ViewMatrixPatterns| ==> EndsInByteToken(ViewMatrixPatterns[k])
  {
    forall k | 0 <= k < |EntityListPatterns| ensures EndsInByteToken(EntityListPatterns[k]) {
      if k == 0 {} else if k == 1 {} else if k == 2 {} else if k == 3 {} else if k == 4 {} else {}
    }
    forall k | 0 <= k < |LocalPlayerPatterns| ensures EndsInByteToken(LocalPlayerPatterns[k]) {
      if k == 0 {} else if k == 1 {} else if k == 2 {} else if k == 3 {} else {}
    }
    forall k | 0 <= k < |ViewMatrixPatterns| ensures EndsInByteToken(ViewMatrixPatterns[k]) {
      if k == 0 {} else if k == 1 {} else if k == 2 {} else if k == 3 {} else {}
    }
  }

  /** A match site for the example below. */
  const SampleSite: nat := 0x40_1000

  /** Memory holding the bytes A1 78 56 34 12 8B at SampleSite. */
  function MovEaxSample(): Memory
  {
    Memory(map[SampleSite := 0xA1, SampleSite + 1 := 0x78, SampleSite + 2 := 0x56,
               SampleSite + 3 := 0x34, SampleSite + 4 := 0x12, SampleSite + 5 := 0x8B])
  }

  lemma MovEaxSampleReads()
    ensures ReadMemory(MovEaxSample(), SampleSite + 2, 4) == [0x56, 0x34, 0x12, 0x8B]
    ensures ReadMemory(MovEaxSample(), SampleSite + 1, 4) == [0x78, 0x56, 0x34, 0x12]
  {
    var mem := MovEaxSample();
    forall a | SampleSite + 1 <= a < SampleSite + 6 ensures a in mem.cells {
      if a == SampleSite + 1 {} else if a == SampleSite + 2 {} else if a == SampleSite + 3 {}
      else if a == SampleSite + 4 {} else {}
    }
    assert Readable(mem, SampleSite + 2, 4) && Readable(mem, SampleSite + 1, 4);
  }

  lemma MovEaxSampleValues()
    ensures DecodeLE([0x56, 0x34, 0x12, 0x8B]) == 0x8B12_3456
    ensures DecodeLE([0x78, 0x56, 0x34, 0x12]) == 0x1234_5678
  {
    assert DecodeLE([0x8B]) == 0x8B;
    assert DecodeLE([0x12, 0x8B]) == 0x8B12;
    assert DecodeLE([0x34, 0x12, 0x8B]) == 0x8B_1234;
    assert DecodeLE([0x12]) == 0x12;
    assert DecodeLE([0x34, 0x12]) == 0x1234;
    assert DecodeLE([0x56, 0x34, 0x12]) == 0x12_3456;
  }

  /**
   * The second entity-list signature is `A1 <moffs32>` (`mov eax, [addr]`),
   * whose address operand starts one byte after the opcode. The scanner reads
   * the pointer at site + 2 instead. With the bytes A1 78 56 34 12 8B at the
   * site, an x86 scanner resolves 0x8B123456, not the operand 0x12345678.
   */
  lemma MovEaxOperandReadOneByteLate()
    ensures Resolve(MovEaxSample(), X86, EncodingFor(EntityList, EntityListPatterns[1]), SampleSite) == 0x8B12_3456
    ensures DecodeLE(ReadMemory(MovEaxSample(), SampleSite + 1, 4)) == 0x1234_5678
  {
    var p := EntityListPatterns[1];
    assert p[0] == 'A' && p[1] == '1' && p[..2] == [p[0], p[1]];
    assert EncodingFor(EntityList, p) == AbsoluteLiteral(2);
    MovEaxSampleReads();
    MovEaxSampleValues();
    assert Readable(MovEaxSample(), SampleSite + 2, 4);
    ResolveAbsolute(MovEaxSample(), X86, 2, SampleSite);
  }

  // ---------------------------------------------------------------------
  // The encodings the signatures' own instructions call for
  // ---------------------------------------------------------------------

  /** `8B 0D` or `8B 15`: a mov from memory whose ModRM byte has mod 00, r/m 101. */
  predicate IsMovFromMemory(pattern: string)
  {
    StartsWith(pattern, "8B 0D") || StartsWith(pattern, "8B 15")
  }

  /**
   * The operand of the instruction a signature matches, decoded for the
   * build. ModRM 05/0D/15 (mod 00, r/m 101) is an absolute disp32 in 32-bit
   * code and [rip + disp32] in 64-bit code (Intel SDM Vol. 2, section 2.2.1.6).
   * - `A1` (mov eax, moffs): the address follows the opcode, at +1.
   * - `8B 0D`, `8B 15` (mov ecx/edx, [..]): the address at +2 on x86; on x64
   *   the displacement at +2, the instruction ending at +6.
   * - View matrix, `F3 0F 10 ..` (movss): the address at +4 on x86; on x64
   *   the displacement at +4, the instruction ending at +8.
   * - View matrix, `0F 10 05` (movups): the same one byte earlier, at +3 and +7.
   * The REX-prefixed signatures (`48`, `4C`) keep the encoding `EncodingFor`
   * gives them; they only describe 64-bit code.
   * The decoding assumes the scanned code has the build's width: 32-bit code
   * scanned by the x64 build is not described here.
   */
  function IntendedEncodingFor(arch: Arch, target: Target, pattern: string): (enc: Encoding)
    ensures Is64BitPattern(target, pattern) ==> enc == EncodingFor(target, pattern)
  {
    match target
    case ViewMatrix =>
      var at := if StartsWith(pattern, "0F 10 05") then 3 else 4;
      if arch == X86 then AbsoluteLiteral(at) else RipRelative(at, at + 4)
    case _ =>
      if StartsWith(pattern, "A1") then AbsoluteLiteral(1)
      else if arch == X64 && IsMovFromMemory(pattern) then RipRelative(2, 6)
      else EncodingFor(target, pattern)
  }

  /** The two prefix tests on a signature, character by character. */
  lemma MovPrefixChars(p: string)
    requires |p| >= 5
    ensures StartsWith(p, "A1") <==> p[0] == 'A' && p[1] == '1'
    ensures IsMovFromMemory(p) <==>
      p[0] == '8' && p[1] == 'B' && p[2] == ' ' && ((p[3] == '0' && p[4] == 'D') || (p[3] == '1' && p[4] == '5'))
  {
    assert p[..2] == [p[0], p[1]];
    assert p[..5] == [p[0], p[1], p[2], p[3], p[4]];
  }

  /** The entity-list signatures that start with `A1` and with `8B 0D`/`8B 15`. */
  lemma EntityListPrefixes()
    ensures forall k :: 0 <= k < |EntityListPatterns| ==> (StartsWith(EntityListPatterns[k], "A1") <==> k == 1)
    ensures forall k :: 0 <= k < |EntityListPatterns| ==> (IsMovFromMemory(EntityListPatterns[k]) <==> k == 0 || k == 2 || k == 3)
  {
    forall k | 0 <= k < |EntityListPatterns|
      ensures StartsWith(EntityListPatterns[k], "A1") <==> k == 1
      ensures IsMovFromMemory(EntityListPatterns[k]) <==> k == 0 || k == 2 || k == 3
    {
      MovPrefixChars(EntityListPatterns[k]);
    }
  }

  /** The local-player signatures that start with `A1` and with `8B 0D`/`8B 15`. */
  lemma LocalPlayerPrefixes()
    ensures forall k :: 0 <= k < |LocalPlayerPatterns| ==> (StartsWith(LocalPlayerPatterns[k], "A1") <==> k == 1)
    ensures forall k :: 0 <= k < |LocalPlayerPatterns| ==> (IsMovFromMemory(LocalPlayerPatterns[k]) <==> k == 0 || k == 2)
  {
    forall k | 0 <= k < |LocalPlayerPatterns|
      ensures StartsWith(LocalPlayerPatterns[k], "A1") <==> k == 1
      ensures IsMovFromMemory(LocalPlayerPatterns[k]) <==> k == 0 || k == 2
    {
      MovPrefixChars(LocalPlayerPatterns[k]);
    }
  }

  /** The `0F 10 05` test on a signature, character by character. */
  lemma MovupsPrefixChars(p: string)
    requires |p| >= 8
    ensures StartsWith(p, "0F 10 05") <==>
      p[0] == '0' && p[1] == 'F' && p[2] == ' ' && p[3] == '1' && p[4] == '0' && p[5] == ' ' && p[6] == '0' && p[7] == '5'
  {
    assert p[..8] == [p[0], p[1], p[2], p[3], p[4], p[5], p[6], p[7]];
  }

  /** The view-matrix signatures that start with `0F 10 05` (movups without the `F3` prefix). */
  lemma ViewMatrixPrefixes()
    ensures forall k :: 0 <= k < |ViewMatrixPatterns| ==>
      (StartsWith(ViewMatrixPatterns[k], "0F 10 05") <==> k == 1 || k == 3)
  {
    forall k | 0 <= k < |ViewMatrixPatterns|
      ensures StartsWith(ViewMatrixPatterns[k], "0F 10 05") <==> k == 1 || k == 3
    {
      MovupsPrefixChars(ViewMatrixPatterns[k]);
    }
  }

  /**
   * Build by build, where in the scanner's lists the encoding used differs
   * from the one the instruction calls for. On x86: the `A1` signatures
   * (entity list 2, local player 2) and every view-matrix signature. On x64:
   * the `A1` and `8B 0D`/`8B 15` signatures (entity list 1-4, local player
   * 1-3) and the `0F 10 05` view-matrix signatures (2 and 4).
   */
  lemma IntendedEncodingsDiffer(arch: Arch)
    ensures forall k :: 0 <= k < |EntityListPatterns| ==>
      (IntendedEncodingFor(arch, EntityList, EntityListPatterns[k]) != EncodingFor(EntityList, EntityListPatterns[k]) <==>
       if arch == X86 then k == 1 else k < 4)
    ensures forall k :: 0 <= k < |LocalPlayerPatterns| ==>
      (IntendedEncodingFor(arch, LocalPlayer, LocalPlayerPatterns[k]) != EncodingFor(LocalPlayer, LocalPlayerPatterns[k]) <==>
       if arch == X86 then k == 1 else k < 3)
    ensures forall k :: 0 <= k < |ViewMatrixPatterns| ==>
      (IntendedEncodingFor(arch, ViewMatrix, ViewMatrixPatterns[k]) != EncodingFor(ViewMatrix, ViewMatrixPatterns[k]) <==>
       arch == X86 || k == 1 || k == 3)
  {
    ListEncodings();
    EntityListPrefixes();
    LocalPlayerPrefixes();
    ViewMatrixPrefixes();
  }

  /**
   * Over the bytes of `mov eax, [addr]` at the site, the intended encoding of
   * an `A1` signature resolves to addr itself on the x86 build.
   */
  lemma MovEaxOperandResolved(mem: Memory, target: Target, pattern: string, site: nat, addr: nat)
    requires target != ViewMatrix && StartsWith(pattern, "A1")
    requires site + 5 <= Modulus(X86) && addr < Modulus(X86)
    requires ReadMemory(mem, site, 5) == [0xA1] + EncodeLE(addr, 4)
    ensures Resolve(mem, X86, IntendedEncodingFor(X86, target, pattern), site) == addr
  {
    assert IntendedEncodingFor(X86, target, pattern) == AbsoluteLiteral(1);
    ResolveAbsoluteAfterOpcode(mem, [0xA1], site, addr);
  }


  /**
   * Over the bytes of `movups xmm0, [rip + disp32]` that reach `dest`, the
   * intended encoding of a `0F 10 05` signature resolves to dest on the x64
   * build.
   */
  lemma MovupsDisplacementResolved(mem: Memory, pattern: string, site: nat, dest: nat)
    requires StartsWith(pattern, "0F 10 05")
    requires site + 7 <= Modulus(X64) && dest < Modulus(X64)
    requires -0x8000_0000 <= dest - (site + 7) < 0x8000_0000
    requires ReadMemory(mem, site, 7) == [0x0F, 0x10, 0x05] + DisplacementBytes(site, 7, dest)
    ensures Resolve(mem, X64, IntendedEncodingFor(X64, ViewMatrix, pattern), site) == dest
  {
    assert IntendedEncodingFor(X64, ViewMatrix, pattern) == RipRelative(3, 7);
    ResolveRelativeAfterOpcode(mem, X64, [0x0F, 0x10, 0x05], site, dest);
  }


  /**
   * Over the bytes of `movss`/`movups xmm, [addr]` at the site (four opcode
   * bytes F3 0F 10 and a ModRM of 05 or 0D, or the three bytes 0F 10 05),
   * the intended encoding of a view-matrix signature resolves to addr itself
   * on the x86 build.
   */
  lemma ViewMatrixAbsoluteResolved(mem: Memory, pattern: string, opcode: seq<Byte>, site: nat, addr: nat)
    requires StartsWith(pattern, "0F 10 05") ==> opcode == [0x0F, 0x10, 0x05]
    requires !StartsWith(pattern, "0F 10 05") ==>
      |opcode| == 4 && opcode[..3] == [0xF3, 0x0F, 0x10] && (opcode[3] == 0x05 || opcode[3] == 0x0D)
    requires site + |opcode| + 4 <= Modulus(X86) && addr < Modulus(X86)
    requires ReadMemory(mem, site, |opcode| + 4) == opcode + EncodeLE(addr, 4)
    ensures Resolve(mem, X86, IntendedEncodingFor(X86, ViewMatrix, pattern), site) == addr
  {
    assert IntendedEncodingFor(X86, ViewMatrix, pattern) == AbsoluteLiteral(|opcode|);
    ResolveAbsoluteAfterOpcode(mem, opcode, site, addr);
  }


  /**
   * Over the bytes of `mov ecx/edx, [rip + disp32]` that reach `dest`, the
   * intended encoding of an `8B 0D`/`8B 15` signature resolves to dest on
   * the x64 build.
   */
  lemma MovRipRelativeResolved(mem: Memory, target: Target, pattern: string, modrm: Byte, site: nat, dest: nat)
    requires target != ViewMatrix && IsMovFromMemory(pattern)
    requires modrm == 0x0D || modrm == 0x15
    requires site + 6 <= Modulus(X64) && dest < Modulus(X64)
    requires -0x8000_0000 <= dest - (site + 6) < 0x8000_0000
    requires ReadMemory(mem, site, 6) == [0x8B, modrm] + DisplacementBytes(site, 6, dest)
    ensures Resolve(mem, X64, IntendedEncodingFor(X64, target, pattern), site) == dest
  {
    MovPrefixChars(pattern);
    assert IntendedEncodingFor(X64, target, pattern) == RipRelative(2, 6);
    var opcode: seq<Byte> := [0x8B, modrm];
    assert |opcode| == 2 && opcode[0] == 0x8B;
    ResolveRelativeAfterOpcode(mem, X64, opcode, site, dest);
  }


  /** Memory holding the bytes 0F 10 05 20 00 00 00 0F 11 at SampleSite. */
  function MovupsSample(): Memory
  {
    Memory(map[SampleSite := 0x0F, SampleSite + 1 := 0x10, SampleSite + 2 := 0x05,
               SampleSite + 3 := 0x20, SampleSite + 4 := 0x00, SampleSite + 5 := 0x00,
               SampleSite + 6 := 0x00, SampleSite + 7 := 0x0F, SampleSite + 8 := 0x11])
  }

  lemma MovupsSampleCells()
    ensures forall a :: SampleSite + 3 <= a < SampleSite + 8 ==> a in MovupsSample().cells
    ensures [MovupsSample().cells[SampleSite + 4], MovupsSample().cells[SampleSite + 5],
             MovupsSample().cells[SampleSite + 6], MovupsSample().cells[SampleSite + 7]] == [0x00, 0x00, 0x00, 0x0F]
    ensures [MovupsSample().cells[SampleSite + 3], MovupsSample().cells[SampleSite + 4],
             MovupsSample().cells[SampleSite + 5], MovupsSample().cells[SampleSite + 6]] == [0x20, 0x00, 0x00, 0x00]
  {
    var mem := MovupsSample();
    forall a | SampleSite + 3 <= a < SampleSite + 8 ensures a in mem.cells {
      if a == SampleSite + 3 {} else if a == SampleSite + 4 {} else if a == SampleSite + 5 {}
      else if a == SampleSite + 6 {} else {}
    }
  }

  lemma MovupsSampleValues()
    ensures ToInt32(DecodeLE([0x00, 0x00, 0x00, 0x0F])) == 0x0F00_0000
    ensures ToInt32(DecodeLE([0x20, 0x00, 0x00, 0x00])) == 0x20
  {
    assert DecodeLE([0x0F]) == 0x0F;
    assert DecodeLE([0x00, 0x0F]) == 0x0F00;
    assert DecodeLE([0x00, 0x00, 0x0F]) == 0x0F_0000;
    assert DecodeLE([0x20, 0x00, 0x00, 0x00]) == 0x20;
  }

  /** The sample read both ways: at +4/+8 as the scanner does, and at +3/+7. */
  lemma MovupsSampleResolves()
    ensures Resolve(MovupsSample(), X64, RipRelative(4, 8), SampleSite) == SampleSite + 8 + 0x0F00_0000
    ensures Resolve(MovupsSample(), X64, RipRelative(3, 7), SampleSite) == SampleSite + 7 + 0x20
  {
    var mem := MovupsSample();
    MovupsSampleCells();
    MovupsSampleValues();
    assert Wrap(X64, SampleSite + 4) == SampleSite + 4 && Wrap(X64, SampleSite + 3) == SampleSite + 3;
    assert Readable(mem, SampleSite + 4, 4) && Readable(mem, SampleSite + 3, 4);
    assert LoadInt32(mem, SampleSite + 4) == 0x0F00_0000;
    assert LoadInt32(mem, SampleSite + 3) == 0x20;
    PositiveDisplacementMovesForward(X64, SampleSite, 8, 0x0F00_0000);
    PositiveDisplacementMovesForward(X64, SampleSite, 7, 0x20);
  }

  /**
   * The second view-matrix signature is `0F 10 05 <disp32>`. Over the bytes
   * 0F 10 05 20 00 00 00 0F 11 the instruction refers to SampleSite + 7 + 0x20,
   * but the scanner reads the displacement at +4 and adds it to +8, and the
   * x64 build resolves SampleSite + 8 + 0x0F000000.
   */
  lemma MovupsDisplacementReadOneByteLate()
    ensures Resolve(MovupsSample(), X64, EncodingFor(ViewMatrix, ViewMatrixPatterns[1]), SampleSite) ==
            SampleSite + 8 + 0x0F00_0000
    ensures Resolve(MovupsSample(), X64, IntendedEncodingFor(X64, ViewMatrix, ViewMatrixPatterns[1]), SampleSite) ==
            SampleSite + 7 + 0x20
  {
    var p := ViewMatrixPatterns[1];
    assert p[..8] == [p[0], p[1], p[2], p[3], p[4], p[5], p[6], p[7]];
    assert IntendedEncodingFor(X64, ViewMatrix, p) == RipRelative(3, 7);
    assert EncodingFor(ViewMatrix, p) == RipRelative(4, 8);
    MovupsSampleResolves();
  }

  /** The bytes F3 0F 10 05 00 10 00 00. */
  const MovssBytes: seq<Byte> := [0xF3, 0x0F, 0x10, 0x05, 0x00, 0x10, 0x00, 0x00]

  /** Memory holding MovssBytes at SampleSite and nothing else. */
  function MovssSample(): Memory
  {
    Placed(SampleSite, MovssBytes)
  }

  /** The sample read both ways on x86: relative at +4/+8 as the scanner does, and absolute at +4. */
  lemma MovssSampleResolves()
    ensures Resolve(MovssSample(), X86, RipRelative(4, 8), SampleSite) == SampleSite + 8 + 0x1000
    ensures Resolve(MovssSample(), X86, AbsoluteLiteral(4), SampleSite) == 0x1000
  {
    var mem := MovssSample();
    ReadPlaced(SampleSite, MovssBytes, 4, 4);
    var bytes := ReadMemory(mem, SampleSite + 4, 4);
    assert bytes == [0x00, 0x10, 0x00, 0x00];
    assert DecodeLE(bytes) == 0x1000 by {
      assert DecodeLE([0x00]) == 0;
      assert DecodeLE([0x00, 0x00]) == 0;
      assert DecodeLE([0x10, 0x00, 0x00]) == 0x10;
    }
    assert Wrap(X86, SampleSite + 4) == SampleSite + 4;
    LoadInt32Read(mem, SampleSite + 4);
    PositiveDisplacementMovesForward(X86, SampleSite, 8, 0x1000);
    ModulusIsPointerRange(X86);
    ResolveAbsolute(mem, X86, 4, SampleSite);
  }

  /**
   * The first view-matrix signature is `F3 0F 10 05 <addr32>` in 32-bit code
   * (movss xmm0, [addr]). Over the bytes F3 0F 10 05 00 10 00 00 the
   * instruction loads from 0x1000, but the scanner resolves every view-matrix
   * match as relative, and the x86 build resolves SampleSite + 8 + 0x1000.
   */
  lemma ViewMatrixReadAsRelativeOnX86()
    ensures Resolve(MovssSample(), X86, EncodingFor(ViewMatrix, ViewMatrixPatterns[0]), SampleSite) ==
            SampleSite + 8 + 0x1000
    ensures Resolve(MovssSample(), X86, IntendedEncodingFor(X86, ViewMatrix, ViewMatrixPatterns[0]), SampleSite) == 0x1000
  {
    var p := ViewMatrixPatterns[0];
    assert p[0] == 'F';
    assert IntendedEncodingFor(X86, ViewMatrix, p) == AbsoluteLiteral(4);
    assert EncodingFor(ViewMatrix, p) == RipRelative(4, 8);
    MovssSampleResolves();
  }

  /** The bytes 8B 0D 20 00 00 00 8B 01 FF 50. */
  const MovEcxBytes: seq<Byte> := [0x8B, 0x0D, 0x20, 0x00, 0x00, 0x00, 0x8B, 0x01, 0xFF, 0x50]

  /** Memory holding MovEcxBytes at SampleSite and nothing else. */
  function MovEcxSample(): Memory
  {
    Placed(SampleSite, MovEcxBytes)
  }

  lemma MovEcxSampleValues()
    ensures DecodeLE([0x20, 0x00, 0x00, 0x00, 0x8B, 0x01, 0xFF, 0x50]) == 0x50FF_018B_0000_0020
    ensures DecodeLE([0x20, 0x00, 0x00, 0x00]) == 0x20
  {
    assert DecodeLE([0x50]) == 0x50;
    assert DecodeLE([0xFF, 0x50]) == 0x50FF;
    assert DecodeLE([0x01, 0xFF, 0x50]) == 0x50_FF01;
    assert DecodeLE([0x8B, 0x01, 0xFF, 0x50]) == 0x50FF_018B;
    assert DecodeLE([0x00, 0x8B, 0x01, 0xFF, 0x50]) == 0x50_FF01_8B00;
    assert DecodeLE([0x00, 0x00, 0x8B, 0x01, 0xFF, 0x50]) == 0x50FF_018B_0000;
    assert DecodeLE([0x00, 0x00, 0x00, 0x8B, 0x01, 0xFF, 0x50]) == 0x50_FF01_8B00_0000;
    assert DecodeLE([0x00, 0x00, 0x00]) == 0;
  }

  /** The sample read as a pointer at +2 on x64, as the scanner does. */
  lemma MovEcxSampleAsPointer()
    ensures Resolve(MovEcxSample(), X64, AbsoluteLiteral(2), SampleSite) == 0x50FF_018B_0000_0020
  {
    ReadPlaced(SampleSite, MovEcxBytes, 2, 8);
    var bytes := ReadMemory(MovEcxSample(), SampleSite + 2, 8);
    assert bytes == [0x20, 0x00, 0x00, 0x00, 0x8B, 0x01, 0xFF, 0x50];
    MovEcxSampleValues();
    assert DecodeLE(bytes) == 0x50FF_018B_0000_0020;
    assert Wrap(X64, SampleSite + 2) == SampleSite + 2;
    ModulusIsPointerRange(X64);
    ResolveAbsolute(MovEcxSample(), X64, 2, SampleSite);
  }

  /** The sample read as mov ecx, [rip + disp32] on x64: relative at +2/+6. */
  lemma MovEcxSampleAsRelative()
    ensures Resolve(MovEcxSample(), X64, RipRelative(2, 6), SampleSite) == SampleSite + 6 + 0x20
  {
    var mem := MovEcxSample();
    ReadPlaced(SampleSite, MovEcxBytes, 2, 4);
    assert MovEcxBytes[2..6] == [0x20, 0x00, 0x00, 0x00];
    MovEcxSampleValues();
    assert Wrap(X64, SampleSite + 2) == SampleSite + 2;
    LoadInt32Read(mem, SampleSite + 2);
    PositiveDisplacementMovesForward(X64, SampleSite, 6, 0x20);
  }

  /**
   * The first entity-list signature is `8B 0D <disp32>`; in 64-bit code that
   * is mov ecx, [rip + disp32]. Over the bytes 8B 0D 20 00 00 00 8B 01 FF 50
   * the instruction refers to SampleSite + 6 + 0x20, but the scanner picks
   * the pointer form from the text alone, and the x64 build resolves the
   * eight bytes at +2 as the pointer 0x50FF018B00000020.
   */
  lemma MovEcxReadAsPointerOnX64()
    ensures Resolve(MovEcxSample(), X64, EncodingFor(EntityList, EntityListPatterns[0]), SampleSite) ==
            0x50FF_018B_0000_0020
    ensures Resolve(MovEcxSample(), X64, IntendedEncodingFor(X64, EntityList, EntityListPatterns[0]), SampleSite) ==
            SampleSite + 6 + 0x20
  {
    var p := EntityListPatterns[0];
    ListEncodings();
    EntityListPrefixes();
    assert IntendedEncodingFor(X64, EntityList, p) == RipRelative(2, 6);
    MovEcxSampleAsPointer();
    MovEcxSampleAsRelative();
  }
}
