/**
 * Turning a match site into the address the matched instruction refers to.
 *
 * Two encodings occur: an instruction-pointer-relative one, where a signed
 * 32-bit displacement at a fixed offset is added to an anchor (the end of the
 * instruction), and an absolute one, where a pointer-width value at a fixed
 * offset is the address itself. All sums are taken in `uintptr_t`, so they
 * wrap modulo 2^W; an `int32_t` added to a `uintptr_t` is sign-extended first,
 * so a negative displacement moves the target backward.
 */
module Resolver {
  import opened Wrappers
  import opened Machine
  import opened ProcessMemory

  datatype Encoding =
    | RipRelative(dispAt: nat, anchor: nat)   // site + anchor + int32 at site + dispAt
    | AbsoluteLiteral(at: nat)                // the uintptr_t at site + at

  /** site + anchor + disp, computed in `uintptr_t`. */
  function RelativeTarget(arch: Arch, site: nat, anchor: nat, disp: int): (t: nat)
    ensures t < Modulus(arch)
    ensures (site + anchor + disp - t) % Modulus(arch) == 0
  {
    Wrap(arch, site + anchor + disp)
  }

  /** Without wrap-around, a negative displacement lands |disp| bytes before the anchor. */
  lemma {:induction false} NegativeDisplacementMovesBackward(arch: Arch, site: nat, anchor: nat, disp: int)
    requires disp < 0 && -disp <= site + anchor < Modulus(arch)
    ensures RelativeTarget(arch, site, anchor, disp) == site + anchor - (-disp)
    ensures RelativeTarget(arch, site, anchor, disp) < site + anchor
  {
  }

  /** Without wrap-around, a non-negative displacement lands disp bytes after the anchor. */
  lemma {:induction false} PositiveDisplacementMovesForward(arch: Arch, site: nat, anchor: nat, disp: int)
    requires 0 <= disp && site + anchor + disp < Modulus(arch)
    ensures RelativeTarget(arch, site, anchor, disp) == site + anchor + disp
  {
  }

  /** A displacement that points below address 0 wraps to the top of the address space. */
  lemma {:induction false} DisplacementWrapsBelowZero(arch: Arch, site: nat, anchor: nat, disp: int)
    requires -0x8000_0000 <= disp < 0 && site + anchor < -disp
    ensures RelativeTarget(arch, site, anchor, disp) == Modulus(arch) - (-disp - (site + anchor))
  {
    var x := site + anchor + disp;
    if arch == X86 {
      assert x % 0x1_0000_0000 == x + 0x1_0000_0000;
    } else {
      assert x % 0x1_0000_0000_0000_0000 == x + 0x1_0000_0000_0000_0000;
    }
  }

  /** The four displacement bytes an assembler emits to reach `target` from the anchor. */
  function DisplacementBytes(site: nat, anchor: nat, target: nat): (bytes: seq<Byte>)
    requires -0x8000_0000 <= target - (site + anchor) < 0x8000_0000
    ensures |bytes| == 4
  {
    EncodeLE(FromInt32(target - (site + anchor)), 4)
  }

  /**
   * Decoding the emitted displacement and adding it to the anchor gives the
   * target back: the resolver is the inverse of the instruction encoding.
   */
  lemma RelativeRoundTrip(arch: Arch, site: nat, anchor: nat, target: nat)
    requires target < Modulus(arch)
    requires -0x8000_0000 <= target - (site + anchor) < 0x8000_0000
    ensures DecodeLE(DisplacementBytes(site, anchor, target)) < Int32Range
    ensures RelativeTarget(arch, site, anchor,
              ToInt32(DecodeLE(DisplacementBytes(site, anchor, target)))) == target
  {
    var d := target - (site + anchor);
    assert Pow256(4) == Int32Range by { assert Pow256(2) == 0x1_0000; }
    DecodeEncode(FromInt32(d), 4);
    Int32RoundTrip(d, 0);
  }

  /** The address a match site resolves to (ResolveRelative and ResolveAbsolute say which). */
  function Resolve(mem: Memory, arch: Arch, enc: Encoding, site: nat): (t: nat)
    ensures t < Modulus(arch)
  {
    match enc
    case RipRelative(dispAt, anchor) =>
      RelativeTarget(arch, site, anchor, LoadInt32(mem, Wrap(arch, site + dispAt)))
    case AbsoluteLiteral(at) =>
      ModulusIsPointerRange(arch);
      LoadUnsigned(mem, Wrap(arch, site + at), PtrBytes(arch))
  }

  /**
   * The relative form: the anchor plus the little-endian `int32_t` at
   * site + dispAt. A read that fails leaves the zero-initialised value, so the
   * result is then the anchor itself, and the failure is not reported.
   */
  lemma ResolveRelative(mem: Memory, arch: Arch, dispAt: nat, anchor: nat, site: nat)
    ensures var at := Wrap(arch, site + dispAt);
      var t := Resolve(mem, arch, RipRelative(dispAt, anchor), site);
      (Readable(mem, at, 4) ==>
         t == Wrap(arch, site + anchor +
                     ToInt32(DecodeLE([mem.cells[at], mem.cells[at + 1], mem.cells[at + 2], mem.cells[at + 3]])))) &&
      (!Readable(mem, at, 4) ==> t == Wrap(arch, site + anchor))
  {
  }

  /**
   * The absolute form: the pointer-width little-endian value at site + at,
   * whose encoding is exactly the bytes read. A read that fails yields 0,
   * and the failure is not reported.
   */
  lemma ResolveAbsolute(mem: Memory, arch: Arch, at: nat, site: nat)
    ensures var a := Wrap(arch, site + at);
      var t := Resolve(mem, arch, AbsoluteLiteral(at), site);
      (Readable(mem, a, PtrBytes(arch)) ==>
         t == DecodeLE(ReadMemory(mem, a, PtrBytes(arch))) &&
         ReadMemory(mem, a, PtrBytes(arch)) == EncodeLE(t, PtrBytes(arch))) &&
      (!Readable(mem, a, PtrBytes(arch)) ==> t == 0)
  {
    EncodeDecode(ReadMemory(mem, Wrap(arch, site + at), PtrBytes(arch)));
  }

  /**
   * An instruction whose 32-bit absolute address directly follows its opcode
   * bytes, read on the x86 build with the address at +|opcode|, resolves to
   * that address.
   */
  lemma ResolveAbsoluteAfterOpcode(mem: Memory, opcode: seq<Byte>, site: nat, addr: nat)
    requires |opcode| > 0 && opcode[0] != 0
    requires site + |opcode| + 4 <= Modulus(X86) && addr < Modulus(X86)
    requires ReadMemory(mem, site, |opcode| + 4) == opcode + EncodeLE(addr, 4)
    ensures Resolve(mem, X86, AbsoluteLiteral(|opcode|), site) == addr
  {
    var at := |opcode|;
    ReadAfterPrefix(mem, site, opcode, EncodeLE(addr, 4));
    ModulusIsPointerRange(X86);
    ResolveAbsolute(mem, X86, at, site);
    DecodeEncode(addr, 4);
  }


  /**
   * An instruction whose 32-bit displacement directly follows its opcode
   * bytes and ends the instruction, read with the displacement at +|opcode|
   * and the anchor at +|opcode| + 4, resolves to the target the displacement
   * was emitted for.
   */
  lemma ResolveRelativeAfterOpcode(mem: Memory, arch: Arch, opcode: seq<Byte>, site: nat, dest: nat)
    requires |opcode| > 0 && opcode[0] != 0
    requires site + |opcode| + 4 <= Modulus(arch) && dest < Modulus(arch)
    requires -0x8000_0000 <= dest - (site + |opcode| + 4) < 0x8000_0000
    requires ReadMemory(mem, site, |opcode| + 4) == opcode + DisplacementBytes(site, |opcode| + 4, dest)
    ensures Resolve(mem, arch, RipRelative(|opcode|, |opcode| + 4), site) == dest
  {
    var at := |opcode|;
    var disp := DisplacementBytes(site, at + 4, dest);
    ReadAfterPrefix(mem, site, opcode, disp);
    assert Wrap(arch, site + at) == site + at;
    LoadInt32Read(mem, site + at);
    RelativeRoundTrip(arch, site, at + 4, dest);
  }


  /**
   * Worked examples: 0x20 forward, and -16 backward, from 0x1000 + 7 (the x64
   * entity-list and local-player form), and 0x20 forward from 0x1000 + 8 (the
   * view-matrix form).
   */
  lemma RelativeExamples(arch: Arch)
    ensures RelativeTarget(arch, 0x1000, 7, ToInt32(DecodeLE([0x20, 0, 0, 0]))) == 0x1027
    ensures RelativeTarget(arch, 0x1000, 8, ToInt32(DecodeLE([0x20, 0, 0, 0]))) == 0x1028
    ensures ToInt32(DecodeLE([0xF0, 0xFF, 0xFF, 0xFF])) == -16
    ensures RelativeTarget(arch, 0x1000, 7, ToInt32(DecodeLE([0xF0, 0xFF, 0xFF, 0xFF]))) == 0x1000 + 7 - 16
  {
    assert DecodeLE([0x20, 0, 0, 0]) == 0x20;
    assert DecodeLE([0xF0, 0xFF, 0xFF, 0xFF]) == 0xFFFF_FFF0 by {
      assert DecodeLE([0xFF]) == 0xFF;
      assert DecodeLE([0xFF, 0xFF]) == 0xFFFF;
      assert DecodeLE([0xFF, 0xFF, 0xFF]) == 0xFF_FFFF;
    }
    ModulusIsPointerRange(arch);
  }

  // ---------------------------------------------------------------------
  // std::string::find and the "starts with" test built on it
  // ---------------------------------------------------------------------

  predicate OccursAt(s: string, t: string, i: nat)
  {
    i + |t| <= |s| && s[i..i + |t|] == t
  }

  function FindFrom(s: string, t: string, i: nat): (r: Option<nat>)
    ensures r.Some? ==> i <= r.value && OccursAt(s, t, r.value)
    ensures r.Some? ==> forall k :: i <= k < r.value ==> !OccursAt(s, t, k)
    ensures r.None? ==> forall k :: i <= k ==> !OccursAt(s, t, k)
    decreases |s| - i
  {
    if i + |t| > |s| then None
    else if s[i..i + |t|] == t then Some(i)
    else FindFrom(s, t, i + 1)
  }

  /** `s.find(t)`: the first position where t occurs; None stands for `npos`. */
  function Find(s: string, t: string): Option<nat>
  {
    FindFrom(s, t, 0)
  }

  /** `s.find(t) == 0` is exactly "s starts with t". */
  lemma FindZeroIsPrefix(s: string, t: string)
    ensures Find(s, t) == Some(0) <==> |t| <= |s| && s[..|t|] == t
  {
    if |t| <= |s| && s[..|t|] == t {
      assert OccursAt(s, t, 0);
    }
  }
}
