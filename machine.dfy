/**
 * Machine words of the scanner's target: bytes, the width of `uintptr_t`,
 * little-endian decoding of scalars (x86 and x64 store the least significant
 * byte at the lowest address, Intel SDM Vol. 1, section 1.3.1) and the
 * two's-complement reading of an `int32_t`.
 */
module Machine {

  type Byte = b: int | 0 <= b < 256

  /** The architecture the scanner is built for; it fixes the width of `uintptr_t`. */
  datatype Arch = X86 | X64

  /** `sizeof(uintptr_t)`. */
  function PtrBytes(arch: Arch): nat
  {
    if arch == X86 then 4 else 8
  }

  /** 256 to the power n: the number of values an n-byte unsigned integer holds. */
  function Pow256(n: nat): (p: nat)
    ensures p >= 1
  {
    if n == 0 then 1 else 256 * Pow256(n - 1)
  }

  /** 2^W, where W is the bit width of `uintptr_t` and `size_t`. */
  function Modulus(arch: Arch): nat
  {
    if arch == X86 then 0x1_0000_0000 else 0x1_0000_0000_0000_0000
  }

  lemma ModulusIsPointerRange(arch: Arch)
    ensures Modulus(arch) == Pow256(PtrBytes(arch))
    ensures Modulus(arch) >= 0x1_0000_0000
  {
    assert Pow256(4) == 0x1_0000_0000 by {
      assert Pow256(2) == 0x1_0000;
    }
    if arch == X64 {
      assert Pow256(8) == 0x1_0000_0000 * Pow256(4) by {
        assert Pow256(6) == 0x1_0000 * Pow256(4);
      }
    }
  }

  /** Arithmetic in `uintptr_t`: the value of x modulo 2^W. */
  function Wrap(arch: Arch, x: int): (r: nat)
    ensures r < Modulus(arch)
    ensures (x - r) % Modulus(arch) == 0
    ensures 0 <= x < Modulus(arch) ==> r == x
  {
    if arch == X86 then x % 0x1_0000_0000 else x % 0x1_0000_0000_0000_0000
  }

  /** The unsigned value of a little-endian byte sequence. */
  function DecodeLE(bytes: seq<Byte>): (v: nat)
    ensures v < Pow256(|bytes|)
  {
    if bytes == [] then 0 else bytes[0] + 256 * DecodeLE(bytes[1..])
  }

  /** The n least significant bytes of v, least significant first. */
  function EncodeLE(v: nat, n: nat): (bytes: seq<Byte>)
    ensures |bytes| == n
  {
    if n == 0 then [] else [v % 256] + EncodeLE(v / 256, n - 1)
  }

  lemma {:induction false} DecodeEncode(v: nat, n: nat)
    requires v < Pow256(n)
    ensures DecodeLE(EncodeLE(v, n)) == v
  {
    if n > 0 {
      DecodeEncode(v / 256, n - 1);
      assert EncodeLE(v, n)[1..] == EncodeLE(v / 256, n - 1);
    }
  }

  lemma {:induction false} EncodeDecode(bytes: seq<Byte>)
    ensures EncodeLE(DecodeLE(bytes), |bytes|) == bytes
  {
    if bytes != [] {
      var v := DecodeLE(bytes);
      assert v % 256 == bytes[0] && v / 256 == DecodeLE(bytes[1..]);
      EncodeDecode(bytes[1..]);
    }
  }

  /** An all-zero buffer decodes to 0. */
  lemma {:induction false} DecodeZeros(bytes: seq<Byte>)
    requires forall k :: 0 <= k < |bytes| ==> bytes[k] == 0
    ensures DecodeLE(bytes) == 0
  {
    if bytes != [] {
      DecodeZeros(bytes[1..]);
    }
  }

  const Int32Range: nat := 0x1_0000_0000

  /**
   * The `int32_t` whose bit pattern is the unsigned 32-bit value u (two's
   * complement): the only value in [-2^31, 2^31) congruent to u modulo 2^32.
   */
  function ToInt32(u: nat): (s: int)
    requires u < Int32Range
    ensures -0x8000_0000 <= s < 0x8000_0000
    ensures (u - s) % Int32Range == 0
  {
    if u < 0x8000_0000 then u else u - Int32Range
  }

  /** The bit pattern of an `int32_t`, as the unsigned 32-bit value it is stored as. */
  function FromInt32(s: int): (u: nat)
    requires -0x8000_0000 <= s < 0x8000_0000
    ensures u < Int32Range
  {
    if s >= 0 then s else s + Int32Range
  }

  lemma Int32RoundTrip(s: int, u: nat)
    requires -0x8000_0000 <= s < 0x8000_0000 && u < Int32Range
    ensures ToInt32(FromInt32(s)) == s
    ensures FromInt32(ToInt32(u)) == u
  {
  }
}
