/**
 * The target process's address space as the scanner sees it through
 * `ReadProcessMemory`: a partial map from address to byte, whose domain is
 * the set of readable addresses.
 *
 * A transfer is all-or-nothing: a request that touches any unreadable address
 * transfers nothing. The caller's buffer is zero-initialised and the transfer
 * count is never looked at, so the bytes that were not transferred read as 0.
 */
module ProcessMemory {
  import opened Machine

  datatype Memory = Memory(cells: map<nat, Byte>)

  /** Addresses past the top of the address space are never readable. */
  ghost predicate InAddressSpace(mem: Memory, arch: Arch)
  {
    forall a :: a in mem.cells ==> a < Modulus(arch)
  }

  predicate Readable(mem: Memory, address: nat, size: nat)
  {
    forall a :: address <= a < address + size ==> a in mem.cells
  }

  /** The number of bytes `ReadProcessMemory` copies for a request of `size` bytes. */
  function Transferred(mem: Memory, address: nat, size: nat): (n: nat)
    ensures n <= size
    ensures n == size <==> Readable(mem, address, size) || size == 0
  {
    if Readable(mem, address, size) then size else 0
  }

  /**
   * The buffer `ReadBytes` returns: always `size` bytes long; a transferred
   * byte is the memory's content, any other byte is the 0 it was initialised to.
   */
  function ReadMemory(mem: Memory, address: nat, size: nat): (buf: seq<Byte>)
    ensures |buf| == size
    ensures Readable(mem, address, size) ==>
      forall k :: 0 <= k < size ==> buf[k] == mem.cells[address + k]
    ensures !Readable(mem, address, size) ==>
      forall k :: 0 <= k < size ==> buf[k] == 0
  {
    var n := Transferred(mem, address, size);
    seq(size, k requires 0 <= k < size => if k < n then mem.cells[address + k] else 0)
  }

  /** `Read<T>` for an unsigned T of `width` bytes (here `uintptr_t`). */
  function LoadUnsigned(mem: Memory, address: nat, width: nat): (v: nat)
    ensures v < Pow256(width)
    ensures !Readable(mem, address, width) ==> v == 0
    ensures Readable(mem, address, width) ==> EncodeLE(v, width) == ReadMemory(mem, address, width)
  {
    var bytes := ReadMemory(mem, address, width);
    if !Readable(mem, address, width) then DecodeZeros(bytes); DecodeLE(bytes)
    else EncodeDecode(bytes); DecodeLE(bytes)
  }

  /** `Read<int32_t>`: four little-endian bytes taken as a two's-complement value. */
  function LoadInt32(mem: Memory, address: nat): (d: int)
    ensures -0x8000_0000 <= d < 0x8000_0000
    ensures !Readable(mem, address, 4) ==> d == 0
    ensures Readable(mem, address, 4) ==>
      d == ToInt32(DecodeLE([mem.cells[address], mem.cells[address + 1],
                             mem.cells[address + 2], mem.cells[address + 3]]))
  {
    assert Pow256(4) == Int32Range by { assert Pow256(2) == 0x1_0000; }
    var u := LoadUnsigned(mem, address, 4);
    if Readable(mem, address, 4) then
      assert ReadMemory(mem, address, 4) == [mem.cells[address], mem.cells[address + 1],
                                             mem.cells[address + 2], mem.cells[address + 3]];
      ToInt32(u)
    else
      ToInt32(u)
  }
  /** A readable `int32_t` is the signed value of the four bytes a read returns. */
  lemma LoadInt32Read(mem: Memory, address: nat)
    requires Readable(mem, address, 4)
    ensures DecodeLE(ReadMemory(mem, address, 4)) < Int32Range
    ensures LoadInt32(mem, address) == ToInt32(DecodeLE(ReadMemory(mem, address, 4)))
  {
    assert Pow256(4) == Int32Range by { assert Pow256(2) == 0x1_0000; }
    assert ReadMemory(mem, address, 4) == [mem.cells[address], mem.cells[address + 1],
                                           mem.cells[address + 2], mem.cells[address + 3]];
  }


  /** The byte placed at address a when `bytes` start at `site`. */
  function PlacedByte(site: nat, bytes: seq<Byte>, a: nat): Byte
    requires site <= a < site + |bytes|
  {
    bytes[a - site]
  }

  /** A memory in which exactly the addresses site .. site + |bytes| - 1 are readable, holding `bytes`. */
  function Placed(site: nat, bytes: seq<Byte>): (mem: Memory)
    ensures forall a :: a in mem.cells <==> site <= a < site + |bytes|
  {
    Memory(map a: nat | site <= a < site + |bytes| :: PlacedByte(site, bytes, a))
  }

  /** Reading n bytes at offset `at` of placed bytes gives that slice of them. */
  lemma ReadPlaced(site: nat, bytes: seq<Byte>, at: nat, n: nat)
    requires at + n <= |bytes|
    ensures Readable(Placed(site, bytes), site + at, n)
    ensures ReadMemory(Placed(site, bytes), site + at, n) == bytes[at..at + n]
  {
  }

  /** A readable range read from an offset on gives the rest of the bytes read. */
  lemma ReadSuffix(mem: Memory, address: nat, n: nat, at: nat)
    requires at <= n && Readable(mem, address, n)
    ensures Readable(mem, address + at, n - at)
    ensures ReadMemory(mem, address + at, n - at) == ReadMemory(mem, address, n)[at..]
  {
  }
  /**
   * A read that starts with a non-zero byte was transferred, so the bytes
   * after a known prefix read the same on their own.
   */
  lemma ReadAfterPrefix(mem: Memory, address: nat, prefix: seq<Byte>, rest: seq<Byte>)
    requires |prefix| > 0 && prefix[0] != 0
    requires ReadMemory(mem, address, |prefix| + |rest|) == prefix + rest
    ensures Readable(mem, address + |prefix|, |rest|)
    ensures ReadMemory(mem, address + |prefix|, |rest|) == rest
  {
    var n := |prefix| + |rest|;
    assert ReadMemory(mem, address, n)[0] == prefix[0];
    assert Readable(mem, address, n);
    ReadSuffix(mem, address, n, |prefix|);
    assert (prefix + rest)[|prefix|..] == rest;
  }

}
