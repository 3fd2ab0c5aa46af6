/**
 * Model of Machine.h: the guest's physical memory (one anonymous mapping of 0x4000'0000 bytes
 * shared with KVM), the vCPU registers the host reads and writes, and `MachinePtr<T>`, the
 * pair (arena start, host address) through which the host reaches guest memory.
 *
 * Host addresses and guest offsets are unsigned 64-bit integers; pointer arithmetic wraps
 * modulo 2^64. Guest memory is an array of bytes indexed by guest physical address.
 */
module Machine {
  import opened Wrappers

  /** Size of the guest memory mapping. */
  const Arena: nat := 0x4000_0000

  const Modulus: nat := 0x1_0000_0000_0000_0000

  type Byte = b: int | 0 <= b < 256
  type U64 = x: int | 0 <= x < 0x1_0000_0000_0000_0000

  /** Conversion to `std::uint64_t`: the value modulo 2^64. */
  function Wrap(x: int): (r: U64)
    ensures 0 <= x < Modulus ==> r == x
  {
    x % Modulus
  }

  /** Adding a multiple of 2^64 does not change the wrapped value. */
  lemma WrapShift(x: int, k: int)
    ensures Wrap(x + k * Modulus) == Wrap(x)
  {
    var q := x / Modulus;
    var r := x % Modulus;
    assert x + k * Modulus == (q + k) * Modulus + r;
  }

  /** Wrapping an intermediate sum does not change the wrapped result. */
  lemma WrapAdd(x: int, y: int)
    ensures Wrap(Wrap(x) + y) == Wrap(x + y)
  {
    var q := x / Modulus;
    assert x == Wrap(x) + q * Modulus;
    WrapShift(Wrap(x) + y, q);
  }

  // ---------------------------------------------------------------------------------------
  // MachinePtr<T>
  // ---------------------------------------------------------------------------------------

  /**
   * `MachinePtr<T>`: the arena's host address `base`, the host address `value` it points to,
   * and `size`, the `sizeof(T)` its arithmetic steps by.
   */
  datatype Ptr = Ptr(base: U64, value: U64, size: nat)

  /** `MachinePtr()`: base 0 and a null value. */
  function NullPtr(size: nat): Ptr
  {
    Ptr(0, 0, size)
  }

  /** `MachinePtr(base, offset)`: the host address `base + offset`; no bounds check. */
  function FromOffset(base: U64, offset: U64, size: nat): Ptr
  {
    Ptr(base, Wrap(base + offset), size)
  }

  /** `MachinePtr(base, value)`: a host address taken as it is. */
  function FromHost(base: U64, value: U64, size: nat): Ptr
  {
    Ptr(base, value, size)
  }

  /** `operator std::uint64_t`: the distance from the arena start, as an unsigned offset. */
  function Offset(p: Ptr): U64
  {
    Wrap(p.value - p.base)
  }

  /** `cast<U>()`: the same addresses, stepping by `sizeof(U)`. */
  function Cast(p: Ptr, size: nat): Ptr
  {
    Ptr(p.base, p.value, size)
  }

  /** `p + n`: `n` elements further. */
  function Add(p: Ptr, n: int): Ptr
  {
    Ptr(p.base, Wrap(p.value + n * p.size), p.size)
  }

  /** `p - n`: `n` elements back. */
  function Sub(p: Ptr, n: int): Ptr
  {
    Ptr(p.base, Wrap(p.value - n * p.size), p.size)
  }

  /** `p[i]` and `*p` (i = 0): the host address of element `i`; `i` may be negative. */
  function ElementAddress(p: Ptr, i: int): U64
  {
    Wrap(p.value + i * p.size)
  }

  /** `Machine::create_ptr<T>(offset)`. */
  function CreatePtr(arena: U64, offset: U64, size: nat): Ptr
  {
    FromOffset(arena, offset, size)
  }

  /** `Machine::create_ptr<T>(void*)`. */
  function CreatePtrFromHost(arena: U64, value: U64, size: nat): Ptr
  {
    FromHost(arena, value, size)
  }

  /** A default pointer is null and converts to offset 0 when its base is 0. */
  lemma NullPtrIsNull(size: nat)
    ensures NullPtr(size).value == 0 && NullPtr(size).base == 0
    ensures Offset(NullPtr(size)) == 0
  {
  }

  /** `(std::uint64_t)create_ptr<T>(offset) == offset`, for every offset. */
  lemma OffsetRoundTrip(arena: U64, offset: U64, size: nat)
    ensures Offset(CreatePtr(arena, offset, size)) == offset
  {
    WrapAdd(arena + offset, -(arena as int));
  }

  /** `create_ptr<T>(void*)` keeps the host address and takes the arena as base. */
  lemma FromHostKeeps(arena: U64, value: U64, size: nat)
    ensures CreatePtrFromHost(arena, value, size).value == value
    ensures CreatePtrFromHost(arena, value, size).base == arena
    ensures Offset(CreatePtrFromHost(arena, value, size)) == Wrap(value - arena)
  {
  }

  /** A host address inside the arena converts to its distance from the arena start. */
  lemma HostOffset(arena: U64, offset: U64, size: nat)
    requires arena + offset < Modulus
    ensures Offset(CreatePtrFromHost(arena, arena + offset, size)) == offset
  {
  }

  /** `cast` keeps both addresses, hence the offset. */
  lemma CastKeeps(p: Ptr, size: nat)
    ensures Cast(p, size).base == p.base && Cast(p, size).value == p.value
    ensures Offset(Cast(p, size)) == Offset(p)
  {
  }

  /** `p + n` moves the offset by `n * sizeof(T)` bytes and keeps the base. */
  lemma AddMovesOffset(p: Ptr, n: int)
    ensures Add(p, n).base == p.base && Add(p, n).size == p.size
    ensures Offset(Add(p, n)) == Wrap(Offset(p) + n * p.size)
  {
    ShiftOffset(p.value, p.base, n * p.size);
  }

  /** `p - n` moves the offset back by `n * sizeof(T)` bytes and keeps the base. */
  lemma SubMovesOffset(p: Ptr, n: int)
    ensures Sub(p, n).base == p.base && Sub(p, n).size == p.size
    ensures Offset(Sub(p, n)) == Wrap(Offset(p) - n * p.size)
  {
    ShiftOffset(p.value, p.base, -(n * p.size));
  }

  /** Moving an address by `d` moves its offset from any base by `d`, modulo 2^64. */
  lemma ShiftOffset(value: U64, base: U64, d: int)
    ensures Wrap(Wrap(value + d) - base) == Wrap(Wrap(value - base) + d)
  {
    WrapAdd(value + d, -(base as int));
    WrapAdd(value - base, d);
  }

  /** `(p + n) - n == p`. */
  lemma AddThenSub(p: Ptr, n: int)
    ensures Sub(Add(p, n), n) == p
  {
    WrapAdd(p.value + n * p.size, -n * p.size);
  }

  /** `(p - n) + n == p`. */
  lemma SubThenAdd(p: Ptr, n: int)
    ensures Add(Sub(p, n), n) == p
  {
    WrapAdd(p.value - n * p.size, n * p.size);
  }

  /** `p[i]` is `*(p + i)`, for negative `i` too (`deallocate` reads `[-1]`). */
  lemma IndexIsAdd(p: Ptr, i: int)
    ensures ElementAddress(p, i) == Add(p, i).value
    ensures ElementAddress(p, 0) == p.value
  {
  }

  // ---------------------------------------------------------------------------------------
  // Little-endian encoding of integers in guest memory
  // ---------------------------------------------------------------------------------------

  function Pow256(n: nat): (r: nat)
    ensures r >= 1
  {
    if n == 0 then 1 else 256 * Pow256(n - 1)
  }

  /** The unsigned integer stored little-endian in `bytes`. */
  function LittleEndian(bytes: seq<Byte>): nat
  {
    if bytes == [] then 0 else bytes[0] + 256 * LittleEndian(bytes[1..])
  }

  /** The `n` low bytes of `x`, least significant first. */
  function Encode(x: nat, n: nat): (bytes: seq<Byte>)
    ensures |bytes| == n
  {
    if n == 0 then [] else [x % 256] + Encode(x / 256, n - 1)
  }

  /** `n` little-endian bytes hold less than 256^n. */
  lemma {:induction false} LittleEndianBound(bytes: seq<Byte>)
    ensures LittleEndian(bytes) < Pow256(|bytes|)
  {
    if bytes != [] {
      LittleEndianBound(bytes[1..]);
    }
  }

  /** Decoding the encoding of a value that fits gives the value back. */
  lemma {:induction false} DecodeEncode(x: nat, n: nat)
    requires x < Pow256(n)
    ensures LittleEndian(Encode(x, n)) == x
  {
    if n > 0 {
      DecodeEncode(x / 256, n - 1);
      assert Encode(x, n)[1..] == Encode(x / 256, n - 1);
    }
  }

  /** Encoding a decoded byte string gives the bytes back. */
  lemma {:induction false} EncodeDecode(bytes: seq<Byte>)
    ensures Encode(LittleEndian(bytes), |bytes|) == bytes
  {
    if bytes != [] {
      var rest := bytes[1..];
      EncodeDecode(rest);
      var x := LittleEndian(bytes);
      DivMod256(bytes[0] as nat, LittleEndian(rest));
      assert Encode(x, |bytes|) == [x % 256] + Encode(x / 256, |rest|);
      assert bytes == [bytes[0]] + rest;
    }
  }

  lemma DivMod256(b: nat, r: nat)
    requires b < 256
    ensures (b + 256 * r) % 256 == b && (b + 256 * r) / 256 == r
  {
  }

  /** A 64-bit word as its 8 little-endian bytes. */
  function WordBytes(x: U64): (bytes: seq<Byte>)
    ensures |bytes| == 8
  {
    Encode(x, 8)
  }

  /** The 64-bit word in 8 little-endian bytes. */
  function WordOf(bytes: seq<Byte>): (x: U64)
    requires |bytes| == 8
  {
    LittleEndianBound(bytes);
    LittleEndian(bytes)
  }

  /** Writing a word and reading it back gives the word. */
  lemma WordRoundTrip(x: U64)
    ensures WordOf(WordBytes(x)) == x
  {
    DecodeEncode(x, 8);
  }

  // ---------------------------------------------------------------------------------------
  // Guest memory as a sequence of bytes
  // ---------------------------------------------------------------------------------------

  /** `n` bytes at `addr` lie inside memory of the given size. */
  predicate Inside(size: nat, addr: int, n: nat)
  {
    0 <= addr && addr + n <= size
  }

  /** The bytes at `addr`, or None when they are not all inside memory. */
  function Bytes(mem: seq<Byte>, addr: int, n: nat): (r: Option<seq<Byte>>)
    ensures r.Some? <==> Inside(|mem|, addr, n)
    ensures r.Some? ==> |r.value| == n
    ensures r.Some? ==> forall k :: 0 <= k < n ==> r.value[k] == mem[addr + k]
  {
    if Inside(|mem|, addr, n) then Some(mem[addr..addr + n]) else None
  }

  /** The 64-bit word at `addr`, or None outside memory. */
  function Word(mem: seq<Byte>, addr: int): (r: Option<U64>)
    ensures r.Some? <==> Inside(|mem|, addr, 8)
  {
    if Inside(|mem|, addr, 8) then Some(WordOf(mem[addr..addr + 8])) else None
  }

  /** `mem` with `bytes` written at `addr`. */
  function Splice(mem: seq<Byte>, addr: nat, bytes: seq<Byte>): (r: seq<Byte>)
    requires addr + |bytes| <= |mem|
    ensures |r| == |mem|
    ensures forall i :: 0 <= i < |mem| ==>
      r[i] == if addr <= i < addr + |bytes| then bytes[i - addr] else mem[i]
  {
    mem[..addr] + bytes + mem[addr + |bytes|..]
  }

  /** Bytes just written read back. */
  lemma BytesAfterSplice(mem: seq<Byte>, addr: nat, bytes: seq<Byte>)
    requires addr + |bytes| <= |mem|
    ensures Bytes(Splice(mem, addr, bytes), addr, |bytes|) == Some(bytes)
  {
    var r := Splice(mem, addr, bytes);
    assert r[addr..addr + |bytes|] == bytes;
  }

  /** A word just written reads back. */
  lemma WordAfterStore(mem: seq<Byte>, addr: nat, x: U64)
    requires addr + 8 <= |mem|
    ensures Word(Splice(mem, addr, WordBytes(x)), addr) == Some(x)
  {
    BytesAfterSplice(mem, addr, WordBytes(x));
    WordRoundTrip(x);
  }

  /** A read of bytes the write does not touch sees the old contents. */
  lemma BytesFrame(mem: seq<Byte>, addr: nat, bytes: seq<Byte>, at: int, n: nat)
    requires addr + |bytes| <= |mem|
    requires at + n <= addr || addr + |bytes| <= at
    ensures Bytes(Splice(mem, addr, bytes), at, n) == Bytes(mem, at, n)
  {
    var r := Splice(mem, addr, bytes);
    if Inside(|mem|, at, n) {
      assert r[at..at + n] == mem[at..at + n];
    }
  }

  /** A word the write does not touch reads as before. */
  lemma WordFrame(mem: seq<Byte>, addr: nat, bytes: seq<Byte>, at: int)
    requires addr + |bytes| <= |mem|
    requires at + 8 <= addr || addr + |bytes| <= at
    ensures Word(Splice(mem, addr, bytes), at) == Word(mem, at)
  {
    BytesFrame(mem, addr, bytes, at, 8);
  }

  /** The UTF-16 code unit at `addr`. */
  function Unit16(mem: seq<Byte>, addr: nat): nat
    requires addr + 2 <= |mem|
  {
    mem[addr] as int + 256 * mem[addr + 1] as int
  }

  /**
   * A `char16_t*` read as `std::u16string_view`: the code units up to the first zero unit, or
   * None when the memory ends first.
   */
  function String16(mem: seq<Byte>, addr: nat): (r: Option<seq<nat>>)
    ensures r.Some? ==> addr + 2 * |r.value| + 2 <= |mem|
    ensures r.Some? ==> forall k :: 0 <= k < |r.value| ==> r.value[k] == Unit16(mem, addr + 2 * k) != 0
    ensures r.Some? ==> Unit16(mem, addr + 2 * |r.value|) == 0
    decreases |mem| - addr
  {
    if addr + 2 > |mem| then None
    else if Unit16(mem, addr) == 0 then Some([])
    else
      match String16(mem, addr + 2)
      case None => None
      case Some(rest) => Some([Unit16(mem, addr)] + rest)
  }

  lemma UnitsShift(mem: seq<Byte>, addr: nat, units: seq<nat>)
    requires units != [] && addr + 2 * |units| + 2 <= |mem|
    requires forall k :: 0 <= k < |units| ==> units[k] == Unit16(mem, addr + 2 * k) != 0
    ensures forall k :: 0 <= k < |units| - 1 ==> units[1..][k] == Unit16(mem, addr + 2 + 2 * k) != 0
  {
    forall k | 0 <= k < |units| - 1
      ensures units[1..][k] == Unit16(mem, addr + 2 + 2 * k) != 0
    {
      assert addr + 2 + 2 * k == addr + 2 * (k + 1);
      assert units[1..][k] == units[k + 1];
    }
  }

  /** The first zero unit ends the string: units before it are the string. */
  lemma {:induction false} String16Terminated(mem: seq<Byte>, addr: nat, units: seq<nat>)
    requires addr + 2 * |units| + 2 <= |mem|
    requires forall k :: 0 <= k < |units| ==> units[k] == Unit16(mem, addr + 2 * k) != 0
    requires Unit16(mem, addr + 2 * |units|) == 0
    ensures String16(mem, addr) == Some(units)
    decreases |units|
  {
    if units != [] {
      var rest := units[1..];
      UnitsShift(mem, addr, units);
      assert addr + 2 + 2 * |rest| == addr + 2 * |units|;
      String16Terminated(mem, addr + 2, rest);
      assert addr + 2 <= |mem| && Unit16(mem, addr) == units[0] != 0;
      assert String16(mem, addr) == Some([units[0]] + rest);
      assert [units[0]] + rest == units;
    }
  }

  // ---------------------------------------------------------------------------------------
  // The machine: guest memory and vCPU registers
  // ---------------------------------------------------------------------------------------

  /** The general-purpose registers the host touches (`kvm_regs`). */
  datatype Regs = Regs(rax: U64, rbx: U64, rcx: U64, rdx: U64, rsp: U64, rip: U64, rflags: U64)

  /** A segment register (`kvm_segment`). */
  datatype Segment = Segment(
    base: U64, limit: nat, selector: nat, segType: nat,
    present: nat, dpl: nat, db: nat, s: nat, l: nat, g: nat)

  /** The special registers the host sets (`kvm_sregs`). */
  datatype Sregs = Sregs(
    cs: Segment, ds: Segment, es: Segment, fs: Segment, gs: Segment, ss: Segment,
    cr0: bv64, cr3: bv64, cr4: bv64, efer: bv64)

  /** `Machine`: the guest memory mapping and the vCPU's registers. */
  class Machine {
    const memory: array<Byte>
    var regs: Regs
    var sregs: Sregs

    predicate Valid()
      reads this
    {
      memory.Length == Arena
    }

    /**
     * The constructor with a successful `mmap`: a fresh zero-filled mapping of
     * 0x4000'0000 bytes; the vCPU starts with the registers KVM gives it.
     */
    constructor (regs0: Regs, sregs0: Sregs)
      ensures Valid() && fresh(memory)
      ensures forall i :: 0 <= i < Arena ==> memory[i] == 0
      ensures regs == regs0 && sregs == sregs0
    {
      memory := new Byte[Arena](_ => 0);
      regs := regs0;
      sregs := sregs0;
    }

    /** The 64-bit word at guest address `addr`, None outside the arena. */
    function Load(addr: int): (r: Option<U64>)
      reads this, memory
      ensures r == Word(memory[..], addr)
    {
      if 0 <= addr && addr + 8 <= memory.Length then
        assert memory[addr..addr + 8] == memory[..][addr..addr + 8];
        Some(WordOf(memory[addr..addr + 8]))
      else None
    }

    /** `memcpy`/`std::copy` into guest memory: `bytes` land at `addr`, nothing else changes. */
    method Write(addr: nat, bytes: seq<Byte>)
      requires addr + |bytes| <= memory.Length
      modifies memory
      ensures memory[..] == Splice(old(memory[..]), addr, bytes)
    {
      ghost var before := memory[..];
      for k := 0 to |bytes|
        invariant forall i :: 0 <= i < memory.Length ==>
          memory[i] == if addr <= i < addr + k then bytes[i - addr] else before[i]
      {
        memory[addr + k] := bytes[k];
      }
      assert memory[..] == Splice(before, addr, bytes);
    }

    /** `*p = x` for a `std::uint64_t` at guest address `addr`. */
    method Store(addr: nat, x: U64)
      requires addr + 8 <= memory.Length
      modifies memory
      ensures memory[..] == Splice(old(memory[..]), addr, WordBytes(x))
      ensures Load(addr) == Some(x)
    {
      Write(addr, WordBytes(x));
      WordAfterStore(old(memory[..]), addr, x);
    }
  }

  /**
   * The `Machine` constructor: `mmap` of the arena, or the `std::system_error` it throws when
   * the mapping fails (`mapped` is false), which nothing catches.
   */
  method Create(mapped: bool, regs0: Regs, sregs0: Sregs) returns (r: Option<Machine>)
    ensures r.Some? <==> mapped
    ensures r.Some? ==> fresh(r.value) && fresh(r.value.memory) && r.value.Valid()
    ensures r.Some? ==> forall i :: 0 <= i < Arena ==> r.value.memory[i] == 0
  {
    if !mapped {
      return None;
    }
    var m := new Machine(regs0, sregs0);
    return Some(m);
  }
}
