/**
 * Model of UIU.h: the host's firmware services. The guest calls a service by writing its tag
 * to I/O port 0xff with the address of a block of 64-bit arguments in rdx; the host runs the
 * service against its tables and guest memory and puts the EFI_STATUS in rax.
 *
 * State: the protocol registry `handleDb` (handle -> protocol GUID -> interface), the next
 * handle number `handleCounter`, the variable store `variables` (vendor GUID -> UTF-16 name ->
 * bytes), the blocks the pool resource has handed out (`live`), and what `OutputString`
 * printed (`console`).
 *
 * A guest address outside the memory arena is undefined behaviour in the source; the model
 * ends the process there with `Fault`. `std::terminate()` and uncaught exceptions end it
 * with `Terminate`.
 */
module Uiu {
  import opened Wrappers
  import opened Machine

  // EFI_STATUS codes (UEFI specification, appendix D): error codes have the top bit set.
  const Success: U64 := 0
  const InvalidParameter: U64 := 0x8000_0000_0000_0002
  const Unsupported: U64 := 0x8000_0000_0000_0003
  const BufferTooSmall: U64 := 0x8000_0000_0000_0005
  const NotFound: U64 := 0x8000_0000_0000_000E

  /** `EFI_NATIVE_INTERFACE`, the only `EFI_INTERFACE_TYPE`. */
  const NativeInterface: nat := 0
  /** `ByProtocol`, the third `EFI_LOCATE_SEARCH_TYPE`. */
  const ByProtocol: nat := 2

  /** The pool: `[0x2000'0000, 0x3800'0000)` of guest memory. */
  const PoolStart: nat := 0x2000_0000
  const PoolEnd: nat := 0x3800_0000

  /** An `EFI_GUID`: 16 bytes compared with `memcmp`. */
  type Guid = seq<Byte>
  /** A `std::u16string`: UTF-16 code units. */
  type Name16 = seq<nat>

  /** How a service call ends: a status for rax, or the end of the host process. */
  datatype Outcome = Status(code: U64) | Terminate | Fault

  /** An enumeration argument: the low 32 bits of the 64-bit word. */
  function Low32(x: U64): nat
  {
    x % 0x1_0000_0000
  }

  // ---------------------------------------------------------------------------------------
  // The pool resource, abstractly: disjoint blocks inside the pool range
  // ---------------------------------------------------------------------------------------

  /** A block the pool resource handed out: its size and alignment. */
  datatype Block = Block(size: nat, align: nat)

  predicate Disjoint(a: nat, sa: nat, b: nat, sb: nat)
  {
    a + sa <= b || b + sb <= a
  }

  /** Every live block lies in the pool and no two overlap. */
  predicate PoolValid(live: map<nat, Block>)
  {
    (forall a :: a in live ==> PoolStart <= a && a + live[a].size <= PoolEnd) &&
    (forall a, b :: a in live && b in live && a != b ==> Disjoint(a, live[a].size, b, live[b].size))
  }

  /** A placement the resource may choose for a new block. */
  predicate Fits(live: map<nat, Block>, at: nat, size: nat, align: nat)
  {
    align > 0 && at % align == 0 && PoolStart <= at && at + size <= PoolEnd && at !in live &&
    forall b :: b in live ==> Disjoint(at, size, b, live[b].size)
  }

  /** The bytes `allocate(size)` requests: `size + 8` as a `std::size_t`. */
  function Request(size: U64): U64
  {
    Wrap(size + 8)
  }

  /** `std::min(8zu, align)`. */
  function MinAlign(align: nat): nat
  {
    if align < 8 then align else 8
  }

  /** Adding a fitting block keeps the pool valid. */
  lemma AddBlock(live: map<nat, Block>, at: nat, b: Block)
    requires PoolValid(live) && Fits(live, at, b.size, b.align)
    ensures PoolValid(live[at := b])
  {
  }

  /** Removing a block keeps the pool valid. */
  lemma RemoveBlock(live: map<nat, Block>, at: nat)
    requires PoolValid(live)
    ensures PoolValid(live - {at})
  {
  }

  /** The block that `deallocate(p, align)` releases is live with exactly the recorded size. */
  predicate FreeOk(live: map<nat, Block>, mem: seq<Byte>, p: int, align: nat)
  {
    Word(mem, p - 8).Some? && p - 8 in live &&
    live[p - 8] == Block(Request(Word(mem, p - 8).value), MinAlign(align))
  }

  /**
   * `deallocate` after `allocate` hands back exactly the allocated block: the header holds the
   * size, the block is live with size `size + 8` and the same alignment, and releasing it
   * restores the blocks that were live before.
   */
  lemma FreeAfterAllocate(live: map<nat, Block>, mem: seq<Byte>, size: U64, align: nat, at: nat)
    requires PoolValid(live) && |mem| == Arena
    requires Fits(live, at, Request(size), MinAlign(align))
    ensures FreeOk(live[at := Block(Request(size), MinAlign(align))],
                   Splice(mem, at, WordBytes(size)), at + 8, align)
    ensures live[at := Block(Request(size), MinAlign(align))] - {at} == live
  {
    WordAfterStore(mem, at, size);
    assert at + 8 - 8 == at;
  }

  // ---------------------------------------------------------------------------------------
  // The registry and the variable store as values
  // ---------------------------------------------------------------------------------------

  /** `insert({guid, iface})` on a handle's protocol map: an existing entry is kept. */
  function Installed(protocols: map<Guid, U64>, g: Guid, iface: U64): (r: map<Guid, U64>)
    ensures g in r
    ensures g in protocols ==> r == protocols
    ensures g !in protocols ==> r[g] == iface && forall k :: k in protocols ==> k in r && r[k] == protocols[k]
    ensures r.Keys == protocols.Keys + {g}
  {
    if g in protocols then protocols else protocols[g := iface]
  }

  /** Some handle exposes the protocol. */
  predicate Exposes(db: map<U64, map<Guid, U64>>, g: Guid)
  {
    exists h :: h in db && g in db[h]
  }

  /** The stored value of a variable, if any. */
  function Lookup(vars: map<Guid, map<Name16, seq<Byte>>>, g: Guid, name: Name16): Option<seq<Byte>>
  {
    if g in vars && name in vars[g] then Some(vars[g][name]) else None
  }

  /** The store after `variables[g][name] = bytes`. */
  function Stored(vars: map<Guid, map<Name16, seq<Byte>>>, g: Guid, name: Name16, bytes: seq<Byte>)
    : map<Guid, map<Name16, seq<Byte>>>
  {
    var inner := if g in vars then vars[g] else map[];
    vars[g := inner[name := bytes]]
  }

  /** The store after `variables[g].erase(name)` (which creates an empty map for `g`). */
  function Erased(vars: map<Guid, map<Name16, seq<Byte>>>, g: Guid, name: Name16)
    : map<Guid, map<Name16, seq<Byte>>>
  {
    var inner := if g in vars then vars[g] else map[];
    vars[g := inner - {name}]
  }

  /** A stored variable reads back as stored. */
  lemma LookupStored(vars: map<Guid, map<Name16, seq<Byte>>>, g: Guid, name: Name16, bytes: seq<Byte>)
    ensures Lookup(Stored(vars, g, name, bytes), g, name) == Some(bytes)
  {
  }

  /** An erased variable is not found. */
  lemma LookupErased(vars: map<Guid, map<Name16, seq<Byte>>>, g: Guid, name: Name16)
    ensures Lookup(Erased(vars, g, name), g, name) == None
  {
  }

  /** Storing or erasing one variable leaves every other variable as it was. */
  lemma LookupOthers(vars: map<Guid, map<Name16, seq<Byte>>>, g: Guid, name: Name16, bytes: seq<Byte>,
                     g2: Guid, name2: Name16)
    requires g2 != g || name2 != name
    ensures Lookup(Stored(vars, g, name, bytes), g2, name2) == Lookup(vars, g2, name2)
    ensures Lookup(Erased(vars, g, name), g2, name2) == Lookup(vars, g2, name2)
  {
  }

  /** The handles as `std::copy` writes them: 8 little-endian bytes each. */
  function HandleBytes(handles: seq<U64>): (r: seq<Byte>)
    ensures |r| == 8 * |handles|
  {
    if handles == [] then [] else WordBytes(handles[0]) + HandleBytes(handles[1..])
  }

  /** The first handle copied occupies the first word. */
  lemma FirstHandle(handles: seq<U64>)
    requires handles != []
    ensures WordOf(HandleBytes(handles)[..8]) == handles[0]
  {
    assert HandleBytes(handles)[..8] == WordBytes(handles[0]);
    WordRoundTrip(handles[0]);
  }

  predicate Distinct(s: seq<U64>)
  {
    forall i, j :: 0 <= i < j < |s| ==> s[i] != s[j]
  }

  // ---------------------------------------------------------------------------------------
  // The service tags and the dispatcher's view of a call
  // ---------------------------------------------------------------------------------------

  /**
   * `UIUAPITag`. Tags 0 to 6 are numbered as in API.h; the tags the dispatcher also handles
   * (Trap and the rest) are not in that enumeration and are numbered 7 to 12 here.
   */
  datatype Tag =
    | ExitTag | HandleProtocolTag | GetVariableTag | AllocatePoolTag | FreePoolTag
    | LocateHandleTag | OutputStringTag | TrapTag | LocateProtocolTag
    | InstallProtocolInterfaceTag | GetRngTag | SetVariableTag | LocateHandleBufferTag

  function TagOf(nr: int): (t: Option<Tag>)
    ensures t.Some? <==> 0 <= nr <= 12
  {
    match nr
    case 0 => Some(ExitTag)
    case 1 => Some(HandleProtocolTag)
    case 2 => Some(GetVariableTag)
    case 3 => Some(AllocatePoolTag)
    case 4 => Some(FreePoolTag)
    case 5 => Some(LocateHandleTag)
    case 6 => Some(OutputStringTag)
    case 7 => Some(TrapTag)
    case 8 => Some(LocateProtocolTag)
    case 9 => Some(InstallProtocolInterfaceTag)
    case 10 => Some(GetRngTag)
    case 11 => Some(SetVariableTag)
    case 12 => Some(LocateHandleBufferTag)
    case _ => None
  }

  /** The number of arguments of each service (`std::tuple_size_v<Fn::Args>`). */
  function Arity(t: Tag): nat
  {
    match t
    case ExitTag => 1
    case HandleProtocolTag => 3
    case GetVariableTag => 5
    case AllocatePoolTag => 3
    case FreePoolTag => 1
    case LocateHandleTag => 5
    case OutputStringTag => 2
    case TrapTag => 0
    case LocateProtocolTag => 3
    case InstallProtocolInterfaceTag => 4
    case GetRngTag => 4
    case SetVariableTag => 5
    case LocateHandleBufferTag => 5
  }

  /** `params[0..n)`: the 64-bit words at rdx, rdx + 8, ...; None when one lies outside memory. */
  function Params(mem: seq<Byte>, rdx: U64, n: nat): (r: Option<seq<U64>>)
    ensures r.Some? <==> forall i :: 0 <= i < n ==> Word(mem, rdx + 8 * i).Some?
    ensures r.Some? ==> |r.value| == n && forall i :: 0 <= i < n ==> r.value[i] == Word(mem, rdx + 8 * i).value
  {
    if n == 0 then Some([])
    else
      match Params(mem, rdx, n - 1)
      case None => None
      case Some(init) =>
        match Word(mem, rdx + 8 * (n - 1))
        case None => None
        case Some(w) => Some(init + [w])
  }

  /** `IOExitStatus`, or the end of the process during the call. */
  datatype Dispatched = Continue | ExitCall | TrapCall | Abort(reason: Outcome)

  /** A vCPU exit: an I/O exit (direction, port, the 16-bit datum, the guest's registers) or another reason. */
  datatype VcpuExit =
    | IoExit(out: bool, port: nat, nr: int, regs: Regs)
    | OtherExit(reason: nat)

  /** An exit the run loop treats as a service call: OUT on port 0xff. */
  predicate IsCall(e: VcpuExit)
  {
    e.IoExit? && e.out && e.port == 0xff
  }

  /** How `run` ended. */
  datatype RunEnd =
    | Exited            // the Exit service
    | Stopped           // any other exit, including Trap: the register dump and `break`
    | Died(reason: Outcome)
    | OutOfExits        // the script of exits ran out (the source loops forever)

  // ---------------------------------------------------------------------------------------
  // The UIU object
  // ---------------------------------------------------------------------------------------

  class Uiu {
    const machine: Machine
    var live: map<nat, Block>
    var handleDb: map<U64, map<Guid, U64>>
    var handleCounter: U64
    var variables: map<Guid, map<Name16, seq<Byte>>>
    var console: seq<Name16>

    predicate Valid()
      reads this, machine
    {
      machine.Valid() && PoolValid(live)
    }

    /** Guest memory. */
    function Mem(): seq<Byte>
      reads machine.memory
    {
      machine.memory[..]
    }

    /** `UIU(kvm)`: empty tables, an empty pool, and handle numbers starting at 1. */
    constructor (m: Machine)
      requires m.Valid()
      ensures machine == m && Valid()
      ensures live == map[] && handleDb == map[] && variables == map[] && console == []
      ensures handleCounter == 1
    {
      machine := m;
      live := map[];
      handleDb := map[];
      handleCounter := 1;
      variables := map[];
      console := [];
    }

    /** `*ptr = x` through a guest pointer; false when the word is outside the arena. */
    method Put(addr: int, x: U64) returns (ok: bool)
      requires Valid()
      modifies machine.memory
      ensures ok <==> Inside(Arena, addr, 8)
      ensures ok ==> Mem() == Splice(old(Mem()), addr, WordBytes(x))
      ensures !ok ==> Mem() == old(Mem())
    {
      if 0 <= addr && addr + 8 <= Arena {
        machine.Store(addr, x);
        return true;
      }
      return false;
    }

    /**
     * `allocate(size, align)`: a block of `size + 8` bytes at alignment `min(8, align)` from the
     * pool resource, `size` written in its first 8 bytes, and the address after them returned.
     * The resource returns some free placement; when there is none it throws `std::bad_alloc`.
     */
    method Allocate(size: U64, align: nat) returns (r: Option<U64>)
      requires Valid()
      modifies this`live, machine.memory
      ensures Valid()
      ensures r.None? <==> !exists at :: PoolStart <= at < PoolEnd && Fits(old(live), at, Request(size), MinAlign(align))
      ensures r.Some? ==> r.value >= 8 && Fits(old(live), r.value - 8, Request(size), MinAlign(align))
      ensures r.Some? ==> live == old(live)[r.value - 8 := Block(Request(size), MinAlign(align))]
      ensures r.Some? ==> Mem() == Splice(old(Mem()), r.value - 8, WordBytes(size))
      ensures r.None? ==> live == old(live) && Mem() == old(Mem())
    {
      var request := Request(size);
      var a := MinAlign(align);
      if !exists at :: PoolStart <= at < PoolEnd && Fits(live, at, request, a) {
        return None;
      }
      var at :| PoolStart <= at < PoolEnd && Fits(live, at, request, a);
      AddBlock(live, at, Block(request, a));
      live := live[at := Block(request, a)];
      machine.Store(at, size);
      return Some(at + 8);
    }

    /**
     * `deallocate(p, align)`: reads the size at `p - 8` and returns `(p - 8, size + 8,
     * min(8, align))` to the resource. False when that is not a live block of that size and
     * alignment: undefined behaviour of the resource.
     */
    method Deallocate(p: U64, align: nat) returns (ok: bool)
      requires Valid()
      modifies this`live
      ensures Valid()
      ensures ok <==> FreeOk(old(live), Mem(), p, align)
      ensures ok ==> live == old(live) - {p - 8}
      ensures !ok ==> live == old(live)
    {
      var size := machine.Load(p - 8);
      if size.None? || p - 8 !in live || live[p - 8] != Block(Request(size.value), MinAlign(align)) {
        return false;
      }
      RemoveBlock(live, p - 8);
      live := live - {p - 8};
      return true;
    }

    /**
     * `handle_protocol(Handle, Protocol, Interface)`: the interface registered for the
     * protocol on the handle, written to `*Interface`.
     */
    /** What `handle_protocol` returns and writes, case by case. */
    twostate predicate HandleProtocolSpec(handle: U64, protocol: U64, iface: U64, r: Outcome)
      requires machine.memory.Length == Arena
      reads this, machine.memory
    {
      (handle == 0 || protocol == 0 || iface == 0 ==>
         r == Status(InvalidParameter) && Mem() == old(Mem())) &&
      (handle != 0 && protocol != 0 && iface != 0 && handle !in handleDb ==>
         r == Status(Unsupported) && Mem() == old(Mem())) &&
      (handle != 0 && protocol != 0 && iface != 0 && handle in handleDb ==>
         match Bytes(old(Mem()), protocol, 16)
         case None => r == Fault
         case Some(g) =>
           if g !in handleDb[handle] then r == Status(Unsupported) && Mem() == old(Mem())
           else if !Inside(Arena, iface, 8) then r == Fault
           else r == Status(Success) && Mem() == Splice(old(Mem()), iface, WordBytes(handleDb[handle][g])))
    }

    method HandleProtocol(handle: U64, protocol: U64, iface: U64) returns (r: Outcome)
      requires Valid()
      modifies machine.memory
      ensures Valid()
      ensures HandleProtocolSpec(handle, protocol, iface, r)
    {
      if handle == 0 || protocol == 0 || iface == 0 {
        return Status(InvalidParameter);
      }
      if handle !in handleDb {
        return Status(Unsupported);
      }
      var g := Bytes(Mem(), protocol, 16);
      if g.None? {
        return Fault;
      }
      if g.value !in handleDb[handle] {
        return Status(Unsupported);
      }
      var ok := Put(iface, handleDb[handle][g.value]);
      if !ok {
        return Fault;
      }
      return Status(Success);
    }

    /**
     * `locate_protocol(Protocol, Registration, Interface)`: the interface of the first handle,
     * in the registry's unspecified iteration order, that exposes the protocol.
     */
    /** What `locate_protocol` returns and writes, case by case. */
    twostate predicate LocateProtocolSpec(protocol: U64, registration: U64, iface: U64, r: Outcome)
      requires machine.memory.Length == Arena
      reads this, machine.memory
    {
      (registration != 0 ==> r == Terminate) &&
      (registration == 0 && (protocol == 0 || iface == 0) ==>
         r == Status(InvalidParameter) && Mem() == old(Mem())) &&
      (registration == 0 && protocol != 0 && iface != 0 ==>
         match Bytes(old(Mem()), protocol, 16)
         case None => r == Fault
         case Some(g) =>
           (r == Status(NotFound) <==> !Exposes(handleDb, g)) &&
           (r == Status(NotFound) ==> Mem() == old(Mem())) &&
           (r == Status(Success) ==>
              Inside(Arena, iface, 8) &&
              (exists h :: h in handleDb && g in handleDb[h] &&
                 Mem() == Splice(old(Mem()), iface, WordBytes(handleDb[h][g])))) &&
           (r == Fault <==> Exposes(handleDb, g) && !Inside(Arena, iface, 8)) &&
           (r.Status? ==> r.code == Success || r.code == NotFound))
    }

    method LocateProtocol(protocol: U64, registration: U64, iface: U64) returns (r: Outcome)
      requires Valid()
      modifies machine.memory
      ensures Valid()
      ensures LocateProtocolSpec(protocol, registration, iface, r)
    {
      if registration != 0 {
        return Terminate;
      }
      if protocol == 0 || iface == 0 {
        return Status(InvalidParameter);
      }
      var g := Bytes(Mem(), protocol, 16);
      if g.None? {
        return Fault;
      }
      var keys := handleDb.Keys;
      while keys != {}
        invariant keys <= handleDb.Keys
        invariant forall h :: h in handleDb && h !in keys ==> g.value !in handleDb[h]
        decreases |keys|
      {
        var h :| h in keys;
        if g.value in handleDb[h] {
          var ok := Put(iface, handleDb[h][g.value]);
          if !ok {
            return Fault;
          }
          return Status(Success);
        }
        keys := keys - {h};
      }
      return Status(NotFound);
    }

    /**
     * `install_protocol_interface(Handle, Protocol, InterfaceType, Interface)`: a null
     * `*Handle` gets the next handle number (written back); then the protocol is inserted for
     * the handle unless the handle already has it.
     */
    /** What `install_protocol_interface` returns, writes and registers, case by case. */
    twostate predicate InstallProtocolInterfaceSpec(handlePtr: U64, protocol: U64, ifaceType: U64, iface: U64,
                                                    r: Outcome)
      requires machine.memory.Length == Arena
      reads this, machine.memory
    {
      (handlePtr == 0 || protocol == 0 || Low32(ifaceType) != NativeInterface ==>
         r == Status(InvalidParameter) && Mem() == old(Mem()) &&
         handleDb == old(handleDb) && handleCounter == old(handleCounter)) &&
      (handlePtr != 0 && protocol != 0 && Low32(ifaceType) == NativeInterface ==>
         match Word(old(Mem()), handlePtr)
         case None => r == Fault
         case Some(h0) =>
           if h0 == 0 && old(handleCounter) in old(handleDb) then r == Terminate
           else
             var h := if h0 == 0 then old(handleCounter) else h0;
             var mem1 := if h0 == 0 then Splice(old(Mem()), handlePtr, WordBytes(h)) else old(Mem());
             handleCounter == (if h0 == 0 then Wrap(old(handleCounter) + 1) else old(handleCounter)) &&
             match Bytes(mem1, protocol, 16)
             case None => r == Fault
             case Some(g) =>
               r == Status(Success) && Mem() == mem1 &&
               handleDb == old(handleDb)[h := Installed(if h in old(handleDb) then old(handleDb)[h] else map[], g, iface)])
    }

    method InstallProtocolInterface(handlePtr: U64, protocol: U64, ifaceType: U64, iface: U64)
      returns (r: Outcome)
      requires Valid()
      modifies this`handleDb, this`handleCounter, machine.memory
      ensures Valid()
      ensures InstallProtocolInterfaceSpec(handlePtr, protocol, ifaceType, iface, r)
    {
      if handlePtr == 0 || protocol == 0 {
        return Status(InvalidParameter);
      }
      if Low32(ifaceType) != NativeInterface {
        return Status(InvalidParameter);
      }
      var slot := machine.Load(handlePtr);
      if slot.None? {
        return Fault;
      }
      var h := slot.value;
      if h == 0 {
        h := handleCounter;
        if h in handleDb {
          return Terminate;
        }
        handleDb := handleDb[h := map[]];
        handleCounter := Wrap(handleCounter + 1);
        machine.Store(handlePtr, h);
      }
      var g := Bytes(Mem(), protocol, 16);
      if g.None? {
        return Fault;
      }
      var protocols := if h in handleDb then handleDb[h] else map[];
      handleDb := handleDb[h := Installed(protocols, g.value, iface)];
      return Status(Success);
    }

    /**
     * `get_variable(VariableName, VendorGuid, Attributes, DataSize, Data)`: the stored bytes
     * copied to `Data` when `*DataSize` is large enough. `*DataSize` is only read, `Attributes`
     * is ignored, and the store is not changed.
     */
    /** What `get_variable` returns and copies, case by case. */
    twostate predicate GetVariableSpec(namePtr: U64, guidPtr: U64, attributes: U64, dataSizePtr: U64, data: U64,
                                       r: Outcome)
      requires machine.memory.Length == Arena
      reads this, machine.memory
    {
      (namePtr == 0 || guidPtr == 0 || dataSizePtr == 0 ==>
         r == Status(InvalidParameter) && Mem() == old(Mem())) &&
      (namePtr != 0 && guidPtr != 0 && dataSizePtr != 0 ==>
         var name := String16(old(Mem()), namePtr);
         var g := Bytes(old(Mem()), guidPtr, 16);
         if name.None? || g.None? then r == Fault
         else
           match Lookup(variables, g.value, name.value)
           case None => r == Status(NotFound) && Mem() == old(Mem())
           case Some(value) =>
             match Word(old(Mem()), dataSizePtr)
             case None => r == Fault
             case Some(size) =>
               if size < |value| then r == Status(BufferTooSmall) && Mem() == old(Mem())
               else if data == 0 then r == Status(InvalidParameter) && Mem() == old(Mem())
               else if !Inside(Arena, data, |value|) then r == Fault
               else r == Status(Success) && Mem() == Splice(old(Mem()), data, value))
    }

    method GetVariable(namePtr: U64, guidPtr: U64, attributes: U64, dataSizePtr: U64, data: U64)
      returns (r: Outcome)
      requires Valid()
      modifies machine.memory
      ensures Valid()
      ensures GetVariableSpec(namePtr, guidPtr, attributes, dataSizePtr, data, r)
    {
      if namePtr == 0 || guidPtr == 0 || dataSizePtr == 0 {
        return Status(InvalidParameter);
      }
      var name := String16(Mem(), namePtr);
      if name.None? {
        return Fault;
      }
      var g := Bytes(Mem(), guidPtr, 16);
      if g.None? {
        return Fault;
      }
      if g.value in variables && name.value in variables[g.value] {
        var value := variables[g.value][name.value];
        var size := machine.Load(dataSizePtr);
        if size.None? {
          return Fault;
        }
        if size.value < |value| {
          return Status(BufferTooSmall);
        }
        if data == 0 {
          return Status(InvalidParameter);
        }
        if data + |value| > Arena {
          return Fault;
        }
        machine.Write(data, value);
        return Status(Success);
      }
      return Status(NotFound);
    }

    /**
     * `set_variable(VariableName, VendorGuid, Attributes, DataSize, Data)`: a copy of the
     * `DataSize` bytes at `Data` stored under (vendor GUID, name); a zero `DataSize` erases
     * the variable. `Attributes` is ignored.
     */
    /** What `set_variable` returns and stores, case by case. */
    twostate predicate SetVariableSpec(namePtr: U64, guidPtr: U64, attributes: U64, dataSize: U64, data: U64,
                                       r: Outcome)
      reads this, machine.memory
    {
      (namePtr == 0 || guidPtr == 0 || data == 0 ==>
         r == Status(InvalidParameter) && variables == old(variables)) &&
      (namePtr != 0 && guidPtr != 0 && data != 0 ==>
         match String16(Mem(), namePtr)
         case None => r == Fault
         case Some(name) =>
           if name == [] then r == Status(InvalidParameter) && variables == old(variables)
           else
             match Bytes(Mem(), guidPtr, 16)
             case None => r == Fault
             case Some(g) =>
               if dataSize == 0 then r == Status(Success) && variables == Erased(old(variables), g, name)
               else
                 match Bytes(Mem(), data, dataSize)
                 case None => r == Fault
                 case Some(bytes) => r == Status(Success) && variables == Stored(old(variables), g, name, bytes))
    }

    method SetVariable(namePtr: U64, guidPtr: U64, attributes: U64, dataSize: U64, data: U64)
      returns (r: Outcome)
      requires Valid()
      modifies this`variables
      ensures Valid()
      ensures SetVariableSpec(namePtr, guidPtr, attributes, dataSize, data, r)
    {
      if namePtr == 0 || guidPtr == 0 || data == 0 {
        return Status(InvalidParameter);
      }
      var name := String16(Mem(), namePtr);
      if name.None? {
        return Fault;
      }
      if |name.value| == 0 {
        return Status(InvalidParameter);
      }
      var g := Bytes(Mem(), guidPtr, 16);
      if g.None? {
        return Fault;
      }
      if dataSize != 0 {
        var bytes := Bytes(Mem(), data, dataSize);
        if bytes.None? {
          return Fault;
        }
        variables := Stored(variables, g.value, name.value, bytes.value);
      } else {
        variables := Erased(variables, g.value, name.value);
      }
      return Status(Success);
    }

    /**
     * `allocate_pool(PoolType, Size, Buffer)`: `allocate(Size)` and its address written to
     * `*Buffer`; `PoolType` is ignored and `Buffer` is not checked.
     */
    /** What `allocate_pool` returns, allocates and writes. */
    twostate predicate AllocatePoolSpec(poolType: U64, size: U64, buffer: U64, r: Outcome)
      requires machine.memory.Length == Arena
      reads this, machine.memory
    {
      (r != Terminate <==> exists at :: PoolStart <= at < PoolEnd && Fits(old(live), at, Request(size), MinAlign(8))) &&
      (r != Terminate ==>
         exists at: nat ::
           Fits(old(live), at, Request(size), 8) &&
           live == old(live)[at := Block(Request(size), 8)] &&
           (if Inside(Arena, buffer, 8)
            then r == Status(Success) && Mem() == Splice(Splice(old(Mem()), at, WordBytes(size)), buffer, WordBytes(at + 8))
            else r == Fault && Mem() == Splice(old(Mem()), at, WordBytes(size)))) &&
      (r == Terminate ==> live == old(live) && Mem() == old(Mem()))
    }

    method AllocatePool(poolType: U64, size: U64, buffer: U64) returns (r: Outcome)
      requires Valid()
      modifies this`live, machine.memory
      ensures Valid()
      ensures AllocatePoolSpec(poolType, size, buffer, r)
    {
      var alloc := Allocate(size, 8);
      if alloc.None? {
        return Terminate;
      }
      var ok := Put(buffer, alloc.value);
      if !ok {
        return Fault;
      }
      assert Fits(old(live), alloc.value - 8, Request(size), 8);
      return Status(Success);
    }

    /** What `free_pool` returns and releases. */
    twostate predicate FreePoolSpec(buffer: U64, r: Outcome)
      reads this, machine.memory
    {
      (FreeOk(old(live), Mem(), buffer, 8) ==> r == Status(Success) && live == old(live) - {buffer - 8}) &&
      (!FreeOk(old(live), Mem(), buffer, 8) ==> r == Fault && live == old(live))
    }

    /** `free_pool(Buffer)`: `deallocate(Buffer)`. */
    method FreePool(buffer: U64) returns (r: Outcome)
      requires Valid()
      modifies this`live
      ensures Valid()
      ensures FreePoolSpec(buffer, r)
    {
      var ok := Deallocate(buffer, 8);
      if !ok {
        return Fault;
      }
      return Status(Success);
    }

    /** `locate_handle`: not implemented, always `EFI_NOT_FOUND`. */
    method LocateHandle(searchType: U64, protocol: U64, searchKey: U64, bufferSize: U64, buffer: U64)
      returns (r: Outcome)
      ensures r == Status(NotFound)
    {
      return Status(NotFound);
    }

    /** What `output_string` returns and prints. */
    twostate predicate OutputStringSpec(this_: U64, str: U64, r: Outcome)
      reads this, machine.memory
    {
      match String16(Mem(), str)
      case None => r == Fault && console == old(console)
      case Some(text) => r == Status(Success) && console == old(console) + [text]
    }

    /** `output_string(This, String)`: the NUL-terminated UTF-16 string is printed. */
    method OutputString(this_: U64, str: U64) returns (r: Outcome)
      requires Valid()
      modifies this`console
      ensures OutputStringSpec(this_, str, r)
    {
      var text := String16(Mem(), str);
      if text.None? {
        return Fault;
      }
      console := console + [text.value];
      return Status(Success);
    }

    /** `get_rng`: succeeds without writing any random bytes. */
    method GetRng(protocol: U64, algorithm: U64, length: U64, value: U64) returns (r: Outcome)
      ensures r == Status(Success)
    {
      return Status(Success);
    }

    /**
     * The loop over `handle_db` in `locate_handle_buffer`: every handle that exposes the
     * protocol, once each, in the registry's unspecified iteration order.
     */
    method CollectHandles(g: Guid) returns (handles: seq<U64>)
      ensures forall h :: h in handles <==> h in handleDb && g in handleDb[h]
      ensures Distinct(handles)
    {
      var keys := handleDb.Keys;
      handles := [];
      while keys != {}
        invariant keys <= handleDb.Keys
        invariant forall h :: h in handles <==> h in handleDb && h !in keys && g in handleDb[h]
        invariant Distinct(handles)
        decreases |keys|
      {
        var h :| h in keys;
        if g in handleDb[h] {
          handles := handles + [h];
        }
        keys := keys - {h};
      }
    }

    /**
     * What `locate_handle_buffer` returns, allocates and writes, given the handles it found:
     * every outcome together with the exact condition for it, in the order the source meets them.
     */
    twostate predicate LocateHandleBufferSpec(searchType: U64, protocol: U64, searchKey: U64, noHandles: U64,
                                              buffer: U64, r: Outcome, handles: seq<U64>)
      requires machine.memory.Length == Arena
      reads this, machine.memory
    {
      var size := Wrap(8 * |handles|);
      (Low32(searchType) != ByProtocol ==> r == Terminate && live == old(live) && Mem() == old(Mem())) &&
      (Low32(searchType) == ByProtocol && Bytes(old(Mem()), protocol, 16).None? ==>
         r == Fault && live == old(live) && Mem() == old(Mem())) &&
      (Low32(searchType) == ByProtocol && Bytes(old(Mem()), protocol, 16).Some? ==>
         (forall h :: h in handles <==> h in handleDb && Bytes(old(Mem()), protocol, 16).value in handleDb[h]) &&
         Distinct(handles) &&
         (r == Terminate <==> !exists at :: PoolStart <= at < PoolEnd && Fits(old(live), at, Request(size), MinAlign(8))) &&
         (r == Terminate ==> live == old(live) && Mem() == old(Mem())) &&
         (r != Terminate ==>
            exists at: nat ::
              Fits(old(live), at, Request(size), 8) &&
              live == old(live)[at := Block(Request(size), 8)] &&
              if !Inside(Arena, buffer, 8) then
                r == Fault && Mem() == Splice(old(Mem()), at, WordBytes(size))
              else if !Inside(Arena, buffer, 8 * |handles|) then
                r == Fault && Mem() == Splice(Splice(old(Mem()), at, WordBytes(size)), buffer, WordBytes(at + 8))
              else
                r == Status(Success) &&
                Mem() == Splice(Splice(Splice(old(Mem()), at, WordBytes(size)), buffer, WordBytes(at + 8)),
                                buffer, HandleBytes(handles))))
    }

    /**
     * `locate_handle_buffer(SearchType, Protocol, SearchKey, NoHandles, Buffer)`: only
     * `ByProtocol` searches; the matching handles are counted, `8 * count` bytes are allocated
     * and their address is written to `*Buffer`, and then the handles are copied to the guest
     * address `Buffer` itself, over that address. `NoHandles` is not written.
     */
    method LocateHandleBuffer(searchType: U64, protocol: U64, searchKey: U64, noHandles: U64, buffer: U64)
      returns (r: Outcome, ghost handles: seq<U64>)
      requires Valid()
      modifies this`live, machine.memory
      ensures Valid()
      ensures LocateHandleBufferSpec(searchType, protocol, searchKey, noHandles, buffer, r, handles)
    {
      handles := [];
      if Low32(searchType) != ByProtocol {
        return Terminate, handles;
      }
      var g := Bytes(Mem(), protocol, 16);
      if g.None? {
        return Fault, handles;
      }
      var found := CollectHandles(g.value);
      handles := found;
      ghost var db := handleDb;
      r := AllocatePool(0, Wrap(8 * |found|), buffer);
      if r != Status(Success) {
        return r, handles;
      }
      if buffer + 8 * |found| > Arena {
        return Fault, handles;
      }
      machine.Write(buffer, HandleBytes(found));
      return Status(Success), handles;
    }

    /** A service that returns to the guest: neither Exit nor Trap. */
    static predicate IsService(t: Tag)
    {
      t != ExitTag && t != TrapTag
    }

    /** The host tables other than the pool are as they were. */
    twostate predicate TablesKept()
      reads this
    {
      handleDb == old(handleDb) && handleCounter == old(handleCounter) &&
      variables == old(variables) && console == old(console)
    }

    /**
     * What serving tag `t` on the argument words `p` does: the service's own contract on those
     * words, and no change to what that service does not touch.
     */
    twostate predicate ServiceSpec(t: Tag, p: seq<U64>, o: Outcome)
      requires machine.memory.Length == Arena && |p| == Arity(t)
      reads this, machine.memory
    {
      match t
      case HandleProtocolTag =>
        HandleProtocolSpec(p[0], p[1], p[2], o) && unchanged(this)
      case GetVariableTag =>
        GetVariableSpec(p[0], p[1], p[2], p[3], p[4], o) && unchanged(this)
      case AllocatePoolTag =>
        AllocatePoolSpec(p[0], p[1], p[2], o) && TablesKept()
      case FreePoolTag =>
        FreePoolSpec(p[0], o) && TablesKept() && Mem() == old(Mem())
      case LocateHandleTag =>
        o == Status(NotFound) && unchanged(this) && Mem() == old(Mem())
      case OutputStringTag =>
        OutputStringSpec(p[0], p[1], o) && live == old(live) && handleDb == old(handleDb) &&
        handleCounter == old(handleCounter) && variables == old(variables) && Mem() == old(Mem())
      case LocateProtocolTag =>
        LocateProtocolSpec(p[0], p[1], p[2], o) && unchanged(this)
      case InstallProtocolInterfaceTag =>
        InstallProtocolInterfaceSpec(p[0], p[1], p[2], p[3], o) &&
        live == old(live) && variables == old(variables) && console == old(console)
      case GetRngTag =>
        o == Status(Success) && unchanged(this) && Mem() == old(Mem())
      case SetVariableTag =>
        SetVariableSpec(p[0], p[1], p[2], p[3], p[4], o) && live == old(live) && handleDb == old(handleDb) &&
        handleCounter == old(handleCounter) && console == old(console) && Mem() == old(Mem())
      case LocateHandleBufferTag =>
        (exists handles :: LocateHandleBufferSpec(p[0], p[1], p[2], p[3], p[4], o, handles)) && TablesKept()
      case ExitTag => false
      case TrapTag => false
    }

    /**
     * The body of `dispatch_io_call` once the arguments are read: the service a tag names,
     * run on its argument words.
     */
    method Serve(t: Tag, p: seq<U64>) returns (o: Outcome)
      requires Valid() && IsService(t) && |p| == Arity(t)
      modifies this, machine.memory
      ensures Valid()
      ensures ServiceSpec(t, p, o)
    {
      match t {
        case HandleProtocolTag => o := HandleProtocol(p[0], p[1], p[2]);
        case GetVariableTag => o := GetVariable(p[0], p[1], p[2], p[3], p[4]);
        case AllocatePoolTag => o := AllocatePool(p[0], p[1], p[2]);
        case FreePoolTag => o := FreePool(p[0]);
        case LocateHandleTag => o := LocateHandle(p[0], p[1], p[2], p[3], p[4]);
        case OutputStringTag => o := OutputString(p[0], p[1]);
        case LocateProtocolTag => o := LocateProtocol(p[0], p[1], p[2]);
        case InstallProtocolInterfaceTag => o := InstallProtocolInterface(p[0], p[1], p[2], p[3]);
        case GetRngTag => o := GetRng(p[0], p[1], p[2], p[3]);
        case SetVariableTag => o := SetVariable(p[0], p[1], p[2], p[3], p[4]);
        case LocateHandleBufferTag =>
          ghost var handles;
          o, handles := LocateHandleBuffer(p[0], p[1], p[2], p[3], p[4]);
        case ExitTag => assert false;
        case TrapTag => assert false;
      }
    }

    /**
     * The `handle_io_call` lambda of `dispatch_io_call`: the arguments are the 64-bit words at
     * rdx, the service runs on them and its status goes to rax. An argument word outside the
     * arena is undefined behaviour; a service that ends the process leaves the registers alone.
     */
    method Call(t: Tag) returns (d: Dispatched, ghost o: Outcome)
      requires Valid() && IsService(t)
      modifies this, machine, machine.memory
      ensures Valid()
      ensures d == Continue || d.Abort?
      ensures d != Continue ==> machine.regs == old(machine.regs)
      ensures d == Continue ==> o.Status? && machine.regs == old(machine.regs).(rax := o.code)
      ensures Params(old(Mem()), old(machine.regs.rdx), Arity(t)).None? ==>
        d == Abort(Fault) && unchanged(this) && unchanged(machine.memory)
      ensures Params(old(Mem()), old(machine.regs.rdx), Arity(t)).Some? ==>
        ServiceSpec(t, Params(old(Mem()), old(machine.regs.rdx), Arity(t)).value, o) &&
        (d == Continue <==> o.Status?) && (d != Continue ==> d == Abort(o))
    {
      o := Fault;
      var args := Params(Mem(), machine.regs.rdx, Arity(t));
      if args.None? {
        return Abort(Fault), o;
      }
      var served := Serve(t, args.value);
      o := served;
      if !served.Status? {
        return Abort(served), o;
      }
      machine.regs := machine.regs.(rax := served.code);
      return Continue, o;
    }

    /**
     * `dispatch_io_call(nr)`: Exit and Trap return at once without reading the argument block
     * or writing rax; every other known tag goes through `Call`; an unknown tag is
     * `std::terminate()`.
     */
    method Dispatch(nr: int) returns (d: Dispatched, ghost o: Outcome)
      requires Valid()
      modifies this, machine, machine.memory
      ensures Valid()
      ensures TagOf(nr).None? ==> d == Abort(Terminate)
      ensures d == ExitCall <==> TagOf(nr) == Some(ExitTag)
      ensures d == TrapCall <==> TagOf(nr) == Some(TrapTag)
      ensures d == ExitCall || d == TrapCall ==>
        unchanged(this) && unchanged(machine) && unchanged(machine.memory)
      ensures d != Continue ==> machine.regs == old(machine.regs)
      ensures d.Abort? ==> d.reason == Terminate || d.reason == Fault
      ensures d == Continue ==>
        TagOf(nr).Some? && IsService(TagOf(nr).value) &&
        Params(old(Mem()), old(machine.regs.rdx), Arity(TagOf(nr).value)).Some? &&
        o.Status? && machine.regs == old(machine.regs).(rax := o.code)
      ensures (TagOf(nr).Some? && IsService(TagOf(nr).value) &&
               Params(old(Mem()), old(machine.regs.rdx), Arity(TagOf(nr).value)).None?) ==> d == Abort(Fault)
      ensures (TagOf(nr).Some? && IsService(TagOf(nr).value) &&
               Params(old(Mem()), old(machine.regs.rdx), Arity(TagOf(nr).value)).Some?) ==>
        ServiceSpec(TagOf(nr).value, Params(old(Mem()), old(machine.regs.rdx), Arity(TagOf(nr).value)).value, o) &&
        (d == Continue <==> o.Status?) && (d != Continue ==> d == Abort(o))
    {
      o := Terminate;
      var tag := TagOf(nr);
      if tag.None? {
        return Abort(Terminate), o;
      }
      var t := tag.value;
      if t == TrapTag {
        return TrapCall, o;
      }
      if t == ExitTag {
        return ExitCall, o;
      }
      d, o := Call(t);
    }

    /**
     * `run()`: the vCPU runs until its next exit (taken from `exits`, which carry the guest's
     * registers); an OUT to port 0xff is a service call and only `Continue` resumes the vCPU;
     * Exit ends the loop; Trap and every other exit end it after the register dump.
     */
    method Run(exits: seq<VcpuExit>) returns (end: RunEnd, count: nat)
      requires Valid()
      modifies this, machine, machine.memory
      ensures Valid()
      ensures count <= |exits|
      ensures end == OutOfExits ==> count == |exits|
      ensures forall i :: 0 <= i < count && (end == OutOfExits || i < count - 1) ==> Served(exits[i])
      ensures end != OutOfExits ==> 1 <= count && Stops(exits[count - 1], end)
    {
      count := 0;
      while count < |exits|
        invariant Valid()
        invariant count <= |exits|
        invariant forall i :: 0 <= i < count ==> Served(exits[i])
        decreases |exits| - count
      {
        var e := exits[count];
        count := count + 1;
        if !IsCall(e) {
          return Stopped, count;
        }
        machine.regs := e.regs;
        ghost var o;
        var d;
        d, o := Dispatch(e.nr);
        assert e.nr == exits[count - 1].nr;
        match d {
          case Continue =>
          case ExitCall => return Exited, count;
          case TrapCall => return Stopped, count;
          case Abort(reason) => return Died(reason), count;
        }
      }
      return OutOfExits, count;
    }
  }

  /**
   * How the exit that ended `run()` ended it: Exit leaves the loop, Trap and any exit other than
   * an OUT to port 0xff stop it after the register dump, a failed call dies.
   */
  predicate Stops(e: VcpuExit, end: RunEnd)
  {
    match end
    case Exited => IsCall(e) && TagOf(e.nr) == Some(ExitTag)
    case Stopped => !IsCall(e) || TagOf(e.nr) == Some(TrapTag)
    case Died(reason) =>
      IsCall(e) && (reason == Terminate || reason == Fault) &&
      (TagOf(e.nr).None? ==> reason == Terminate)
    case OutOfExits => false
  }

  /** An exit that was a service call which resumed the guest. */
  predicate Served(e: VcpuExit)
  {
    IsCall(e) && TagOf(e.nr).Some? && Uiu.IsService(TagOf(e.nr).value)
  }
}
