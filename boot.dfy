/**
 * Model of `main` in uiu.cpp: the bootstrap that checks the command line and `/dev/kvm`,
 * builds the UIU host (and with it the guest memory), writes an identity-mapping page table,
 * puts the vCPU in 64-bit long mode, loads the wrapper image `build/start.efi` at 0x1'0000 and
 * the program at 0x10'0000, plants a `hlt` at guest address 0, and hands over to `run()`.
 *
 * The command line, the KVM handle, the `mmap`, the two files and the vCPU's exits are
 * parameters: an absent file is one `std::ifstream` could not open.
 */
module Boot {
  import opened Wrappers
  import opened Machine
  import opened Uiu
  import opened PeLoader
  import BitField
  import Efer
  import Cr0
  import Cr4

  /** Guest physical address of the PML4 table, and the value loaded into CR3. */
  const Pml4Address: nat := 0x1000
  /** Guest physical address of the page-directory-pointer table. */
  const PdptAddress: nat := 0x2000
  /** `pml4[0] = 0x7 | pdpt_addr`: present, writable, user, pointing at the PDPT. */
  const Pml4Entry: U64 := 0x2007
  /** `pdpt[0] = 0x87`: present, writable, user, a 1 GiB page at physical address 0. */
  const PdptEntry: U64 := 0x87
  /** Where the wrapper image and the program are loaded. */
  const WrapperBase: nat := 0x1_0000
  const ProgramBase: nat := 0x10_0000
  /** The guest's initial stack pointer. */
  const StackTop: U64 := 0x400_0000
  /** The `hlt` instruction written at guest address 0. */
  const Halt: Byte := 0xf4

  /** The code segment: flat 4 GiB, selector 8, execute/read accessed, 64-bit. */
  function CodeSegment(): Segment
  {
    Segment(base := 0, limit := 0xffff_ffff, selector := 8, segType := 11,
            present := 1, dpl := 0, db := 0, s := 1, l := 1, g := 1)
  }

  /** The data segments: the code segment with type 3 (read/write accessed) and selector 16. */
  function DataSegment(): Segment
  {
    CodeSegment().(segType := 3, selector := 16)
  }

  /** The special registers `main` hands to the vCPU. */
  function BootSregs(): Sregs
  {
    Sregs(cs := CodeSegment(), ds := DataSegment(), es := DataSegment(), fs := DataSegment(),
          gs := DataSegment(), ss := DataSegment(),
          cr0 := 0x8005_0033, cr3 := 0x1000, cr4 := 0x6a0 | (1 << 13), efer := (1 << 8) | (1 << 10))
  }

  /** EFER is exactly long mode enabled and long mode active. */
  lemma BootEfer()
    ensures BootSregs().efer == Efer.Bit(Efer.LME) | Efer.Bit(Efer.LMA)
  {
  }

  /** CR4 is exactly PAE, global pages, SSE (OSFXSR, OSXMMEXCPT) and VMX. */
  lemma BootCr4()
    ensures BootSregs().cr4 ==
      Cr4.Bit(Cr4.PAE) | Cr4.Bit(Cr4.PGE) | Cr4.Bit(Cr4.OSFXSR) | Cr4.Bit(Cr4.OSXMMEXCPT) | Cr4.Bit(Cr4.VMXE)
  {
    Cr4Bits();
  }

  /** The masks of the CR4 flags `main` sets. */
  lemma Cr4Bits()
    ensures Cr4.Bit(Cr4.PAE) == 0x20 && Cr4.Bit(Cr4.PGE) == 0x80 && Cr4.Bit(Cr4.OSFXSR) == 0x200
    ensures Cr4.Bit(Cr4.OSXMMEXCPT) == 0x400 && Cr4.Bit(Cr4.VMXE) == 0x2000
  {
  }

  /** CR0 is exactly protection, the FPU bits, write protection, alignment checks and paging. */
  lemma BootCr0()
    ensures BootSregs().cr0 ==
      Cr0.Bit(Cr0.PE) | Cr0.Bit(Cr0.MP) | Cr0.Bit(Cr0.ET) | Cr0.Bit(Cr0.NE) |
      Cr0.Bit(Cr0.WP) | Cr0.Bit(Cr0.AM) | Cr0.Bit(Cr0.PG)
  {
  }

  /** The general-purpose registers `main` hands to the vCPU. */
  function BootRegs(start: U64, efiMain: U64): Regs
  {
    Regs(rax := 2, rbx := 2, rcx := efiMain, rdx := 0, rsp := StackTop, rip := start, rflags := 2)
  }

  /** The freshly mapped guest memory: all zero. */
  function Zero(): (mem: seq<Byte>)
    ensures |mem| == Arena
  {
    seq(Arena, _ => 0)
  }

  /** Guest memory once the two page-table entries are written. */
  function Tables(): (mem: seq<Byte>)
    ensures |mem| == Arena
  {
    Splice(Splice(Zero(), Pml4Address, WordBytes(Pml4Entry)), PdptAddress, WordBytes(PdptEntry))
  }

  /** The guest's state when `run()` starts. */
  datatype Booted = Booted(mem: seq<Byte>, regs: Regs)

  /**
   * The loading part of `main`: the wrapper, then the program, then the `hlt` at address 0;
   * rip is the wrapper's entry and rcx the program's, both as guest addresses.
   */
  function Boot(program: seq<Byte>, wrapper: seq<Byte>): (r: Loading<Booted>)
    ensures r.Done? ==> |r.value.mem| == Arena && r.value.mem[0] == Halt
  {
    match LoadImage(Tables(), wrapper, WrapperBase)
    case Terminated => Terminated
    case Faulted => Faulted
    case Done(w) =>
      match LoadImage(w.mem, program, ProgramBase)
      case Terminated => Terminated
      case Faulted => Faulted
      case Done(p) =>
        Done(Booted(Splice(p.mem, 0, [Halt]), BootRegs(WrapperBase + w.entry, ProgramBase + p.entry)))
  }

  /** Loading at `base` leaves every byte below `base` as it was. */
  lemma LoadKeepsBelow(mem: seq<Byte>, file: seq<Byte>, base: nat, a: nat)
    requires LoadImage(mem, file, base).Done?
    requires a < base && a < |mem|
    ensures LoadImage(mem, file, base).value.mem[a] == mem[a]
  {
    CopiedBytes(mem, file, base, ParseImage(file).value.sections, a);
  }

  /** Both entries read back from the page-table memory. */
  lemma TablesWords()
    ensures Word(Tables(), Pml4Address) == Some(Pml4Entry)
    ensures Word(Tables(), PdptAddress) == Some(PdptEntry)
  {
    var first := Splice(Zero(), Pml4Address, WordBytes(Pml4Entry));
    WordAfterStore(Zero(), Pml4Address, Pml4Entry);
    WordAfterStore(first, PdptAddress, PdptEntry);
    WordFrame(first, PdptAddress, WordBytes(PdptEntry), Pml4Address);
  }

  /** A word whose eight bytes agree in two memories reads the same in both. */
  lemma SameWord(mem1: seq<Byte>, mem2: seq<Byte>, addr: nat)
    requires addr + 8 <= |mem1| == |mem2|
    requires forall a :: addr <= a < addr + 8 ==> mem1[a] == mem2[a]
    ensures Word(mem1, addr) == Word(mem2, addr)
  {
    assert mem1[addr..addr + 8] == mem2[addr..addr + 8];
  }

  /** Both page-table entries survive the two loads and the `hlt`. */
  lemma BootKeepsTables(program: seq<Byte>, wrapper: seq<Byte>)
    requires Boot(program, wrapper).Done?
    ensures Word(Boot(program, wrapper).value.mem, Pml4Address) == Some(Pml4Entry)
    ensures Word(Boot(program, wrapper).value.mem, PdptAddress) == Some(PdptEntry)
  {
    var w := LoadImage(Tables(), wrapper, WrapperBase).value;
    var p := LoadImage(w.mem, program, ProgramBase).value;
    var mem := Boot(program, wrapper).value.mem;
    assert mem == Splice(p.mem, 0, [Halt]);
    forall a | Pml4Address <= a < PdptAddress + 8
      ensures mem[a] == Tables()[a]
    {
      LoadKeepsBelow(Tables(), wrapper, WrapperBase, a);
      LoadKeepsBelow(w.mem, program, ProgramBase, a);
    }
    SameWord(mem, Tables(), Pml4Address);
    SameWord(mem, Tables(), PdptAddress);
    TablesWords();
  }

  // ---------------------------------------------------------------------------------------
  // Four-level paging (Intel SDM volume 3A, section 4.5), as the page table above is meant
  // ---------------------------------------------------------------------------------------

  /** The entry `index` of the table at `table`, None outside memory. */
  function Entry(mem: seq<Byte>, table: nat, index: nat): Option<U64>
  {
    Word(mem, table + 8 * index)
  }

  /** Bit 0 of an entry: present. */
  predicate Present(e: nat)
  {
    e % 2 == 1
  }

  /** Bit 7 of a PDPT or PD entry: the entry maps a page rather than a table. */
  predicate LargePage(e: nat)
  {
    (e / 0x80) % 2 == 1
  }

  /** Bits 12 to 51 of an entry or of CR3: the physical address of the next table or page. */
  function Frame(e: nat): nat
  {
    (e / 0x1000) % 0x100_0000_0000 * 0x1000
  }

  /**
   * The physical address the 48-bit linear address `v` translates to, or None when a table
   * entry is absent or not present; access rights are not modelled.
   */
  function Translate(mem: seq<Byte>, cr3: nat, v: nat): Option<nat>
  {
    match Entry(mem, Frame(cr3), (v / 0x80_0000_0000) % 512)
    case None => None
    case Some(e4) =>
      if !Present(e4) then None
      else
        match Entry(mem, Frame(e4), (v / 0x4000_0000) % 512)
        case None => None
        case Some(e3) =>
          if !Present(e3) then None
          else if LargePage(e3) then Some((e3 / 0x4000_0000) % 0x40_0000 * 0x4000_0000 + v % 0x4000_0000)
          else
            match Entry(mem, Frame(e3), (v / 0x20_0000) % 512)
            case None => None
            case Some(e2) =>
              if !Present(e2) then None
              else if LargePage(e2) then Some((e2 / 0x20_0000) % 0x8000_0000 * 0x20_0000 + v % 0x20_0000)
              else
                match Entry(mem, Frame(e2), (v / 0x1000) % 512)
                case None => None
                case Some(e1) => if Present(e1) then Some(Frame(e1) + v % 0x1000) else None
  }

  /** With the two entries in place, the first GiB of linear addresses maps onto itself. */
  lemma IdentityMapped(mem: seq<Byte>)
    requires Word(mem, Pml4Address) == Some(Pml4Entry)
    requires Word(mem, PdptAddress) == Some(PdptEntry)
    ensures forall v: nat :: v < 0x4000_0000 ==> Translate(mem, Pml4Address, v) == Some(v)
  {
    forall v: nat | v < 0x4000_0000 ensures Translate(mem, Pml4Address, v) == Some(v) {
      assert (v / 0x80_0000_0000) % 512 == 0;
      assert (v / 0x4000_0000) % 512 == 0;
      assert Frame(Pml4Address) == Pml4Address;
      assert Frame(Pml4Entry) == PdptAddress;
    }
  }

  /** When `run()` starts, the guest sees its first GiB identity-mapped. */
  lemma BootIdentityMapped(program: seq<Byte>, wrapper: seq<Byte>)
    requires Boot(program, wrapper).Done?
    ensures forall v: nat :: v < 0x4000_0000 ==>
      Translate(Boot(program, wrapper).value.mem, BootSregs().cr3 as nat, v) == Some(v)
  {
    BootKeepsTables(program, wrapper);
    IdentityMapped(Boot(program, wrapper).value.mem);
  }

  // ---------------------------------------------------------------------------------------
  // main
  // ---------------------------------------------------------------------------------------

  /** How the process ends: `EXIT_FAILURE`, an abort, or the end of `run()`. */
  datatype Ending = ExitFailure | Aborted(reason: Outcome) | Ran(end: RunEnd)

  /** The `kvm_sregs` block of `main`: long mode with paging, flat 64-bit segments. */
  method EnterLongMode(m: Machine)
    modifies m
    ensures m.sregs == BootSregs()
    ensures m.regs == old(m.regs)
  {
    var sregs := m.sregs;
    sregs := sregs.(cs := sregs.cs.(base := 0, selector := 0));
    sregs := sregs.(cr3 := 0x1000, cr4 := 0x6a0, cr0 := 0x8005_0033, efer := (1 << 8) | (1 << 10));
    sregs := sregs.(cs := CodeSegment());
    sregs := sregs.(ds := DataSegment(), es := DataSegment(), fs := DataSegment(),
                    gs := DataSegment(), ss := DataSegment());
    sregs := sregs.(cr4 := sregs.cr4 | (1 << 13));
    m.sregs := sregs;
  }

  /**
   * The loading block of `main`: the wrapper at 0x1'0000, the program at 0x10'0000, the `hlt`
   * at address 0 and the initial registers.
   */
  method LoadImages(m: Machine, program: seq<Byte>, wrapper: seq<Byte>) returns (r: Loading<()>)
    requires m.Valid() && m.memory[..] == Tables()
    modifies m, m.memory
    ensures m.sregs == old(m.sregs)
    ensures match Boot(program, wrapper)
      case Done(b) => r.Done? && m.memory[..] == b.mem && m.regs == b.regs
      case Terminated => r == Terminated
      case Faulted => r == Faulted
  {
    var start := Load(m, wrapper, WrapperBase);
    if !start.Done? {
      return if start.Terminated? then Terminated else Faulted;
    }
    var efiMain := Load(m, program, ProgramBase);
    if !efiMain.Done? {
      return if efiMain.Terminated? then Terminated else Faulted;
    }
    ghost var before := m.memory[..];
    m.memory[0] := Halt;
    assert m.memory[..] == Splice(before, 0, [Halt]);
    m.regs := BootRegs(WrapperBase + start.value, ProgramBase + efiMain.value);
    return Done(());
  }

  /**
   * Everything in `main` before `run()`: the UIU host ready to run, or how `main` ends first.
   * `argc` is the argument count, `kvmOpen` whether `/dev/kvm` opened, `mapped` whether the
   * guest memory `mmap` succeeded; `program` and `wrapper` are the file contents, None when the
   * file does not open; `regs0` and `sregs0` are the vCPU's registers as KVM creates it.
   */
  method Setup(argc: int, kvmOpen: bool, mapped: bool, program: Option<seq<Byte>>,
               wrapper: Option<seq<Byte>>, regs0: Regs, sregs0: Sregs)
    returns (r: Result<Uiu, Ending>)
    ensures argc != 2 || !kvmOpen ==> r == Err(ExitFailure)
    ensures argc == 2 && kvmOpen && !mapped ==> r == Err(Aborted(Terminate))
    ensures argc == 2 && kvmOpen && mapped && (program.None? || wrapper.None?) ==> r == Err(ExitFailure)
    ensures argc == 2 && kvmOpen && mapped && program.Some? && wrapper.Some? ==>
      match Boot(program.value, wrapper.value)
      case Terminated => r == Err(Aborted(Terminate))
      case Faulted => r == Err(Aborted(Fault))
      case Done(b) =>
        r.Ok? && fresh(r.value) && fresh(r.value.machine) && fresh(r.value.machine.memory) &&
        r.value.Valid() && r.value.Mem() == b.mem && r.value.machine.regs == b.regs &&
        r.value.machine.sregs == BootSregs() &&
        r.value.live == map[] && r.value.handleDb == map[] && r.value.handleCounter == 1 &&
        r.value.variables == map[] && r.value.console == []
  {
    if argc != 2 {
      return Err(ExitFailure);
    }
    if !kvmOpen {
      return Err(ExitFailure);
    }
    var created := Create(mapped, regs0, sregs0);
    if created.None? {
      return Err(Aborted(Terminate));
    }
    var m := created.value;
    var host := new Uiu(m);
    assert m.memory[..] == Zero();
    m.Store(Pml4Address, Pml4Entry);
    m.Store(PdptAddress, PdptEntry);
    EnterLongMode(m);
    if program.None? {
      return Err(ExitFailure);
    }
    if wrapper.None? {
      return Err(ExitFailure);
    }
    var loaded := LoadImages(m, program.value, wrapper.value);
    if !loaded.Done? {
      return Err(Aborted(if loaded.Terminated? then Terminate else Fault));
    }
    return Ok(host);
  }

  /**
   * How `run()` over `exits` ended after handling the first `n` of them: every exit handled
   * but the last was a served call, the last one is the exit that stopped the loop, and the
   * loop runs out only after handling them all.
   */
  predicate EndedAfter(exits: seq<VcpuExit>, end: RunEnd, n: nat)
  {
    n <= |exits| &&
    (end == OutOfExits ==> n == |exits|) &&
    (end != OutOfExits ==> 1 <= n && Stops(exits[n - 1], end)) &&
    forall i :: 0 <= i < n && (end == OutOfExits || i < n - 1) ==> Served(exits[i])
  }

  /**
   * `main`: the bootstrap, then `run()` over the vCPU's `exits`. It ends with `EXIT_FAILURE`
   * exactly on a bad command line, a closed `/dev/kvm` or a file that does not open; it
   * aborts exactly when the mapping or a load fails; otherwise it returns what `run()` did.
   */
  method Start(argc: int, kvmOpen: bool, mapped: bool, program: Option<seq<Byte>>,
               wrapper: Option<seq<Byte>>, regs0: Regs, sregs0: Sregs, exits: seq<VcpuExit>)
    returns (e: Ending)
    ensures e == ExitFailure <==>
      argc != 2 || !kvmOpen || (mapped && (program.None? || wrapper.None?))
    ensures e.Aborted? <==>
      argc == 2 && kvmOpen &&
      (!mapped || (program.Some? && wrapper.Some? && !Boot(program.value, wrapper.value).Done?))
    ensures e.Aborted? ==> e.reason == Terminate || e.reason == Fault
    ensures e.Ran? ==> exists n: nat :: EndedAfter(exits, e.end, n)
  {
    var ready := Setup(argc, kvmOpen, mapped, program, wrapper, regs0, sregs0);
    if ready.Err? {
      return ready.error;
    }
    var host := ready.value;
    var end, count := host.Run(exits);
    assert EndedAfter(exits, end, count);
    return Ran(end);
  }
}
