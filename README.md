# uiu host core in Dafny

uiu runs a UEFI application inside a KVM virtual machine without any real firmware. The host
maps 0x4000'0000 bytes of guest memory. It writes a page table that identity-maps the first
GiB and puts the vCPU in 64-bit long mode. It then loads a small wrapper image and the
application, both PE/COFF, and runs the vCPU. The guest reaches the firmware services
through a hypercall: it writes a service tag to I/O port 0xff, with the address of its 64-bit
argument words in rdx. The host then runs the service against its own tables and guest
memory, puts the EFI_STATUS in rax and resumes the guest. The tables are a protocol registry,
a variable store and a pool allocator.

This project models that host core:

| file | module | models |
|---|---|---|
| `wrappers.dfy` | `Wrappers` | `Option` and `Result` |
| `machine.dfy` | `Machine` | `MachinePtr<T>` arithmetic and offset conversion, guest memory as an array of bytes with little-endian words and NUL-terminated UTF-16 strings, the `Machine` class (memory and vCPU registers) |
| `uiu.dfy` | `Uiu` | the `UIU` class: pool `allocate`/`deallocate`, the eleven firmware services, `dispatch_io_call` and the `run` loop |
| `peloader.dfy` | `PeLoader` | `load`: DOS header, NT headers, section table, section copy, entry point |
| `boot.dfy` | `Boot` | `main`: argument check, page tables, special and general registers, the two loads, the `hlt` at 0, the hand-over to `run` |
| `bitfield.dfy` | `BitField` | single-bit set/clear on a 64-bit value, and the flag-name rendering every `format_as` shares |
| `hexformat.dfy` | `HexFormat` | `{:#010x}` formatting |
| `rflags.dfy`, `cr0.dfy`, `cr3.dfy`, `cr4.dfy`, `efer.dfy` | `Rflags`, `Cr0`, `Cr3`, `Cr4`, `Efer` | the register value types: get/set/clear per flag, IOPL, the page-directory base, `format_as` |

Conventions:

- Guest addresses and host integers are unbounded integers restricted to the 64-bit range
  (`U64`). Wrap-around is written out with `Wrap`.
- Register values are `bv64`.
- Undefined behaviour ends the model's process with `Fault`. This covers a guest pointer
  outside the 0x4000'0000-byte arena and freeing a block that was never allocated.
- One undefined conversion is modelled by what compilers do, not by `Fault`. The dispatcher
  converts each 64-bit argument word to the parameter's type (UIU.h:203). For the
  `EFI_INTERFACE_TYPE` argument of `install_protocol_interface` and the
  `EFI_LOCATE_SEARCH_TYPE` argument of `locate_handle_buffer`, C++ gives no defined result
  when the word is outside the enumeration's range. The model (`Low32`) takes the low 32 bits,
  as the compiler's truncation does; for example, `InterfaceType = 2` gives INVALID_PARAMETER.
- `std::terminate()` and an exception nothing catches end it with `Terminate`.
- The order in which an `unordered_map` is iterated is left open. The model picks any
  element, so every order is covered.
- The placement the pool resource chooses is left open in the same way.

## Model

| member | source | states |
|---|---|---|
| `BitField.Set` | CR0.h:26-29 | `value \|= X` turns on the bits of X and keeps every other bit |
| `BitField.Clear` | EFER.h:24-27 | `value &= ~X` taken over 64 bits turns off the bits of X and keeps every other bit |
| `BitField.SetIdempotent` | Rflags.h:33-36 | setting a flag twice is the same as setting it once |
| `BitField.ClearIdempotent` | EFER.h:24-27 | clearing a flag twice is the same as clearing it once |
| `BitField.ClearAfterSet` | CR0.h:26-34 | clearing after setting is the same as clearing the original value |
| `BitField.HasAfterSet` | CR0.h:22-29 | `get_X` is true after `set_X` |
| `BitField.NotHasAfterClear` | CR0.h:22-34 | `get_X` is false after `clear_X` |
| `BitField.AppendSet` | EFER.h:79-92 | the chain of `result += "X "` gives the names of the set flags in table order, each followed by one space |
| `BitField.PopBack` | EFER.h:94-96 | dropping the last character of a non-empty rendering gives the names separated by single spaces with no trailing space; the rendering is empty exactly when no name is listed |
| `BitField.SplitJoin` | EFER.h:78-99 | a single-space-separated rendering of space-free names splits back into exactly those names |
| `BitField.ListedEmpty` | CR4.h:268-352 | no name is listed exactly when none of the table's bits is set |
| `HexFormat.Alternate010` | CR0.h:220 | `{:#010x}` starts with `0x` and is at least ten characters long |
| `HexFormat.Alternate010RoundTrip` | CR0.h:220 | the digits after `0x` read back as the formatted number |
| `HexFormat.Alternate010Width` | CR0.h:220 | a number below 2^32 formats to exactly ten characters |
| `HexFormat.Alternate010NoSpace` | CR3.h:71 | the formatted number contains no space |
| `Efer.Index` | EFER.h:8-13 | every EFER flag sits below bit 12 |
| `Efer.DistinctBits` | EFER.h:8-13 | different flags sit on different bits |
| `Efer.Register.constructor` | EFER.h:75 | the default value is 0 and no flag reads as set |
| `Efer.Register.SetFlag` | EFER.h:15-69 | `set_X` sets X's bit, `get_X` is then true, and no other bit changes |
| `Efer.Register.ClearFlag` | EFER.h:15-69 | `clear_X` clears X's bit, `get_X` is then false, and no other bit changes |
| `Efer.FormatAs` | EFER.h:78-99 | `format_as` is the names of the set flags in the order SCE, LME, LMA, NXE, separated by single spaces; it is empty exactly when no flag is set |
| `Efer.NothingListed` | EFER.h:94-96 | the rendering is empty exactly when no flag bit is set |
| `Efer.FormatReadsBack` | EFER.h:78-99 | the rendering splits back into exactly the names of the set flags |
| `Cr0.Index` | CR0.h:8-20 | every CR0 flag sits below bit 32 |
| `Cr0.Bit` | CR0.h:8-20 | every mask, PG's `1u << 31` included, is one bit in the lower 32 bits |
| `Cr0.Register.constructor` | CR0.h:180 | the default value is 0 and no flag reads as set |
| `Cr0.Register.SetFlag` | CR0.h:22-174 | `set_X` sets X's bit, `get_X` is then true, and no other bit changes |
| `Cr0.Register.ClearFlag` | CR0.h:31-34 | corrected `clear_X`: clears X's bit, `get_X` is then false, and no other bit changes, upper half included |
| `Cr0.ClearAsWrittenWipesHighHalf` | CR0.h:31-34 | `clear_X` as written leaves bits 32 to 63 all zero, whatever the value was |
| `Cr0.ClearAsWrittenCounterexample` | CR0.h:31-34 | with bit 32 set, `clear_pe` as written returns 0, while clearing only PE keeps bit 32 |
| `Cr0.SetKeepsHighHalf` | CR0.h:166-169 | `set_X`, `set_pg` included, never changes bits 32 to 63 |
| `Cr0.FormatAs` | CR0.h:183-223 | `format_as` is the names of the set flags in order PE to PG, each followed by a space, then `{:#010x}` of the upper 32 bits |
| `Cr0.FormatReadsBack` | CR0.h:183-223 | the rendering splits into the set flag names and one ten-character hexadecimal word |
| `Cr3.HexMaskBits` | CR3.h:47 | the literal `0x1111'1111'1111` covers exactly bits 0, 4, 8, ..., 44 |
| `Cr3.WithBaseUnder` | CR3.h:46-52 | `set_page_directory_base` throws exactly when `pdb` meets the mask |
| `Cr3.BaseReadsBack` | CR3.h:42-52 | after a successful set, `get_page_directory_base` returns `pdb` |
| `Cr3.WithBaseKeepsMasked` | CR3.h:50 | a successful set keeps the old value's bits under the mask |
| `Cr3.AsWrittenKeepsPcd` | CR3.h:50 | with the hexadecimal mask, PCD (bit 4) survives a new base |
| `Cr3.AsWrittenTakesPwtFromBase` | CR3.h:50 | with the hexadecimal mask, PWT (bit 3) is taken from `pdb` |
| `Cr3.AsWrittenCounterexample` | CR3.h:46-49 | as written, the aligned base 0x1000 is rejected and the unaligned base 0x2 is accepted |
| `Cr3.AlignedAccepted` | CR3.h:46-49 | with a twelve-bit mask, a base is accepted exactly when it is 4 KiB aligned |
| `Cr3.AlignedKeepsFlags` | CR3.h:50 | with a twelve-bit mask, both PWT and PCD survive a new base |
| `Cr3.Register.constructor` | CR3.h:58 | the default value is 0, no flag is set and the base is 0 |
| `Cr3.Register.SetFlag` | CR3.h:14-40 | `set_pwt`/`set_pcd` set their own bit only, and `get` is then true |
| `Cr3.Register.ClearFlag` | CR3.h:14-40 | `clear_pwt`/`clear_pcd` clear their own bit only, and `get` is then false |
| `Cr3.Register.SetPageDirectoryBase` | CR3.h:46-52 | corrected set: fails, changing nothing, exactly when `pdb` is not 4 KiB aligned; otherwise the base reads back as `pdb` |
| `Cr3.FormatAs` | CR3.h:61-74 | corrected, as in Findings: `format_as` is the set flag names, each followed by a space, then `PBD=` and the base as `{:#010x}`, the base taken through the twelve-bit mask so that it is what `get_page_directory_base` returns |
| `Cr3.AsWrittenFormatCounterexample` | CR3.h:71 | as written, the value 0x1008 (base 0x1000 with PWT set) prints as `PWT PBD=0x00000008`, while its base under the twelve-bit mask is 0x1000 |
| `Cr3.FormatReadsBack` | CR3.h:61-74 | the rendering splits into the set flag names and one `PBD=` word whose digits read back as the base |
| `Cr4.Index` | CR4.h:8-34 | the CR4 flags sit below bit 26, and none sits on bit 15 |
| `Cr4.BitsCovered` | CR4.h:8-34 | every bit from 0 to 25 except 15 belongs to a flag |
| `Cr4.DistinctBits` | CR4.h:8-34 | different flags sit on different bits |
| `Cr4.Register.constructor` | CR4.h:265 | the default value is 0 and no flag reads as set |
| `Cr4.Register.SetFlag` | CR4.h:45-263 | `set_X` sets X's bit, `get_X` is then true, and no other bit changes (`set_vme` corrected to `\|=`) |
| `Cr4.SetVmeAsWritten` | CR4.h:40-43 | `set_vme` as written (`&=`) keeps VME as it was and clears every other bit |
| `Cr4.SetVmeAsWrittenCounterexample` | CR4.h:40-43 | from PAE alone, `set_vme` as written gives 0 with VME unset, while `\|=` gives PAE and VME |
| `Cr4.FormatAs` | CR4.h:268-352 | `format_as` is the names of the set flags in declaration order, separated by single spaces; it is empty exactly when no flag is set |
| `Cr4.NothingListed` | CR4.h:347-349 | the rendering is empty exactly when no flag bit is set |
| `Cr4.FormatReadsBack` | CR4.h:268-352 | the rendering splits back into exactly the names of the set flags |
| `Rflags.Index` | Rflags.h:8-27 | each flag sits below bit 22 and off the IOPL bits 12 and 13 |
| `Rflags.IoplOf` | Rflags.h:110-114 | `get_iopl` is always between 0 and 3 |
| `Rflags.DefaultClear` | Rflags.h:197 | the default value 2 has no named flag set |
| `Rflags.Register.constructor` | Rflags.h:197 | the default value is 2: no flag set and IOPL 0 |
| `Rflags.Register.SetFlag` | Rflags.h:29-191 | `set_X` sets X's bit, `get_X` is then true, and no other bit changes |
| `Rflags.Register.SetIopl` | Rflags.h:116-128 | `set_iopl(n)` writes bit 12 from `n & 1` and bit 13 from `n & 2`, after which `get_iopl` returns `n & 3` |
| `Rflags.IoplReadsBack` | Rflags.h:110-128 | `get_iopl` after `set_iopl(n)` returns the two low bits of `n`, so n itself for n in 0..3 |
| `Rflags.WithIoplKeepsRest` | Rflags.h:116-128 | `set_iopl` changes no bit other than 12 and 13 |
| `Rflags.FormatAs` | Rflags.h:200-256 | `format_as` is the set flags CF to OF, then `IOPL=n`, then the set flags NT to ID, separated by single spaces with no trailing space |
| `Rflags.FormatReadsBack` | Rflags.h:200-256 | the rendering splits back into exactly those words |
| `Machine.NullPtrIsNull` | Machine.h:16-17 | a default pointer has base 0, a null value and offset 0 |
| `Machine.OffsetRoundTrip` | Machine.h:97-100 | converting `create_ptr(offset)` back to `std::uint64_t` gives `offset`, for every 64-bit offset |
| `Machine.FromHostKeeps` | Machine.h:102-105 | `create_ptr(void*)` keeps the host address and takes the arena start as base |
| `Machine.HostOffset` | Machine.h:53-55 | a host address `arena + k` converts back to the offset `k` |
| `Machine.CastKeeps` | Machine.h:57-60 | `cast` keeps the base, the address and so the offset |
| `Machine.AddMovesOffset` | Machine.h:62-64 | `p + n` keeps the base and moves the offset by `n * sizeof(T)`, modulo 2^64 |
| `Machine.SubMovesOffset` | Machine.h:66-68 | `p - n` keeps the base and moves the offset back by `n * sizeof(T)`, modulo 2^64 |
| `Machine.AddThenSub` | Machine.h:62-68 | `(p + n) - n == p` |
| `Machine.SubThenAdd` | Machine.h:62-68 | `(p - n) + n == p` |
| `Machine.IndexIsAdd` | Machine.h:25-33 | `p[i]` addresses the same element as `*(p + i)`, for negative `i` too, and `p[0]` is `*p` |
| `Machine.DecodeEncode` | Machine.h:35-43 | a value that fits in n bytes reads back from its little-endian encoding |
| `Machine.EncodeDecode` | Machine.h:35-43 | a byte string is the encoding of the number it holds |
| `Machine.WordRoundTrip` | Machine.h:35-43 | a 64-bit word stored as 8 bytes reads back unchanged |
| `Machine.Bytes` | UIU.h:261 | reading n bytes at a guest address succeeds exactly inside the arena and returns the bytes there |
| `Machine.WordAfterStore` | UIU.h:121 | a word just stored reads back |
| `Machine.WordFrame` | UIU.h:121 | a word the store does not overlap reads as before |
| `Machine.String16` | UIU.h:316 | a `char16_t*` read as a string view: the units before the first zero unit, all non-zero, with the terminator inside memory |
| `Machine.String16Terminated` | UIU.h:316 | any non-zero units followed by a zero unit are exactly the string read there |
| `Machine.Machine.constructor` | Machine.h:75-83 | a fresh zero-filled mapping of 0x4000'0000 bytes |
| `Machine.Machine.Load` | Machine.h:35-43 | `*p` for a `std::uint64_t`: the little-endian word at the address, or nothing outside the arena |
| `Machine.Machine.Write` | UIU.h:329 | `memcpy` into guest memory: the bytes land at the address and nothing else changes |
| `Machine.Machine.Store` | UIU.h:121 | `*p = x`: the 8 bytes of `x` land at the address and `x` reads back |
| `Machine.Create` | Machine.h:79-82 | the machine exists exactly when the `mmap` succeeds; it is fresh, of arena size and zero-filled |
| `Uiu.TagOf` | UIU.h:208-249 | the known tags are exactly 0 to 12 |
| `Uiu.Params` | UIU.h:199-204 | the argument words are read at rdx, rdx + 8, ...; the read fails exactly when one of them lies outside the arena |
| `Uiu.AddBlock` | UIU.h:116-120 | a block placed in a free, aligned gap of the pool range keeps the live blocks disjoint and inside the pool |
| `Uiu.RemoveBlock` | UIU.h:125-128 | releasing a block keeps the live blocks disjoint and inside the pool |
| `Uiu.FreeAfterAllocate` | UIU.h:119-128 | `deallocate(allocate(size, align), align)` finds the size in the header, releases exactly the allocated block and restores the earlier set of live blocks |
| `Uiu.Installed` | UIU.h:306 | `insert` adds the GUID with the interface when it is new and otherwise leaves the handle's map unchanged; no other entry changes |
| `Uiu.LookupStored` | UIU.h:376-377 | a stored variable reads back as stored |
| `Uiu.LookupErased` | UIU.h:378-380 | an erased variable is not found |
| `Uiu.LookupOthers` | UIU.h:376-380 | storing or erasing one variable leaves every other (GUID, name) as it was |
| `Uiu.HandleBytes` | UIU.h:399 | the copied handles take 8 bytes each |
| `Uiu.FirstHandle` | UIU.h:399 | the first copied handle reads back from the first word |
| `Uiu.Uiu.constructor` | UIU.h:114-117 | a new host has no live blocks, no handles, no variables, and next handle number 1 |
| `Uiu.Uiu.Put` | UIU.h:265-266 | a write through a guest pointer lands the word when the pointer is inside the arena and changes nothing otherwise |
| `Uiu.Uiu.Allocate` | UIU.h:119-123 | a block of `size + 8` bytes at alignment `min(8, align)` is placed in a free gap of the pool, `size` is written in its first word, and the address after the header is returned; the pool stays valid |
| `Uiu.Uiu.Deallocate` | UIU.h:125-128 | releases the live block at `p - 8` exactly when its header size and alignment match it; otherwise the live blocks are unchanged |
| `Uiu.Uiu.HandleProtocol` | UIU.h:253-268 | a null argument gives INVALID_PARAMETER; an unknown handle, or a handle without the GUID, gives UNSUPPORTED; otherwise the registered interface is written to `*Interface`; the registry never changes |
| `Uiu.Uiu.LocateProtocol` | UIU.h:270-286 | a non-null Registration terminates; a null Protocol or Interface gives INVALID_PARAMETER; NOT_FOUND exactly when no handle exposes the GUID; SUCCESS writes the interface of some handle that does |
| `Uiu.Uiu.InstallProtocolInterface` | UIU.h:288-308 | a null Handle or Protocol, or a non-native type, gives INVALID_PARAMETER and changes nothing; a null `*Handle` takes the counter's value, written back, and the counter goes up by one; the GUID is inserted for the handle without overwriting; a new handle number already in use terminates |
| `Uiu.Uiu.GetVariable` | UIU.h:310-334 | a null name, GUID or DataSize gives INVALID_PARAMETER; a missing variable gives NOT_FOUND; a too small `*DataSize` gives BUFFER_TOO_SMALL; a null Data gives INVALID_PARAMETER; otherwise exactly the stored bytes are copied to Data; only that copy changes memory and the store never changes |
| `Uiu.Uiu.SetVariable` | UIU.h:361-383 | a null name, GUID or Data, or an empty name, gives INVALID_PARAMETER with the store unchanged; a non-zero DataSize stores a copy of DataSize bytes; zero erases the variable |
| `Uiu.Uiu.AllocatePool` | UIU.h:336-340 | allocates `Size` bytes and writes the block's address to `*Buffer`; with no room in the pool the process ends; a `Buffer` outside guest memory faults after the block's size word is written |
| `Uiu.Uiu.FreePool` | UIU.h:342-345 | SUCCESS and exactly that block released when it is a live pool block; otherwise undefined behaviour |
| `Uiu.Uiu.LocateHandle` | UIU.h:347-349 | always NOT_FOUND |
| `Uiu.Uiu.OutputString` | UIU.h:351-355 | the NUL-terminated UTF-16 string is appended to the console and SUCCESS returned |
| `Uiu.Uiu.GetRng` | UIU.h:357-359 | always SUCCESS and nothing written |
| `Uiu.Uiu.CollectHandles` | UIU.h:391-396 | every handle that exposes the GUID, each exactly once, and no other |
| `Uiu.Uiu.LocateHandleBuffer` | UIU.h:385-401 | a search other than ByProtocol terminates; a GUID outside guest memory faults; otherwise the handles exposing the GUID, once each, are counted and `8 * count` bytes are allocated (the process ends exactly when no pool gap fits); the call faults when `*Buffer` or the `8 * count` bytes at `Buffer` leave guest memory, and otherwise succeeds with the block's address written to `*Buffer` and the handles then copied to the guest address `Buffer` itself |
| `Uiu.Uiu.Serve` | UIU.h:214-246 | each service tag runs its handler on its argument words: the outcome and new state are exactly the handler's own case-by-case contract (`ServiceSpec`, built from `HandleProtocolSpec`, `GetVariableSpec` and the rest), and state that handler does not touch stays unchanged |
| `Uiu.Uiu.Call` | UIU.h:198-206 | the arguments are the 64-bit words at rdx, and a word outside the arena faults with nothing changed; otherwise the service's outcome `o` meets `ServiceSpec` on those words, the call continues exactly when `o` is a status, that status is then in rax and no other register changed, and any other outcome ends the process with the registers untouched |
| `Uiu.Uiu.Dispatch` | UIU.h:197-251 | an unknown tag terminates; Exit and Trap return at once, reading no argument and changing no state or register; every other tag behaves as `Call` states: its outcome meets `ServiceSpec` on the words at rdx, and `Continue` means that status is in rax and no other register changed |
| `Uiu.Uiu.Run` | UIU.h:142-188 | every exit before the last one is an OUT to port 0xff with a service tag that continued; the last one is Exit (loop ends), Trap or any other exit (dump and stop), or a call that ended the process |
| `PeLoader.Signed32` | uiu.cpp:36 | `e_lfanew` is the signed 32-bit reading of its four bytes |
| `PeLoader.Read` | uiu.cpp:26 | `seekg` then `read(n)` succeeds exactly when the position is non-negative and `n` bytes remain, and returns those bytes |
| `PeLoader.ParseSection` | uiu.cpp:54 | VirtualAddress, SizeOfRawData and PointerToRawData are 32-bit fields |
| `PeLoader.SectionTable` | uiu.cpp:49-58 | exactly NumberOfSections headers are read one after another; the read fails exactly when the file ends before the last one |
| `PeLoader.SignatureBytes` | uiu.cpp:31 | `e_magic == IMAGE_DOS_SIGNATURE` exactly when the file starts with "MZ" |
| `PeLoader.ParseImage` | uiu.cpp:25-58 | an image that parses starts with "MZ", has a full DOS header and a 32-bit entry point |
| `PeLoader.ParseNtHeaders` | uiu.cpp:36-58 | the part of the header reads that starts at `e_lfanew` gives a 32-bit entry point |
| `PeLoader.NtSignatureBytes` | uiu.cpp:44 | `Signature == IMAGE_NT_SIGNATURE` exactly when the NT headers start with "PE\0\0" |
| `PeLoader.NtHeadersLayout` | uiu.cpp:36-58 | from `e_lfanew`, the headers parse exactly when the 248 bytes there are in the file and start with "PE\0\0" and the `NumberOfSections` headers right after the optional header are in the file. The entry is the 32-bit field at offset 40, and the sections are that table |
| `PeLoader.DosHeaderLayout` | uiu.cpp:25-36 | the headers parse only from a full 64-byte DOS header that starts with "MZ", and then parsing goes on at the signed `e_lfanew` at offset 0x3C |
| `PeLoader.ParseImageLayout` | uiu.cpp:25-76 | the headers parse exactly when the DOS header, the NT headers at `e_lfanew` and the section table are all in the file with both signatures right. The result is then the entry field at `e_lfanew + 40` and the table at `e_lfanew + 24 + SizeOfOptionalHeader` |
| `PeLoader.Available` | uiu.cpp:63 | a read copies at most the bytes asked for, and all of them exactly when it succeeds |
| `PeLoader.CopySection` | uiu.cpp:61-66 | a section is copied exactly when its raw bytes are in the file and its destination is inside memory; a destination outside memory faults |
| `PeLoader.CopySections` | uiu.cpp:59-73 | the copy loop succeeds exactly when every section can be copied, and keeps the memory size |
| `PeLoader.LastCover` | uiu.cpp:60-66 | the last section whose destination covers an address, or none |
| `PeLoader.CopiedBytes` | uiu.cpp:59-73 | after the copy loop each byte holds the file byte of the last section covering it, so later sections overwrite earlier ones, and an uncovered byte is unchanged |
| `PeLoader.LoadImage` | uiu.cpp:24-77 | a header failure terminates; a successful load returns the header's entry point whatever the base, and succeeds exactly when every section can be copied |
| `PeLoader.ReadSectionTable` | uiu.cpp:51-58 | the section-header loop reads the table `SectionTable` describes |
| `PeLoader.ReadHeaders` | uiu.cpp:25-58 | the header reads give the image `ParseImage` describes |
| `PeLoader.CopyAll` | uiu.cpp:59-73 | the section loop leaves the memory `CopySections` describes, or stops the way it does |
| `PeLoader.Load` | uiu.cpp:24-77 | `load` leaves the memory and returns the entry point `LoadImage` describes, or terminates or faults as it does |
| `Boot.BootEfer` | uiu.cpp:141 | EFER is exactly LME and LMA |
| `Boot.BootCr4` | uiu.cpp:139-159 | CR4 is exactly PAE, PGE, OSFXSR, OSXMMEXCPT and VMXE |
| `Boot.BootCr0` | uiu.cpp:140 | CR0 is exactly PE, MP, ET, NE, WP, AM and PG |
| `Boot.Tables` | uiu.cpp:132-137 | the page-table writes keep the arena size |
| `Boot.TablesWords` | uiu.cpp:132-137 | `pml4[0]` at 0x1000 reads 0x2007 and `pdpt[0]` at 0x2000 reads 0x87 |
| `Boot.Boot` | uiu.cpp:179-181 | a successful boot leaves arena-sized memory with `hlt` (0xf4) at address 0 |
| `Boot.LoadKeepsBelow` | uiu.cpp:59-66 | loading an image at a base leaves every byte below the base as it was |
| `Boot.BootKeepsTables` | uiu.cpp:132-181 | both page-table entries survive the two loads and the `hlt` |
| `Boot.IdentityMapped` | uiu.cpp:132-138 | with those two entries and CR3 = 0x1000, four-level paging maps every address below 1 GiB to itself |
| `Boot.BootIdentityMapped` | uiu.cpp:132-181 | when `run()` starts, the guest sees its first GiB identity-mapped |
| `Boot.EnterLongMode` | uiu.cpp:118-161 | the vCPU gets the long-mode special registers and keeps its general registers |
| `Boot.LoadImages` | uiu.cpp:179-208 | the wrapper is loaded at 0x1'0000 and the program at 0x10'0000, then `hlt` at 0; rip is the wrapper's entry, rcx the program's, rsp 0x400'0000, rax and rbx 2, rflags 2 |
| `Boot.Setup` | uiu.cpp:89-208 | a wrong argument count or a closed `/dev/kvm` gives EXIT_FAILURE before any setup; a failed mapping terminates; a file that does not open gives EXIT_FAILURE; a failed load terminates or faults; otherwise a fresh host with empty tables and the booted memory and registers |
| `Boot.Start` | uiu.cpp:89-212 | `main` gives EXIT_FAILURE exactly for a bad command line, a closed `/dev/kvm` or a file that does not open; it aborts exactly when the mapping or a load fails; otherwise it returns how `run()` ended: some prefix of the exits was served and its last exit stops the loop that way (`EndedAfter`), or every exit was served |

## Left out

- KVM itself (KVM.h): the `ioctl`s, `VCPU::run` and the second `create_vm` in `main`. The vCPU's exits are a parameter of `Run`, each with the guest's registers. When that list ends, `Run` reports `OutOfExits`; the source would keep running.
- Guest execution between exits is not modelled.
- `set_user_memory_region` in `main` is left out. It registers 0x1'0000'0000 bytes with KVM, but only 0x4000'0000 are mapped.
- Printing is left out: the usage and error messages, `fmt::println` in `run`, and the register and stack dump after a non-call exit.
- `output_string` converts the string to UTF-8 through `std::wstring_convert` and prints it. The model appends the UTF-16 units to a console log instead.
- `format_as` for `EFI_GUID` and `EFI_MEMORY_TYPE` (UIU.h:41-102) is left out, and so is `std::hash<EFI_GUID>`. GUIDs are compared by their 16 bytes.
- `create_object`/`destroy_object` (UIU.h:130-140) are left out: nothing instantiates them.
- The internals of the `std::pmr` monotonic and pool resources are left out. The pool is a set of disjoint live blocks in `[0x2000'0000, 0x3800'0000)`.
- `std::ifstream` mechanics are left out. A file is its byte string, and one that does not open is `None`.
- The `Trap`, `LocateProtocol`, `InstallProtocolInterface`, `GetRNG`, `SetVariable` and `LocateHandleBuffer` tags do not appear in API.h's enumeration. The model numbers them 7 to 12. The dispatcher's datum is 16-bit, so a negative number is simply an unknown tag.
- `sizeof(IMAGE_NT_HEADERS)` is taken as 248: signature, file header and a PE32 optional header. The gnu-efi `pe.h` that defines it is not part of this model.
- Rflags, CR0, CR3, CR4 and EFER `format_as` are chains of `if`s. The model runs them as one loop over a table of (name, bit) pairs in the same order.
- Host behaviour the model follows even where UEFI says otherwise:
  - `get_variable` never writes `*DataSize`.
  - `install_protocol_interface` never replaces an existing interface.
  - `locate_handle_buffer` writes the handles at `Buffer` and never writes `NoHandles`.
  - Exit does not read its status argument.
- Uiu.Uiu.Allocate: when no free gap fits, the model ends the process. The real resource then goes to its upstream, the host heap, and hands the guest an address outside guest memory. The model also does not capture that the pool resource may fail while a gap exists.
- Uiu.Uiu.AllocatePool: inherits the Allocate simplification: a full pool ends the process.
- Uiu.Low32: an enumeration argument outside its range is undefined behaviour in C++. The model takes the low 32 bits, as compilers do, rather than ending with `Fault`.
- Uiu.Uiu.Run: states which exits were served and how the last one ended the loop. The host state after each call is what `Dispatch` states.
- Boot.Start: for a run, states how it ended relative to the exits (`EndedAfter`), not the final host state.

## Findings

| source | as written | input that shows it | evidently intended | confidence | as-written member | corrected member |
|---|---|---|---|---|---|---|
| CR0.h:31-34 | `clear_X` is `value &= ~X`. The enumeration needs `unsigned int` to hold PG (`1u << 31`), so `~X` is a 32-bit complement. It is zero-extended before the AND, which clears bits 32 to 63 as well | `value = 1 << 32`, `clear_pe()` gives 0 | clear only X's bit | not executed | `Cr0.ClearAsWrittenCounterexample` | `Cr0.Register.ClearFlag` |
| CR3.h:43-50 | the alignment mask is the hexadecimal literal `0x1111'1111'1111` (bits 0, 4, ..., 44), not the low twelve bits | `set_page_directory_base(0x1000)` throws; `set_page_directory_base(0x2)` is accepted | accept exactly the 4 KiB-aligned bases and keep the low twelve bits, PWT and PCD among them | not executed | `Cr3.AsWrittenCounterexample` | `Cr3.Register.SetPageDirectoryBase` |
| CR3.h:71 | `format_as` masks the base with the same hexadecimal literal, `~0x1111'1111'1111`, so it prints a value that still holds bits 1-3, 5-7 and 9-11 (PWT among them) and lacks bits 0, 4, 8, ..., 44 | the value 0x1008 (base 0x1000 with PWT) prints as `PWT PBD=0x00000008` | print the base under the twelve-bit mask, 0x00001000 here | not executed | `Cr3.AsWrittenFormatCounterexample` | `Cr3.FormatAs` |
| CR4.h:40-43 | `set_vme` is `value &= VME`. It clears every other flag and sets VME only when it was already set | `value = PAE`, `set_vme()` gives 0 and `get_vme()` is false | `value \|= VME`, like every other `set_X` | not executed | `Cr4.SetVmeAsWrittenCounterexample` | `Cr4.Register.SetFlag` |
