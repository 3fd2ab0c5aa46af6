/**
 * Model of the PE loader in uiu.cpp (`load`): it reads the DOS header, follows `e_lfanew` to
 * the NT headers, reads the section table that follows the optional header, copies each
 * section's raw bytes to `base + VirtualAddress` in guest memory and returns the image's entry
 * point as an offset from `base`.
 *
 * The file is a byte string; a failed `read` (the file ends first, or a negative `seekg`) and a
 * bad signature print a message and call `std::terminate()` (`Terminated`); a section copied
 * past the guest memory arena is undefined behaviour (`Faulted`).
 */
module PeLoader {
  import opened Wrappers
  import opened Machine

  /** `sizeof(IMAGE_DOS_HEADER)`. */
  const DosHeaderSize: nat := 64
  /** `IMAGE_DOS_SIGNATURE`, "MZ". */
  const DosSignature: nat := 0x5A4D
  /** Offset of `e_lfanew` in the DOS header. */
  const LfanewOffset: nat := 0x3C
  /** `sizeof(IMAGE_NT_HEADERS)`: signature, file header (20 bytes), PE32 optional header. */
  const NtHeadersSize: nat := 248
  /** `IMAGE_NT_SIGNATURE`, "PE\0\0". */
  const NtSignature: nat := 0x4550
  /** `4 + sizeof(IMAGE_FILE_HEADER)`: where the optional header starts in the NT headers. */
  const OptionalHeaderOffset: nat := 24
  /** `sizeof(IMAGE_SECTION_HEADER)`. */
  const SectionHeaderSize: nat := 40

  /** The unsigned little-endian field of `n` bytes at offset `at` of a header. */
  function Unsigned(h: seq<Byte>, at: nat, n: nat): (x: nat)
    requires at + n <= |h|
    ensures x < Pow256(n)
  {
    LittleEndianBound(h[at..at + n]);
    LittleEndian(h[at..at + n])
  }

  /** A 32-bit field read as the two's-complement `LONG` that `e_lfanew` is. */
  function Signed32(x: nat): (r: int)
    requires x < 0x1_0000_0000
    ensures -0x8000_0000 <= r < 0x8000_0000
    ensures r % 0x1_0000_0000 == x
  {
    if x < 0x8000_0000 then x else x - 0x1_0000_0000
  }

  /**
   * `seekg(pos)` then `read(n)` on a stream in good state: the `n` bytes at `pos`, or None
   * when the position is negative or the file ends first (a read of nothing always succeeds).
   */
  function Read(file: seq<Byte>, pos: int, n: nat): (r: Option<seq<Byte>>)
    ensures r.Some? <==> 0 <= pos && (n == 0 || pos + n <= |file|)
    ensures r.Some? ==> |r.value| == n && forall k :: 0 <= k < n ==> r.value[k] == file[pos + k]
  {
    if pos < 0 then None
    else if n == 0 then Some([])
    else if pos + n <= |file| then Some(file[pos..pos + n])
    else None
  }

  /** The three fields of an `IMAGE_SECTION_HEADER` the loader uses. */
  datatype Section = Section(va: nat, rawSize: nat, rawPtr: nat)

  /** `VirtualAddress`, `SizeOfRawData` and `PointerToRawData` of a section header. */
  function ParseSection(h: seq<Byte>): (s: Section)
    requires |h| == SectionHeaderSize
    ensures s.va < 0x1_0000_0000 && s.rawSize < 0x1_0000_0000 && s.rawPtr < 0x1_0000_0000
  {
    Section(Unsigned(h, 12, 4), Unsigned(h, 16, 4), Unsigned(h, 20, 4))
  }

  /**
   * The section table: `count` headers read one after another from `pos`, or None when a read
   * fails.
   */
  function SectionTable(file: seq<Byte>, pos: int, count: nat): (r: Option<seq<Section>>)
    ensures r.Some? <==> count == 0 || (0 <= pos && pos + SectionHeaderSize * count <= |file|)
    ensures r.Some? ==> |r.value| == count
    ensures r.Some? ==> forall k :: 0 <= k < count ==>
      r.value[k] == ParseSection(file[pos + SectionHeaderSize * k..pos + SectionHeaderSize * (k + 1)])
  {
    if count == 0 then Some([])
    else
      match SectionTable(file, pos, count - 1)
      case None => None
      case Some(table) =>
        match Read(file, pos + SectionHeaderSize * (count - 1), SectionHeaderSize)
        case None => None
        case Some(h) =>
          assert h == file[pos + SectionHeaderSize * (count - 1)..pos + SectionHeaderSize * count];
          Some(table + [ParseSection(h)])
  }

  /** What the headers say: the entry point's offset and the section table. */
  datatype Image = Image(entry: nat, sections: seq<Section>)

  /** The 16-bit DOS signature is the bytes 'M' 'Z'. */
  lemma SignatureBytes(dos: seq<Byte>)
    requires |dos| >= 2
    ensures Unsigned(dos, 0, 2) == DosSignature <==> dos[0] == 0x4D && dos[1] == 0x5A
  {
    var field := dos[0..2];
    assert field[1..][1..] == [];
    assert field[0] == dos[0] && field[1..][0] == dos[1];
    assert LittleEndian(field[1..]) == dos[1] as int + 256 * LittleEndian(field[1..][1..]);
    assert LittleEndian(field) == dos[0] as int + 256 * dos[1] as int;
  }

  /**
   * The header part of `load`: None when it terminates (a short read or a wrong signature),
   * otherwise `AddressOfEntryPoint` and the section headers.
   */
  function ParseImage(file: seq<Byte>): (r: Option<Image>)
    ensures r.Some? ==> |file| >= DosHeaderSize && file[0] == 0x4D && file[1] == 0x5A
    ensures r.Some? ==> r.value.entry < 0x1_0000_0000
  {
    match Read(file, 0, DosHeaderSize)
    case None => None
    case Some(dos) =>
      SignatureBytes(dos);
      if Unsigned(dos, 0, 2) != DosSignature then None
      else
        ParseNtHeaders(file, Signed32(Unsigned(dos, LfanewOffset, 4)))
  }

  /** The rest of the header part of `load`: the NT headers at `lfanew` and the section table. */
  function ParseNtHeaders(file: seq<Byte>, lfanew: int): (r: Option<Image>)
    ensures r.Some? ==> r.value.entry < 0x1_0000_0000
  {
    match Read(file, lfanew, NtHeadersSize)
    case None => None
    case Some(nt) =>
      if Unsigned(nt, 0, 4) != NtSignature then None
      else
        var tableStart := lfanew + OptionalHeaderOffset + Unsigned(nt, 20, 2);
        match SectionTable(file, tableStart, Unsigned(nt, 6, 2))
        case None => None
        case Some(table) => Some(Image(Unsigned(nt, 40, 4), table))
  }

  /** `e_lfanew`, the signed 32-bit file offset of the NT headers, at 0x3C of the DOS header. */
  function Lfanew(file: seq<Byte>): int
    requires |file| >= DosHeaderSize
  {
    Signed32(Unsigned(file, LfanewOffset, 4))
  }

  /** The 32-bit NT signature is the bytes 'P' 'E' 0 0. */
  lemma NtSignatureBytes(b: seq<Byte>)
    requires |b| == 4
    ensures LittleEndian(b) == NtSignature <==> b == [0x50, 0x45, 0, 0]
  {
    EncodeDecode(b);
    assert Encode(NtSignature, 4) == [0x50, 0x45, 0, 0];
    DecodeEncode(NtSignature, 4);
  }

  /** A field of a header read from the file at `pos` is the field at `pos + at` of the file. */
  lemma FieldInFile(file: seq<Byte>, pos: nat, h: seq<Byte>, at: nat, n: nat)
    requires pos + |h| <= |file| && at + n <= |h|
    requires forall k :: 0 <= k < |h| ==> h[k] == file[pos + k]
    ensures Unsigned(h, at, n) == Unsigned(file, pos + at, n)
  {
    assert h[at..at + n] == file[pos + at..pos + at + n];
  }

  /** The NT headers at `lfanew`: 248 bytes inside the file that start with "PE\0\0". */
  predicate NtHeadersAt(file: seq<Byte>, lfanew: int)
  {
    0 <= lfanew && lfanew + NtHeadersSize <= |file| && file[lfanew..lfanew + 4] == [0x50, 0x45, 0, 0]
  }

  /**
   * The section table the NT headers at `lfanew` describe: `NumberOfSections` (offset 6) headers
   * right after the optional header, which starts at offset 24 and whose size is at offset 20.
   */
  function TableAfter(file: seq<Byte>, lfanew: nat): Option<seq<Section>>
    requires lfanew + NtHeadersSize <= |file|
  {
    SectionTable(file, lfanew + OptionalHeaderOffset + Unsigned(file, lfanew + 20, 2), Unsigned(file, lfanew + 6, 2))
  }

  /** The NT headers part of `ParseImage` in terms of the file's own bytes. */
  lemma NtHeadersLayout(file: seq<Byte>, lfanew: int)
    ensures ParseNtHeaders(file, lfanew) ==
      if NtHeadersAt(file, lfanew) && TableAfter(file, lfanew).Some?
      then Some(Image(Unsigned(file, lfanew + 40, 4), TableAfter(file, lfanew).value))
      else None
  {
    if 0 <= lfanew && lfanew + NtHeadersSize <= |file| {
      var nt := file[lfanew..lfanew + NtHeadersSize];
      assert Read(file, lfanew, NtHeadersSize) == Some(nt);
      assert nt[0..4] == file[lfanew..lfanew + 4];
      NtSignatureBytes(nt[0..4]);
      FieldInFile(file, lfanew, nt, 6, 2);
      FieldInFile(file, lfanew, nt, 20, 2);
      FieldInFile(file, lfanew, nt, 40, 4);
    }
  }

  /** The DOS header part of `ParseImage`: "MZ" at the start, then the NT headers at `e_lfanew`. */
  lemma DosHeaderLayout(file: seq<Byte>)
    ensures ParseImage(file) ==
      if |file| >= DosHeaderSize && file[0] == 0x4D && file[1] == 0x5A
      then ParseNtHeaders(file, Lfanew(file)) else None
  {
    if |file| >= DosHeaderSize {
      var dos := file[0..DosHeaderSize];
      assert Read(file, 0, DosHeaderSize) == Some(dos);
      SignatureBytes(dos);
      FieldInFile(file, 0, dos, LfanewOffset, 4);
    }
  }

  /**
   * Where `load` finds everything in the file: the headers parse exactly when the file holds a
   * 64-byte DOS header starting "MZ", the NT headers at `e_lfanew` are inside the file and start
   * "PE\0\0", and the section table after the optional header is inside the file; the entry
   * point is then the 32-bit field at offset 40 of the NT headers and the sections are that table.
   */
  lemma ParseImageLayout(file: seq<Byte>)
    ensures ParseImage(file) ==
      if |file| >= DosHeaderSize && file[0] == 0x4D && file[1] == 0x5A &&
         NtHeadersAt(file, Lfanew(file)) && TableAfter(file, Lfanew(file)).Some?
      then Some(Image(Unsigned(file, Lfanew(file) + 40, 4), TableAfter(file, Lfanew(file)).value))
      else None
  {
    DosHeaderLayout(file);
    if |file| >= DosHeaderSize {
      NtHeadersLayout(file, Lfanew(file));
    }
  }

  /** How loading ends: a value, `std::terminate()`, or undefined behaviour. */
  datatype Loading<T> = Done(value: T) | Terminated | Faulted

  /** How many bytes a `read` of `n` bytes at `pos` copies before the file ends. */
  function Available(file: seq<Byte>, pos: nat, n: nat): (k: nat)
    ensures k <= n
    ensures k == n <==> Read(file, pos, n).Some?
  {
    if pos >= |file| then 0 else if pos + n <= |file| then n else |file| - pos
  }

  /** A section whose raw bytes are in the file and whose destination is inside memory. */
  predicate Placeable(size: nat, file: seq<Byte>, base: nat, s: Section)
  {
    Read(file, s.rawPtr, s.rawSize).Some? && Inside(size, base + s.va, s.rawSize)
  }

  /**
   * One iteration of the copy loop: the bytes the `read` copies land at `base + va`; any of
   * them outside memory is a fault, a short read terminates.
   */
  function CopySection(mem: seq<Byte>, file: seq<Byte>, base: nat, s: Section): (r: Loading<seq<Byte>>)
    ensures r.Done? <==> Placeable(|mem|, file, base, s)
    ensures r.Faulted? <==> !Inside(|mem|, base + s.va, Available(file, s.rawPtr, s.rawSize))
    ensures r.Done? ==> |r.value| == |mem|
  {
    if !Inside(|mem|, base + s.va, Available(file, s.rawPtr, s.rawSize)) then Faulted
    else
      match Read(file, s.rawPtr, s.rawSize)
      case None => Terminated
      case Some(bytes) => Done(Splice(mem, base + s.va, bytes))
  }

  /** The copy loop over the sections in table order; the first failure ends it. */
  function CopySections(mem: seq<Byte>, file: seq<Byte>, base: nat, sections: seq<Section>)
    : (r: Loading<seq<Byte>>)
    ensures r.Done? <==> forall j :: 0 <= j < |sections| ==> Placeable(|mem|, file, base, sections[j])
    ensures r.Done? ==> |r.value| == |mem|
    decreases |sections|
  {
    if sections == [] then Done(mem)
    else
      var init := sections[..|sections| - 1];
      assert forall j :: 0 <= j < |init| ==> init[j] == sections[j];
      match CopySections(mem, file, base, init)
      case Done(m) => CopySection(m, file, base, sections[|sections| - 1])
      case Terminated => Terminated
      case Faulted => Faulted
  }

  /** What a successful `load` leaves: the new guest memory and the entry point's offset. */
  datatype Loaded = Loaded(mem: seq<Byte>, entry: nat)

  /**
   * `load(file, base)`: parse the headers, then copy the sections. The entry offset is the
   * header's, whatever `base` is.
   */
  function LoadImage(mem: seq<Byte>, file: seq<Byte>, base: nat): (r: Loading<Loaded>)
    ensures ParseImage(file).None? ==> r == Terminated
    ensures r.Done? ==> ParseImage(file).Some? && r.value.entry == ParseImage(file).value.entry
    ensures r.Done? ==> |r.value.mem| == |mem|
    ensures ParseImage(file).Some? ==>
      (r.Done? <==> forall j :: 0 <= j < |ParseImage(file).value.sections| ==>
         Placeable(|mem|, file, base, ParseImage(file).value.sections[j]))
  {
    match ParseImage(file)
    case None => Terminated
    case Some(image) =>
      match CopySections(mem, file, base, image.sections)
      case Done(m) => Done(Loaded(m, image.entry))
      case Terminated => Terminated
      case Faulted => Faulted
  }

  /** Guest address `a` is written by section `s` loaded at `base`. */
  predicate Covers(s: Section, base: nat, a: int)
  {
    base + s.va <= a < base + s.va + s.rawSize
  }

  /** The index of the last section covering `a`, or -1 when none does. */
  function LastCover(sections: seq<Section>, base: nat, a: int): (i: int)
    ensures -1 <= i < |sections|
    ensures i >= 0 ==> Covers(sections[i], base, a)
    ensures forall j :: i < j < |sections| ==> !Covers(sections[j], base, a)
  {
    if sections == [] then -1
    else if Covers(sections[|sections| - 1], base, a) then |sections| - 1
    else LastCover(sections[..|sections| - 1], base, a)
  }

  /**
   * After the copy loop each byte holds what the last section covering it put there (later
   * sections overwrite earlier ones), and a byte no section covers is unchanged.
   */
  lemma {:induction false} CopiedBytes(mem: seq<Byte>, file: seq<Byte>, base: nat, sections: seq<Section>, a: int)
    requires CopySections(mem, file, base, sections).Done?
    requires 0 <= a < |mem|
    ensures var i := LastCover(sections, base, a);
      i >= 0 ==> ((sections[i].rawPtr + (a - base - sections[i].va) < |file|) &&
                  CopySections(mem, file, base, sections).value[a] ==
                    file[sections[i].rawPtr + (a - base - sections[i].va)])
    ensures LastCover(sections, base, a) < 0 ==> CopySections(mem, file, base, sections).value[a] == mem[a]
    decreases |sections|
  {
    if sections != [] {
      var init := sections[..|sections| - 1];
      var s := sections[|sections| - 1];
      assert forall j :: 0 <= j < |init| ==> init[j] == sections[j];
      var m := CopySections(mem, file, base, init).value;
      CopiedBytes(mem, file, base, init, a);
      assert Placeable(|mem|, file, base, s);
      var bytes := Read(file, s.rawPtr, s.rawSize).value;
      assert CopySections(mem, file, base, sections).value == Splice(m, base + s.va, bytes);
    }
  }

  /** `load` with the section-table loop: reads `count` headers from `pos`. */
  method ReadSectionTable(file: seq<Byte>, pos: int, count: nat) returns (r: Option<seq<Section>>)
    ensures r == SectionTable(file, pos, count)
  {
    var table: seq<Section> := [];
    for i := 0 to count
      invariant SectionTable(file, pos, i) == Some(table)
    {
      var h := Read(file, pos + SectionHeaderSize * i, SectionHeaderSize);
      if h.None? {
        return None;
      }
      table := table + [ParseSection(h.value)];
    }
    return Some(table);
  }

  /** The header part of `load`: the DOS header, the NT headers and the section table. */
  method ReadHeaders(file: seq<Byte>) returns (r: Option<Image>)
    ensures r == ParseImage(file)
  {
    var dos := Read(file, 0, DosHeaderSize);
    if dos.None? {
      return None;
    }
    if Unsigned(dos.value, 0, 2) != DosSignature {
      return None;
    }
    var lfanew := Signed32(Unsigned(dos.value, LfanewOffset, 4));
    var nt := Read(file, lfanew, NtHeadersSize);
    if nt.None? {
      return None;
    }
    if Unsigned(nt.value, 0, 4) != NtSignature {
      return None;
    }
    var tableStart := lfanew + OptionalHeaderOffset + Unsigned(nt.value, 20, 2);
    var table := ReadSectionTable(file, tableStart, Unsigned(nt.value, 6, 2));
    if table.None? {
      return None;
    }
    return Some(Image(Unsigned(nt.value, 40, 4), table.value));
  }

  /** The copy loop of `load`: each section's raw bytes read to `base + VirtualAddress`. */
  method CopyAll(m: Machine, file: seq<Byte>, base: nat, sections: seq<Section>) returns (r: Loading<()>)
    requires m.Valid()
    modifies m.memory
    ensures match CopySections(old(m.memory[..]), file, base, sections)
      case Done(mem) => r == Done(()) && m.memory[..] == mem
      case Terminated => r == Terminated
      case Faulted => r == Faulted
  {
    ghost var mem0 := m.memory[..];
    for i := 0 to |sections|
      invariant CopySections(mem0, file, base, sections[..i]) == Done(m.memory[..])
    {
      var s := sections[i];
      CopyStep(mem0, file, base, sections, i);
      if !Inside(m.memory.Length, base + s.va, Available(file, s.rawPtr, s.rawSize)) {
        FailureSticks(mem0, file, base, sections, i + 1);
        return Faulted;
      }
      var bytes := Read(file, s.rawPtr, s.rawSize);
      if bytes.None? {
        FailureSticks(mem0, file, base, sections, i + 1);
        return Terminated;
      }
      m.Write(base + s.va, bytes.value);
    }
    assert sections[..|sections|] == sections;
    return Done(());
  }

  /**
   * `load(file, base)` on the guest memory of `m`: the headers, the section table, then the
   * sections copied one by one; the result is the entry point's offset from `base`.
   */
  method Load(m: Machine, file: seq<Byte>, base: nat) returns (r: Loading<nat>)
    requires m.Valid()
    modifies m.memory
    ensures match LoadImage(old(m.memory[..]), file, base)
      case Done(loaded) => r == Done(loaded.entry) && m.memory[..] == loaded.mem
      case Terminated => r == Terminated
      case Faulted => r == Faulted
  {
    var image := ReadHeaders(file);
    if image.None? {
      return Terminated;
    }
    var copied := CopyAll(m, file, base, image.value.sections);
    match copied
    case Done(_) => return Done(image.value.entry);
    case Terminated => return Terminated;
    case Faulted => return Faulted;
  }

  /** One more iteration of the copy loop after a successful prefix. */
  lemma CopyStep(mem: seq<Byte>, file: seq<Byte>, base: nat, sections: seq<Section>, i: nat)
    requires i < |sections|
    requires CopySections(mem, file, base, sections[..i]).Done?
    ensures CopySections(mem, file, base, sections[..i + 1]) ==
      CopySection(CopySections(mem, file, base, sections[..i]).value, file, base, sections[i])
  {
    assert sections[..i + 1][..i] == sections[..i];
  }

  /** Once a prefix of the sections fails, the whole copy loop fails the same way. */
  lemma {:induction false} FailureSticks(mem: seq<Byte>, file: seq<Byte>, base: nat, sections: seq<Section>, k: nat)
    requires k <= |sections|
    requires !CopySections(mem, file, base, sections[..k]).Done?
    ensures CopySections(mem, file, base, sections) == CopySections(mem, file, base, sections[..k])
    decreases |sections| - k
  {
    if k < |sections| {
      FailureSticks(mem, file, base, sections, k + 1);
      assert sections[..k + 1][..k] == sections[..k];
    } else {
      assert sections[..k] == sections;
    }
  }
}
