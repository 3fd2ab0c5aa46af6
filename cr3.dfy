/** Model of CR3.h: control register 3, the page-directory base register. */
module Cr3 {
  import opened BitField
  import opened Wrappers
  import HexFormat

  /** The flags CR3.h names: page-level write-through and page-level cache disable. */
  datatype Flag = PWT | PCD

  function Index(f: Flag): (i: nat)
    ensures i == 3 || i == 4
  {
    match f
    case PWT => 3
    case PCD => 4
  }

  /** The enumerator value `1 << Index(f)`. */
  function Bit(f: Flag): (m: bv64)
    ensures SingleBit(m)
  {
    1 << Index(f)
  }

  function Name(f: Flag): string
  {
    match f
    case PWT => "PWT"
    case PCD => "PCD"
  }

  /** The rendering table, in declaration order. */
  function Fields(): (fields: seq<Field>)
    ensures |fields| == 2
    ensures fields[0] == Field(Name(PWT), Bit(PWT)) && fields[1] == Field(Name(PCD), Bit(PCD))
  {
    [Field(Name(PWT), Bit(PWT)), Field(Name(PCD), Bit(PCD))]
  }

  /**
   * The mask as written, the hexadecimal literal `0x1111'1111'1111`: bits 0, 4, 8, ..., 44.
   */
  const HexMask: bv64 := 0x1111_1111_1111

  /** The mask the "not 12 bit aligned" check means: the low twelve bits. */
  const AlignMask: bv64 := 0xFFF

  /** The bits the hexadecimal mask covers. */
  lemma HexMaskBits(i: nat)
    requires i < 64
    ensures HexMask & (1 << i) != 0 <==> i % 4 == 0 && i <= 44
  {
  }

  /** `get_page_directory_base` under a mask: the value without the masked bits. */
  function BaseUnder(v: bv64, mask: bv64): bv64
  {
    v & !mask
  }

  /**
   * `set_page_directory_base(pdb)` under a mask: an exception (None) when `pdb` meets the mask,
   * otherwise the masked bits of the old value under the bits of `pdb`.
   */
  function WithBaseUnder(v: bv64, pdb: bv64, mask: bv64): (r: Option<bv64>)
    ensures r.None? <==> pdb & mask != 0
  {
    if pdb & mask != 0 then None else Some(pdb | (v & mask))
  }

  /** After a successful set, `get_page_directory_base` returns `pdb`. */
  lemma BaseReadsBack(v: bv64, pdb: bv64, mask: bv64)
    requires WithBaseUnder(v, pdb, mask).Some?
    ensures BaseUnder(WithBaseUnder(v, pdb, mask).value, mask) == pdb
  {
    OrUnderMask(v, pdb, mask);
  }

  lemma OrUnderMask(v: bv64, pdb: bv64, mask: bv64)
    requires pdb & mask == 0
    ensures (pdb | (v & mask)) & !mask == pdb
    ensures (pdb | (v & mask)) & mask == v & mask
  {
  }

  /** A successful set keeps the masked bits of the old value and takes every other bit from `pdb`. */
  lemma WithBaseKeepsMasked(v: bv64, pdb: bv64, mask: bv64)
    requires WithBaseUnder(v, pdb, mask).Some?
    ensures WithBaseUnder(v, pdb, mask).value & mask == v & mask
  {
    OrUnderMask(v, pdb, mask);
  }

  /** As written: PCD (bit 4) lies under the mask and survives a new base. */
  lemma AsWrittenKeepsPcd(v: bv64, pdb: bv64)
    requires WithBaseUnder(v, pdb, HexMask).Some?
    ensures Has(WithBaseUnder(v, pdb, HexMask).value, Bit(PCD)) == Has(v, Bit(PCD))
  {
  }

  /** As written: PWT (bit 3) lies outside the mask and is taken from `pdb`. */
  lemma AsWrittenTakesPwtFromBase(v: bv64, pdb: bv64)
    requires WithBaseUnder(v, pdb, HexMask).Some?
    ensures Has(WithBaseUnder(v, pdb, HexMask).value, Bit(PWT)) == Has(pdb, Bit(PWT))
  {
  }

  /**
   * As written, the check rejects the 4 KiB-aligned base 0x1000 (the one the bootstrap puts in
   * CR3) and accepts the unaligned base 0x2.
   */
  lemma AsWrittenCounterexample()
    ensures WithBaseUnder(0, 0x1000, HexMask).None?
    ensures WithBaseUnder(0, 0x2, HexMask) == Some(0x2)
  {
  }

  /** With the twelve-bit mask, a base is accepted exactly when it is 4 KiB aligned. */
  lemma {:induction false} AlignedAccepted(v: bv64, pdb: bv64)
    ensures WithBaseUnder(v, pdb, AlignMask).Some? <==> pdb % 0x1000 == 0
  {
    AlignMaskIsRemainder(pdb);
  }

  lemma AlignMaskIsRemainder(x: bv64)
    ensures x & AlignMask == x % 0x1000
  {
  }

  /** With the twelve-bit mask both flags lie under the mask and survive a new base. */
  lemma AlignedKeepsFlags(v: bv64, pdb: bv64, f: Flag)
    requires WithBaseUnder(v, pdb, AlignMask).Some?
    ensures Has(WithBaseUnder(v, pdb, AlignMask).value, Bit(f)) == Has(v, Bit(f))
  {
    assert WithBaseUnder(v, pdb, AlignMask) == Some(pdb | (v & 0xFFF));
    LowBitsAgree(v, pdb);
    match f
    case PWT => assert Bit(PWT) == 8;
    case PCD => assert Bit(PCD) == 16;
  }

  lemma LowBitsAgree(v: bv64, pdb: bv64)
    requires pdb & 0xFFF == 0
    ensures (pdb | (v & 0xFFF)) & 8 == v & 8
    ensures (pdb | (v & 0xFFF)) & 16 == v & 16
  {
  }

  /** `CR3`: a 64-bit `value`, zero by default. */
  class Register {
    var value: bv64

    constructor ()
      ensures value == 0
      ensures forall f :: !Get(f)
      ensures PageDirectoryBase() == 0
    {
      value := 0;
    }

    /** `get_X`: whether X's bit is set. */
    predicate Get(f: Flag)
      reads this
    {
      Has(value, Bit(f))
    }

    /** `set_X`: `value |= X`. */
    method SetFlag(f: Flag)
      modifies this
      ensures value == BitField.Set(old(value), Bit(f))
      ensures Get(f)
      ensures value & !Bit(f) == old(value) & !Bit(f)
    {
      HasAfterSet(value, Bit(f));
      value := BitField.Set(value, Bit(f));
    }

    /** `clear_X`: `value &= ~X`. */
    method ClearFlag(f: Flag)
      modifies this
      ensures value == BitField.Clear(old(value), Bit(f))
      ensures !Get(f)
      ensures value & !Bit(f) == old(value) & !Bit(f)
    {
      NotHasAfterClear(value, Bit(f));
      value := BitField.Clear(value, Bit(f));
    }

    /** `get_page_directory_base`, with the twelve-bit mask. */
    function PageDirectoryBase(): bv64
      reads this
    {
      BaseUnder(value, AlignMask)
    }

    /**
     * `set_page_directory_base`, with the twelve-bit mask: `ok` is false where the source
     * throws, and then nothing changes.
     */
    method SetPageDirectoryBase(pdb: bv64) returns (ok: bool)
      modifies this
      ensures ok <==> pdb % 0x1000 == 0
      ensures ok ==> Some(value) == WithBaseUnder(old(value), pdb, AlignMask)
      ensures ok ==> PageDirectoryBase() == pdb
      ensures !ok ==> value == old(value)
    {
      AlignedAccepted(value, pdb);
      var r := WithBaseUnder(value, pdb, AlignMask);
      if r.None? {
        return false;
      }
      value := r.value;
      return true;
    }
  }

  /** The text `format_as` produces: the set flags, each followed by a space, then `PBD=` and the base. */
  function Render(v: bv64, mask: bv64): string
  {
    Spaced(Listed(v, Fields())) + ("PBD=" + HexFormat.Alternate010(BaseUnder(v, mask) as nat))
  }

  /**
   * `format_as`, with the twelve-bit mask in place of the hexadecimal literal, so that the base
   * it prints is the one `PageDirectoryBase` returns.
   */
  method FormatAs(cr3: Register) returns (result: string)
    ensures result == Render(cr3.value, AlignMask)
  {
    result := AppendSet(cr3.value, Fields());
    result := result + ("PBD=" + HexFormat.Alternate010(cr3.PageDirectoryBase() as nat));
  }

  /** The rendering splits into the set flags and one `PBD=` word from which the base reads back. */
  lemma FormatReadsBack(v: bv64, mask: bv64)
    ensures Split(Render(v, mask)) == Listed(v, Fields()) + ["PBD=" + HexFormat.Alternate010(BaseUnder(v, mask) as nat)]
    ensures HexFormat.Value(("PBD=" + HexFormat.Alternate010(BaseUnder(v, mask) as nat))[6..]) == BaseUnder(v, mask) as nat
  {
    forall k | 0 <= k < |Fields()| ensures Word(Fields()[k].name) {
    }
    ListedWords(v, Fields());
    BaseWord(Listed(v, Fields()), BaseUnder(v, mask) as nat);
  }

  /**
   * As written, `format_as` masks with the hexadecimal literal too: for 0x1008 (base 0x1000 with
   * PWT set) it prints the base as 0x00000008, where the twelve-bit mask gives the base 0x1000
   * (and `FormatReadsBack` shows that the printed word reads back as the base).
   */
  lemma AsWrittenFormatCounterexample()
    ensures BaseUnder(0x1008, HexMask) == 0x8
    ensures BaseUnder(0x1008, AlignMask) == 0x1000
    ensures Render(0x1008, HexMask) == "PWT PBD=0x00000008"
  {
    Bases1008();
    Listed1008();
    PaddedEight();
    RenderParts(0x1008, HexMask, ["PWT"], 8);
  }

  lemma RenderParts(v: bv64, mask: bv64, names: seq<string>, n: nat)
    requires Listed(v, Fields()) == names && BaseUnder(v, mask) as nat == n
    ensures Render(v, mask) == Spaced(names) + ("PBD=" + HexFormat.Alternate010(n))
  {
  }

  lemma Bases1008()
    ensures BaseUnder(0x1008, HexMask) == 0x8
    ensures BaseUnder(0x1008, AlignMask) == 0x1000
    ensures BaseUnder(0x1008, HexMask) as nat == 8
    ensures BaseUnder(0x1008, AlignMask) as nat == 0x1000
  {
  }

  lemma Listed1008()
    ensures Listed(0x1008, Fields()) == ["PWT"]
    ensures Spaced(["PWT"]) == "PWT "
  {
  }

  lemma PaddedEight()
    ensures HexFormat.Alternate010(8) == "0x00000008"
  {
  }

  lemma {:induction false} BaseWord(names: seq<string>, n: nat)
    requires forall k :: 0 <= k < |names| ==> Word(names[k])
    ensures Split(Spaced(names) + ("PBD=" + HexFormat.Alternate010(n))) == names + ["PBD=" + HexFormat.Alternate010(n)]
    ensures HexFormat.Value(("PBD=" + HexFormat.Alternate010(n))[6..]) == n
  {
    var hex := HexFormat.Alternate010(n);
    var w := "PBD=" + hex;
    HexFormat.Alternate010NoSpace(n);
    HexFormat.Alternate010RoundTrip(n);
    assert ' ' !in "PBD=";
    assert w[6..] == hex[2..];
    SplitSpacedThenWord(names, w);
  }
}
