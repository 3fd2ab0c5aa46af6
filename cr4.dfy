/** Model of CR4.h: control register 4. */
module Cr4 {
  import opened BitField

  /** The flags CR4.h names, in declaration order. Bit 15 carries none. */
  datatype Flag =
    | VME | PVI | TSD | DE | PSE | PAE | MCE | PGE | PCE | OSFXSR | OSXMMEXCPT | UMIP | LA57
    | VMXE | SMXE | FSGSBASE | PCIDE | OSXSAVE | KL | SMEP | SMAP | PKE | CET | PKS | UINTR

  /** The bit number of each enumerator. */
  function Index(f: Flag): (i: nat)
    ensures i < 26 && i != 15
  {
    match f
    case VME => 0 case PVI => 1 case TSD => 2 case DE => 3 case PSE => 4 case PAE => 5
    case MCE => 6 case PGE => 7 case PCE => 8 case OSFXSR => 9 case OSXMMEXCPT => 10
    case UMIP => 11 case LA57 => 12 case VMXE => 13 case SMXE => 14 case FSGSBASE => 16
    case PCIDE => 17 case OSXSAVE => 18 case KL => 19 case SMEP => 20 case SMAP => 21
    case PKE => 22 case CET => 23 case PKS => 24 case UINTR => 25
  }

  /** The enumerator value `1 << Index(f)`. */
  function Bit(f: Flag): (m: bv64)
    ensures SingleBit(m)
  {
    1 << Index(f)
  }

  function Name(f: Flag): string
  {
    match f
    case VME => "VME" case PVI => "PVI" case TSD => "TSD" case DE => "DE" case PSE => "PSE"
    case PAE => "PAE" case MCE => "MCE" case PGE => "PGE" case PCE => "PCE" case OSFXSR => "OSFXSR"
    case OSXMMEXCPT => "OSXMMEXCPT" case UMIP => "UMIP" case LA57 => "LA57" case VMXE => "VMXE"
    case SMXE => "SMXE" case FSGSBASE => "FSGSBASE" case PCIDE => "PCIDE" case OSXSAVE => "OSXSAVE"
    case KL => "KL" case SMEP => "SMEP" case SMAP => "SMAP" case PKE => "PKE" case CET => "CET"
    case PKS => "PKS" case UINTR => "UINTR"
  }

  /** Declaration order, which is also the order `format_as` tests the flags in. */
  function Order(): seq<Flag>
  {
    [VME, PVI, TSD, DE, PSE, PAE, MCE, PGE, PCE, OSFXSR, OSXMMEXCPT, UMIP, LA57, VMXE, SMXE,
     FSGSBASE, PCIDE, OSXSAVE, KL, SMEP, SMAP, PKE, CET, PKS, UINTR]
  }

  /** Every flag has its place in the order (the order lists them by increasing bit number). */
  function Position(f: Flag): (k: nat)
    ensures k < |Order()| && Order()[k] == f
  {
    if Index(f) < 15 then Index(f) else Index(f) - 1
  }

  /** The rendering table: name and bit of each flag, in declaration order. */
  function Fields(): (fields: seq<Field>)
    ensures |fields| == |Order()|
    ensures forall k :: 0 <= k < |fields| ==> fields[k] == Field(Name(Order()[k]), Bit(Order()[k]))
  {
    seq(|Order()|, k requires 0 <= k < |Order()| => Field(Name(Order()[k]), Bit(Order()[k])))
  }

  /** `CR4`: a 64-bit `value`, zero by default. */
  class Register {
    var value: bv64

    constructor ()
      ensures value == 0
      ensures forall f :: !Get(f)
    {
      value := 0;
    }

    /** `get_X`: whether X's bit is set. */
    predicate Get(f: Flag)
      reads this
    {
      Has(value, Bit(f))
    }

    /** `set_X`: `value |= X` (for VME with the operator corrected, see SetVmeAsWritten). */
    method SetFlag(f: Flag)
      modifies this
      ensures value == BitField.Set(old(value), Bit(f))
      ensures Get(f)
      ensures value & !Bit(f) == old(value) & !Bit(f)
    {
      HasAfterSet(value, Bit(f));
      value := BitField.Set(value, Bit(f));
    }
  }

  /** `set_vme` as written: `value &= VME`, which keeps bit 0 as it was and clears every other bit. */
  function SetVmeAsWritten(v: bv64): (r: bv64)
    ensures Has(r, Bit(VME)) == Has(v, Bit(VME))
    ensures r & !Bit(VME) == 0
  {
    v & Bit(VME)
  }

  /**
   * On a value with only PAE set, `set_vme` as written leaves VME clear and wipes PAE; setting
   * VME with `|=` sets it and keeps PAE.
   */
  lemma SetVmeAsWrittenCounterexample()
    ensures SetVmeAsWritten(Bit(PAE)) == 0
    ensures !Has(SetVmeAsWritten(Bit(PAE)), Bit(VME))
    ensures BitField.Set(Bit(PAE), Bit(VME)) == Bit(PAE) | Bit(VME)
    ensures Has(BitField.Set(Bit(PAE), Bit(VME)), Bit(VME))
  {
    assert Bit(PAE) == 0x20 && Bit(VME) == 1;
  }

  /**
   * `format_as`: the names of the set flags in declaration order, each followed by a space,
   * then the trailing space removed.
   */
  method FormatAs(cr4: Register) returns (result: string)
    ensures result == Join(Listed(cr4.value, Fields()))
    ensures result == "" <==> forall f :: !cr4.Get(f)
  {
    result := AppendSet(cr4.value, Fields());
    PopBack(Listed(cr4.value, Fields()), result);
    result := PopBackIfAny(result);
    NothingListed(cr4.value);
    assert forall f :: cr4.Get(f) == Has(cr4.value, Bit(f));
  }

  lemma NamesAreWords()
    ensures forall k :: 0 <= k < |Fields()| ==> Word(Fields()[k].name)
  {
    forall f ensures Word(Name(f)) {
    }
  }

  /** The rendering is empty exactly when no flag is set. */
  lemma NothingListed(v: bv64)
    ensures Join(Listed(v, Fields())) == "" <==> forall f :: !Has(v, Bit(f))
  {
    var fields := Fields();
    NamesAreWords();
    ListedWords(v, fields);
    JoinEmpty(Listed(v, fields));
    ListedEmpty(v, fields);
    forall f ensures fields[Position(f)].mask == Bit(f) {
    }
  }

  /** The rendering splits back into the names of exactly the set flags, in declaration order. */
  lemma FormatReadsBack(v: bv64)
    ensures Split(Join(Listed(v, Fields()))) == Listed(v, Fields())
  {
    NamesAreWords();
    ListedWords(v, Fields());
    SplitJoin(Listed(v, Fields()));
  }

  /** Different flags sit on different bits. */
  lemma {:induction false} DistinctBits(f: Flag, g: Flag)
    requires f != g
    ensures Index(f) != Index(g)
  {
    assert Order()[Position(f)] == f && Order()[Position(g)] == g;
  }

  /** The flags occupy exactly bits 0 to 14 and 16 to 25. */
  lemma {:induction false} BitsCovered(i: nat)
    requires i < 26 && i != 15
    ensures exists f :: Index(f) == i
  {
    var f := Order()[if i < 15 then i else i - 1];
    assert Index(f) == i;
  }
}
