/** Model of EFER.h: the extended feature enable register. */
module Efer {
  import opened BitField

  /**
   * The flags EFER.h names, in declaration order: system-call extensions, long mode enable,
   * long mode active, no-execute enable.
   */
  datatype Flag = SCE | LME | LMA | NXE

  /** The bit number of each enumerator. */
  function Index(f: Flag): (i: nat)
    ensures i < 12
  {
    match f
    case SCE => 0
    case LME => 8
    case LMA => 10
    case NXE => 11
  }

  /** The enumerator value `1 << Index(f)`. */
  function Bit(f: Flag): (m: bv64)
    ensures SingleBit(m)
  {
    1 << Index(f)
  }

  function Name(f: Flag): string
  {
    match f
    case SCE => "SCE"
    case LME => "LME"
    case LMA => "LMA"
    case NXE => "NXE"
  }

  /** Declaration order, which is also the order `format_as` tests the flags in. */
  function Order(): seq<Flag>
  {
    [SCE, LME, LMA, NXE]
  }

  /** Every flag has its place in the order. */
  function Position(f: Flag): (k: nat)
    ensures k < |Order()| && Order()[k] == f
  {
    match f
    case SCE => 0
    case LME => 1
    case LMA => 2
    case NXE => 3
  }

  /** The rendering table: name and bit of each flag, in declaration order. */
  function Fields(): (fields: seq<Field>)
    ensures |fields| == |Order()|
    ensures forall k :: 0 <= k < |fields| ==> fields[k] == Field(Name(Order()[k]), Bit(Order()[k]))
  {
    seq(|Order()|, k requires 0 <= k < |Order()| => Field(Name(Order()[k]), Bit(Order()[k])))
  }

  /** `EFER`: a 64-bit `value`, zero by default. */
  class Register {
    var value: bv64

    constructor ()
      ensures value == 0
      ensures forall f :: !Get(f)
    {
      value := 0;
    }

    /** `get_X`: whether X's bit is set. */
    predicate Get(f: Flag)
      reads this
    {
      Has(value, Bit(f))
    }

    /** `set_X`: `value |= X`. */
    method SetFlag(f: Flag)
      modifies this
      ensures value == BitField.Set(old(value), Bit(f))
      ensures Get(f)
      ensures value & !Bit(f) == old(value) & !Bit(f)
    {
      HasAfterSet(value, Bit(f));
      value := BitField.Set(value, Bit(f));
    }

    /** `clear_X`: `value &= ~X`. */
    method ClearFlag(f: Flag)
      modifies this
      ensures value == BitField.Clear(old(value), Bit(f))
      ensures !Get(f)
      ensures value & !Bit(f) == old(value) & !Bit(f)
    {
      NotHasAfterClear(value, Bit(f));
      value := BitField.Clear(value, Bit(f));
    }
  }

  /**
   * `format_as`: the names of the set flags in declaration order, each followed by a space,
   * then the trailing space removed.
   */
  method FormatAs(efer: Register) returns (result: string)
    ensures result == Join(Listed(efer.value, Fields()))
    ensures result == "" <==> forall f :: !efer.Get(f)
  {
    result := AppendSet(efer.value, Fields());
    PopBack(Listed(efer.value, Fields()), result);
    result := PopBackIfAny(result);
    NothingListed(efer.value);
    assert forall f :: efer.Get(f) == Has(efer.value, Bit(f));
  }

  lemma NamesAreWords()
    ensures forall k :: 0 <= k < |Fields()| ==> Word(Fields()[k].name)
  {
    forall f ensures Word(Name(f)) {
    }
  }

  /** The rendering is empty exactly when no flag is set. */
  lemma NothingListed(v: bv64)
    ensures Join(Listed(v, Fields())) == "" <==> forall f :: !Has(v, Bit(f))
  {
    var fields := Fields();
    NamesAreWords();
    ListedWords(v, fields);
    JoinEmpty(Listed(v, fields));
    ListedEmpty(v, fields);
    forall f ensures fields[Position(f)].mask == Bit(f) {
    }
  }

  /** The rendering splits back into the names of exactly the set flags, in declaration order. */
  lemma FormatReadsBack(v: bv64)
    ensures Split(Join(Listed(v, Fields()))) == Listed(v, Fields())
  {
    NamesAreWords();
    ListedWords(v, Fields());
    SplitJoin(Listed(v, Fields()));
  }

  /** Different flags sit on different bits. */
  lemma {:induction false} DistinctBits(f: Flag, g: Flag)
    requires f != g
    ensures Index(f) != Index(g)
  {
    assert Order()[Position(f)] == f && Order()[Position(g)] == g;
  }
}
