/** Model of Rflags.h: the RFLAGS register. */
module Rflags {
  import opened BitField

  /** The single-bit flags Rflags.h names, in declaration order (IOPL is a two-bit field). */
  datatype Flag = CF | PF | AF | ZF | SF | TF | IF | DF | OF | NT | RF | VM | AC | VIF | VIP | ID

  /** The bit number of each enumerator; bits 12 and 13 are the IOPL field. */
  function Index(f: Flag): (i: nat)
    ensures i < 22 && i != IoplLow && i != IoplHigh
  {
    match f
    case CF => 0 case PF => 2 case AF => 4 case ZF => 6 case SF => 7 case TF => 8
    case IF => 9 case DF => 10 case OF => 11 case NT => 14 case RF => 16 case VM => 17
    case AC => 18 case VIF => 19 case VIP => 20 case ID => 21
  }

  /** `IOPL_L` and `IOPL_H`: the bit numbers of the I/O privilege level. */
  const IoplLow: nat := 12
  const IoplHigh: nat := 13

  /** The enumerator value `1 << Index(f)`. */
  function Bit(f: Flag): (m: bv64)
    ensures SingleBit(m)
  {
    1 << Index(f)
  }

  const IoplLowBit: bv64 := 0x1000
  const IoplHighBit: bv64 := 0x2000

  function Name(f: Flag): string
  {
    match f
    case CF => "CF" case PF => "PF" case AF => "AF" case ZF => "ZF" case SF => "SF"
    case TF => "TF" case IF => "IF" case DF => "DF" case OF => "OF" case NT => "NT"
    case RF => "RF" case VM => "VM" case AC => "AC" case VIF => "VIF" case VIP => "VIP"
    case ID => "ID"
  }

  /** The flags `format_as` lists before the IOPL field, in order. */
  function LowOrder(): seq<Flag>
  {
    [CF, PF, AF, ZF, SF, TF, IF, DF, OF]
  }

  /** The flags `format_as` lists after the IOPL field, in order. */
  function HighOrder(): seq<Flag>
  {
    [NT, RF, VM, AC, VIF, VIP, ID]
  }

  function Table(order: seq<Flag>): (fields: seq<Field>)
    ensures |fields| == |order|
    ensures forall k :: 0 <= k < |fields| ==> fields[k] == Field(Name(order[k]), Bit(order[k]))
  {
    seq(|order|, k requires 0 <= k < |order| => Field(Name(order[k]), Bit(order[k])))
  }

  /** `get_iopl`: `(iopl_h << 1) | iopl_l`. */
  function IoplOf(v: bv64): (n: int)
    ensures 0 <= n <= 3
  {
    (if Has(v, IoplHighBit) then 2 else 0) + (if Has(v, IoplLowBit) then 1 else 0)
  }

  /** The IOPL bits and nothing else. */
  const IoplMask: bv64 := 0x3000

  /** `Rflags`: a 64-bit `value`, 2 by default (bit 1 is reserved and always set). */
  class Register {
    var value: bv64

    constructor ()
      ensures value == 2
      ensures forall f :: !Get(f)
      ensures Iopl() == 0
    {
      value := 2;
      forall f ensures !Has(2, Bit(f)) {
        DefaultClear(f);
      }
    }

    /** `get_X`: whether X's bit is set. */
    predicate Get(f: Flag)
      reads this
    {
      Has(value, Bit(f))
    }

    /** `get_iopl`. */
    function Iopl(): (n: int)
      reads this
    {
      IoplOf(value)
    }

    /** `set_X`: `value |= X`. */
    method SetFlag(f: Flag)
      modifies this
      ensures value == BitField.Set(old(value), Bit(f))
      ensures Get(f)
      ensures value & !Bit(f) == old(value) & !Bit(f)
    {
      HasAfterSet(value, Bit(f));
      value := BitField.Set(value, Bit(f));
    }

    /**
     * `set_iopl(iopl)`, with the `int` argument as its 32 two's-complement bits: bit 12 is
     * set or cleared from `iopl & 1`, then bit 13 from `iopl & 2`.
     */
    method SetIopl(iopl: bv32)
      modifies this
      ensures value == WithIopl(old(value), iopl)
      ensures Iopl() == (iopl & 3) as int
    {
      IoplReadsBack(value, iopl);
      value := Write(value, iopl & 1 != 0, IoplLowBit);
      value := Write(value, iopl & 2 != 0, IoplHighBit);
    }
  }

  /** Bit 12 written from `low`, then bit 13 from `high`. */
  function WithBits(v: bv64, low: bool, high: bool): bv64
  {
    Write(Write(v, low, IoplLowBit), high, IoplHighBit)
  }

  /** The value after `set_iopl(iopl)`. */
  function WithIopl(v: bv64, iopl: bv32): bv64
  {
    WithBits(v, iopl & 1 != 0, iopl & 2 != 0)
  }

  /** Both written bits read back as written. */
  lemma BitsRead(v: bv64, low: bool, high: bool)
    ensures Has(WithBits(v, low, high), IoplLowBit) == low
    ensures Has(WithBits(v, low, high), IoplHighBit) == high
  {
  }

  /** Writing the two IOPL bits changes no other bit. */
  lemma BitsKeepRest(v: bv64, low: bool, high: bool)
    ensures WithBits(v, low, high) & !IoplMask == v & !IoplMask
  {
  }

  /** `get_iopl` after `set_iopl(iopl)` returns the two low bits of `iopl`: n itself for n in 0..3. */
  lemma IoplReadsBack(v: bv64, iopl: bv32)
    ensures IoplOf(WithIopl(v, iopl)) == (iopl & 3) as int
  {
    BitsRead(v, iopl & 1 != 0, iopl & 2 != 0);
    TwoLowBits(iopl);
  }

  /** `set_iopl` changes only bits 12 and 13. */
  lemma WithIoplKeepsRest(v: bv64, iopl: bv32)
    ensures WithIopl(v, iopl) & !IoplMask == v & !IoplMask
  {
    BitsKeepRest(v, iopl & 1 != 0, iopl & 2 != 0);
  }

  lemma DefaultClear(f: Flag)
    ensures !Has(2, Bit(f))
  {
  }

  /** The two low bits of an integer, read one at a time. */
  lemma TwoLowBits(x: bv32)
    ensures (x & 3) as int == (if x & 2 != 0 then 2 else 0) + (if x & 1 != 0 then 1 else 0)
  {
  }

  /** The word `IOPL=n` for the IOPL field of a value. */
  function IoplWord(v: bv64): string
  {
    "IOPL=" + [(48 + IoplOf(v)) as char]
  }

  /** The words `format_as` renders: the low flags, the IOPL word, the high flags. */
  function Words(v: bv64): seq<string>
  {
    Listed(v, Table(LowOrder())) + [IoplWord(v)] + Listed(v, Table(HighOrder()))
  }

  /**
   * `format_as`: the set flags CF to OF, `IOPL=n`, the set flags NT to ID, each followed by
   * a space; then the last character is popped, which the IOPL word makes always present.
   */
  method FormatAs(rflags: Register) returns (result: string)
    ensures result == Join(Words(rflags.value))
  {
    var v := rflags.value;
    result := AppendSet(v, Table(LowOrder()));
    result := result + (IoplWord(v) + " ");
    var high := AppendSet(v, Table(HighOrder()));
    result := result + high;
    RenderWords(v);
    PopBack(Words(v), result);
    result := result[..|result| - 1];
  }

  lemma RenderWords(v: bv64)
    ensures Spaced(Words(v)) ==
      Spaced(Listed(v, Table(LowOrder()))) + (IoplWord(v) + " ") + Spaced(Listed(v, Table(HighOrder())))
  {
    var low := Listed(v, Table(LowOrder()));
    var high := Listed(v, Table(HighOrder()));
    SpacedAppend(low + [IoplWord(v)], high);
    SpacedSnoc(low, IoplWord(v));
  }

  /** Every flag name in a table is a word. */
  lemma TableWords(order: seq<Flag>)
    ensures forall k :: 0 <= k < |Table(order)| ==> Word(Table(order)[k].name)
  {
    forall k | 0 <= k < |Table(order)| ensures Word(Table(order)[k].name) {
      assert Table(order)[k].name == Name(order[k]);
    }
  }

  /** `IOPL=` followed by one digit is a word. */
  lemma IoplWordIsWord(v: bv64)
    ensures Word(IoplWord(v))
  {
    var w := IoplWord(v);
    assert w == "IOPL=" + [w[5]];
    assert w[5] != ' ';
  }

  /** Every rendered word is non-empty and has no space. */
  lemma WordsAreWords(v: bv64)
    ensures forall k :: 0 <= k < |Words(v)| ==> Word(Words(v)[k])
  {
    var low := Listed(v, Table(LowOrder()));
    var high := Listed(v, Table(HighOrder()));
    TableWords(LowOrder());
    TableWords(HighOrder());
    ListedWords(v, Table(LowOrder()));
    ListedWords(v, Table(HighOrder()));
    IoplWordIsWord(v);
    WordsConcat(low, [IoplWord(v)]);
    WordsConcat(low + [IoplWord(v)], high);
  }

  /** The rendering splits back into the set flags and the IOPL word. */
  lemma FormatReadsBack(v: bv64)
    ensures Split(Join(Words(v))) == Words(v)
  {
    WordsAreWords(v);
    SplitJoin(Words(v));
  }
}
