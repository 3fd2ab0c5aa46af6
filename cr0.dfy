/** Model of CR0.h: control register 0. */
module Cr0 {
  import opened BitField
  import HexFormat

  /** The flags CR0.h names, in declaration order. */
  datatype Flag = PE | MP | EM | TS | ET | NE | WP | AM | NW | CD | PG

  /** The bit number of each enumerator; PG is built as `1u << 31`. */
  function Index(f: Flag): (i: nat)
    ensures i < 32
  {
    match f
    case PE => 0 case MP => 1 case EM => 2 case TS => 3 case ET => 4 case NE => 5
    case WP => 16 case AM => 18 case NW => 29 case CD => 30 case PG => 31
  }

  /** The enumerator value `1 << Index(f)`, zero-extended from 32 bits. */
  function Bit(f: Flag): (m: bv64)
    ensures SingleBit(m) && m >> 32 == 0
  {
    1 << Index(f)
  }

  function Name(f: Flag): string
  {
    match f
    case PE => "PE" case MP => "MP" case EM => "EM" case TS => "TS" case ET => "ET"
    case NE => "NE" case WP => "WP" case AM => "AM" case NW => "NW" case CD => "CD"
    case PG => "PG"
  }

  /** Declaration order, which is also the order `format_as` tests the flags in. */
  function Order(): seq<Flag>
  {
    [PE, MP, EM, TS, ET, NE, WP, AM, NW, CD, PG]
  }

  /** Every flag has its place in the order. */
  function Position(f: Flag): (k: nat)
    ensures k < |Order()| && Order()[k] == f
  {
    match f
    case PE => 0 case MP => 1 case EM => 2 case TS => 3 case ET => 4 case NE => 5
    case WP => 6 case AM => 7 case NW => 8 case CD => 9 case PG => 10
  }

  /** The rendering table: name and bit of each flag, in declaration order. */
  function Fields(): (fields: seq<Field>)
    ensures |fields| == |Order()|
    ensures forall k :: 0 <= k < |fields| ==> fields[k] == Field(Name(Order()[k]), Bit(Order()[k]))
  {
    seq(|Order()|, k requires 0 <= k < |Order()| => Field(Name(Order()[k]), Bit(Order()[k])))
  }

  /**
   * `clear_X` as written: `value &= ~X`. The enumeration needs `unsigned int` to hold PG, so
   * `~X` is a 32-bit complement and is zero-extended before the AND.
   */
  function ClearAsWritten(v: bv64, f: Flag): bv64
  {
    v & ((!(Bit(f) as bv32)) as bv64)
  }

  /** The complement as written keeps no bit above 31: `clear_X` wipes the upper half. */
  lemma ClearAsWrittenWipesHighHalf(v: bv64, f: Flag)
    ensures ClearAsWritten(v, f) >> 32 == 0
  {
  }

  /** A value with bit 32 set: clearing PE as written loses that bit, clearing only PE keeps it. */
  lemma ClearAsWrittenCounterexample()
    ensures ClearAsWritten(1 << 32, PE) == 0
    ensures BitField.Clear(1 << 32, Bit(PE)) == 1 << 32
  {
  }

  /** `CR0`: a 64-bit `value`, zero by default. */
  class Register {
    var value: bv64

    constructor ()
      ensures value == 0
      ensures forall f :: !Get(f)
    {
      value := 0;
    }

    /** `get_X`: whether X's bit is set. */
    predicate Get(f: Flag)
      reads this
    {
      Has(value, Bit(f))
    }

    /** `set_X`: `value |= X`; no bit above 31 is touched, PG included. */
    method SetFlag(f: Flag)
      modifies this
      ensures value == BitField.Set(old(value), Bit(f))
      ensures Get(f)
      ensures value & !Bit(f) == old(value) & !Bit(f)
    {
      HasAfterSet(value, Bit(f));
      value := BitField.Set(value, Bit(f));
    }

    /** `clear_X` with the complement taken over 64 bits: only X's bit changes. */
    method ClearFlag(f: Flag)
      modifies this
      ensures value == BitField.Clear(old(value), Bit(f))
      ensures !Get(f)
      ensures value & !Bit(f) == old(value) & !Bit(f)
    {
      NotHasAfterClear(value, Bit(f));
      value := BitField.Clear(value, Bit(f));
    }
  }

  /** Because every mask, PG's included, lies in the lower half, `set_X` keeps the upper half. */
  lemma SetKeepsHighHalf(v: bv64, f: Flag)
    ensures BitField.Set(v, Bit(f)) >> 32 == v >> 32
  {
    HighHalfAfterSet(v, Bit(f));
  }

  lemma HighHalfAfterSet(v: bv64, m: bv64)
    requires m >> 32 == 0
    ensures (v | m) >> 32 == v >> 32
  {
  }

  /** `cr0 >> 32` as a number: the upper 32 bits. */
  function HighHalf(v: bv64): (n: nat)
    ensures n < 0x1_0000_0000
  {
    ((v >> 32) as bv32) as nat
  }

  /** The text `format_as` produces for a value. */
  function Render(v: bv64): string
  {
    Spaced(Listed(v, Fields())) + HexFormat.Alternate010(HighHalf(v))
  }

  /**
   * `format_as`: the names of the set flags in declaration order, each followed by a space,
   * then `{:#010x}` of the upper 32 bits.
   */
  method FormatAs(cr0: Register) returns (result: string)
    ensures result == Render(cr0.value)
  {
    result := AppendSet(cr0.value, Fields());
    result := result + HexFormat.Alternate010(HighHalf(cr0.value));
  }

  lemma NamesAreWords()
    ensures forall k :: 0 <= k < |Fields()| ==> Word(Fields()[k].name)
  {
    forall f ensures Word(Name(f)) {
    }
  }

  /**
   * The rendering splits at its spaces into the names of the set flags followed by the
   * ten-character hexadecimal upper half (which reads back by HexFormat.Alternate010RoundTrip).
   */
  lemma FormatReadsBack(v: bv64)
    ensures Split(Render(v)) == Listed(v, Fields()) + [HexFormat.Alternate010(HighHalf(v))]
    ensures |HexFormat.Alternate010(HighHalf(v))| == 10
  {
    var hex := HexFormat.Alternate010(HighHalf(v));
    NamesAreWords();
    ListedWords(v, Fields());
    HexFormat.Alternate010Width(HighHalf(v));
    HexFormat.Alternate010NoSpace(HighHalf(v));
    SplitSpacedThenWord(Listed(v, Fields()), hex);
  }
}
