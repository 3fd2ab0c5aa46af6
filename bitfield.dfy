/**
 * Shared vocabulary of the control-register and flags types (Rflags.h, CR0.h, CR3.h, CR4.h,
 * EFER.h): a register is a 64-bit `value`, each named flag is one bit of it, setters OR the bit
 * in, clearers AND its complement, and `format_as` lists the names of the set flags in
 * declaration order.
 */
module BitField {

  /** A mask with exactly one bit set. */
  predicate SingleBit(m: bv64) {
    m != 0 && m & (m - 1) == 0
  }

  /** `value |= mask`: the mask's bits become set and every other bit keeps its value. */
  function Set(v: bv64, m: bv64): (r: bv64)
    ensures r & m == m
    ensures r & !m == v & !m
  {
    v | m
  }

  /** `value &= ~mask`: the mask's bits become clear and every other bit keeps its value. */
  function Clear(v: bv64, m: bv64): (r: bv64)
    ensures r & m == 0
    ensures r & !m == v & !m
  {
    v & !m
  }

  /** `if (on) value |= mask; else value &= ~mask;`: the mask's bits written from `on`. */
  function Write(v: bv64, on: bool, m: bv64): bv64
  {
    if on then Set(v, m) else Clear(v, m)
  }

  /** Setting twice is setting once. */
  lemma SetIdempotent(v: bv64, m: bv64)
    ensures Set(Set(v, m), m) == Set(v, m)
  {
  }

  /** Clearing twice is clearing once. */
  lemma ClearIdempotent(v: bv64, m: bv64)
    ensures Clear(Clear(v, m), m) == Clear(v, m)
  {
  }

  /** Clearing undoes a set: the result is the value with the mask cleared. */
  lemma ClearAfterSet(v: bv64, m: bv64)
    ensures Clear(Set(v, m), m) == Clear(v, m)
  {
  }

  /** `value & mask` converted to bool, as every getter does. */
  predicate Has(v: bv64, m: bv64) {
    v & m != 0
  }

  /** A set flag reads back as set. */
  lemma HasAfterSet(v: bv64, m: bv64)
    requires m != 0
    ensures Has(Set(v, m), m)
  {
  }

  /** A cleared flag reads back as clear. */
  lemma NotHasAfterClear(v: bv64, m: bv64)
    ensures !Has(Clear(v, m), m)
  {
  }

  /** A named flag as `format_as` renders it. */
  datatype Field = Field(name: string, mask: bv64)

  /** The names of the fields whose mask meets `v`, in table order. */
  function Listed(v: bv64, fields: seq<Field>): (names: seq<string>)
    ensures |names| <= |fields|
  {
    if fields == [] then []
    else
      var last := fields[|fields| - 1];
      Listed(v, fields[..|fields| - 1]) + (if Has(v, last.mask) then [last.name] else [])
  }

  /** The text an if-chain of `result += "NAME ";` appends: every word followed by one space. */
  function Spaced(words: seq<string>): string
  {
    if words == [] then ""
    else Spaced(words[..|words| - 1]) + (words[|words| - 1] + " ")
  }

  /** The words separated by single spaces, with no space at either end. */
  function Join(words: seq<string>): string
  {
    if words == [] then ""
    else if |words| == 1 then words[0]
    else Join(words[..|words| - 1]) + " " + words[|words| - 1]
  }

  /** One step of the if-chain: the contribution of the k-th field. */
  function Piece(v: bv64, f: Field): string
  {
    if Has(v, f.mask) then f.name + " " else ""
  }

  lemma SpacedSnoc(words: seq<string>, w: string)
    ensures Spaced(words + [w]) == Spaced(words) + (w + " ")
  {
    assert (words + [w])[..|words|] == words;
  }

  /** Spacing distributes over concatenation. */
  lemma {:induction false} SpacedAppend(a: seq<string>, b: seq<string>)
    ensures Spaced(a + b) == Spaced(a) + Spaced(b)
    decreases |b|
  {
    if b == [] {
      assert a + b == a;
    } else {
      var init := b[..|b| - 1];
      var w := b[|b| - 1];
      assert a + b == (a + init) + [w];
      SpacedSnoc(a + init, w);
      SpacedAppend(a, init);
      assert b == init + [w];
      SpacedSnoc(init, w);
    }
  }

  /** Extending the table by one field extends the listing by that field's name when it is set. */
  lemma ListedSnoc(v: bv64, fields: seq<Field>, f: Field)
    ensures Listed(v, fields + [f]) == Listed(v, fields) + (if Has(v, f.mask) then [f.name] else [])
  {
    assert (fields + [f])[..|fields|] == fields;
  }

  /** After k steps of the if-chain the text is the spaced list of the first k fields. */
  lemma {:induction false} RenderStep(v: bv64, fields: seq<Field>, k: nat)
    requires k < |fields|
    ensures Spaced(Listed(v, fields[..k + 1])) == Spaced(Listed(v, fields[..k])) + Piece(v, fields[k])
  {
    var f := fields[k];
    assert fields[..k + 1] == fields[..k] + [f];
    ListedSnoc(v, fields[..k], f);
    var names := Listed(v, fields[..k]);
    if v & f.mask != 0 {
      SpacedSnoc(names, f.name);
    } else {
      assert names + [] == names;
    }
  }

  lemma {:induction false} JoinSnoc(words: seq<string>, w: string)
    requires words != []
    ensures Join(words + [w]) == Join(words) + " " + w
  {
    assert (words + [w])[..|words|] == words;
  }

  /**
   * `pop_back` on the spaced text removes exactly the trailing space: the result is the
   * single-space-separated list.
   */
  lemma {:induction false} PopBackSpaced(words: seq<string>)
    requires words != []
    ensures |Spaced(words)| > 0
    ensures Spaced(words)[..|Spaced(words)| - 1] == Join(words)
  {
    var init := words[..|words| - 1];
    var w := words[|words| - 1];
    assert words == init + [w];
    if init == [] {
      assert Spaced(words) == "" + w + " ";
    } else {
      PopBackSpaced(init);
      JoinSnoc(init, w);
      assert Spaced(init) == Join(init) + " ";
    }
  }

  /** Spaced words followed by one last word are the joined list with that word appended. */
  lemma {:induction false} SpacedThenWord(words: seq<string>, w: string)
    ensures Spaced(words) + w == Join(words + [w])
  {
    if words == [] {
      assert [] + [w] == [w];
    } else {
      PopBackSpaced(words);
      JoinSnoc(words, w);
      assert Spaced(words) == Join(words) + " ";
    }
  }

  /** A word as the renderers emit it: not empty and without spaces. */
  predicate Word(w: string) {
    |w| > 0 && ' ' !in w
  }

  /** Index of the last space in `s`, or -1 when there is none. */
  function LastSpace(s: string): (i: int)
    ensures -1 <= i < |s|
    ensures i >= 0 ==> s[i] == ' ' && ' ' !in s[i + 1..]
    ensures i == -1 ==> ' ' !in s
  {
    if s == [] then -1
    else if s[|s| - 1] == ' ' then |s| - 1
    else
      var j := LastSpace(s[..|s| - 1]);
      assert s == s[..|s| - 1] + [s[|s| - 1]];
      j
  }

  /** Splits a text at its spaces: the inverse of Join on words. */
  function Split(s: string): seq<string>
    decreases |s|
  {
    if s == [] then []
    else
      var i := LastSpace(s);
      if i < 0 then [s] else Split(s[..i]) + [s[i + 1..]]
  }

  /** Joining words and splitting the text again gives the words back. */
  lemma {:induction false} SplitJoin(words: seq<string>)
    requires forall k :: 0 <= k < |words| ==> Word(words[k])
    ensures Split(Join(words)) == words
  {
    if |words| == 0 {
    } else if |words| == 1 {
      assert Join(words) == words[0];
    } else {
      var init := words[..|words| - 1];
      var w := words[|words| - 1];
      assert words == init + [w];
      JoinSnoc(init, w);
      var s := Join(words);
      var j := Join(init);
      assert s == j + " " + w;
      assert s[|j|] == ' ';
      assert s[|j| + 1..] == w;
      assert LastSpace(s) == |j| by {
        LastSpaceAfterWord(j, w);
      }
      assert s[..|j|] == j;
      assert forall k :: 0 <= k < |init| ==> init[k] == words[k];
      SplitJoin(init);
    }
  }

  lemma LastSpaceAfterWord(j: string, w: string)
    requires ' ' !in w
    ensures LastSpace(j + " " + w) == |j|
    decreases |w|
  {
    var s := j + " " + w;
    if w == [] {
      assert s[|s| - 1] == ' ';
    } else {
      assert s[|s| - 1] == w[|w| - 1];
      assert s[..|s| - 1] == j + " " + w[..|w| - 1];
      LastSpaceAfterWord(j, w[..|w| - 1]);
    }
  }

  /** Spaced words followed by one more word split back into those words. */
  lemma SplitSpacedThenWord(words: seq<string>, w: string)
    requires forall k :: 0 <= k < |words| ==> Word(words[k])
    requires Word(w)
    ensures Split(Spaced(words) + w) == words + [w]
  {
    SpacedThenWord(words, w);
    assert forall k :: 0 <= k < |words| ==> (words + [w])[k] == words[k];
    SplitJoin(words + [w]);
  }

  lemma WordsConcat(a: seq<string>, b: seq<string>)
    requires forall k :: 0 <= k < |a| ==> Word(a[k])
    requires forall k :: 0 <= k < |b| ==> Word(b[k])
    ensures forall k :: 0 <= k < |a + b| ==> Word((a + b)[k])
  {
  }

  /** Every rendered name is a word when every field's name is. */
  lemma {:induction false} ListedWords(v: bv64, fields: seq<Field>)
    requires forall k :: 0 <= k < |fields| ==> Word(fields[k].name)
    ensures forall k :: 0 <= k < |Listed(v, fields)| ==> Word(Listed(v, fields)[k])
  {
    if fields != [] {
      ListedWords(v, fields[..|fields| - 1]);
    }
  }

  /**
   * What the closing `if (result.size() > 0) result.pop_back();` turns the spaced text into:
   * the single-space-separated list, or the empty string when nothing was listed.
   */
  lemma PopBack(words: seq<string>, text: string)
    requires text == Spaced(words)
    ensures |text| > 0 <==> words != []
    ensures (if |text| > 0 then text[..|text| - 1] else text) == Join(words)
  {
    if words != [] {
      PopBackSpaced(words);
    }
  }

  /**
   * The if-chain `if (r.get_X()) result += "X ";` over a register's flags in declaration
   * order: the text it appends.
   */
  method AppendSet(v: bv64, fields: seq<Field>) returns (text: string)
    ensures text == Spaced(Listed(v, fields))
  {
    text := "";
    for k := 0 to |fields|
      invariant text == Spaced(Listed(v, fields[..k]))
    {
      if Has(v, fields[k].mask) {
        text := text + (fields[k].name + " ");
      }
      RenderStep(v, fields, k);
    }
    assert fields[..|fields|] == fields;
  }

  /** A list of words joins to the empty text exactly when it is empty. */
  lemma {:induction false} JoinEmpty(words: seq<string>)
    requires forall k :: 0 <= k < |words| ==> Word(words[k])
    ensures Join(words) == "" <==> words == []
  {
    if |words| == 1 {
      assert Word(words[0]);
    } else if |words| > 1 {
      var s := Join(words);
      assert s == Join(words[..|words| - 1]) + " " + words[|words| - 1];
      assert |s| > 0;
    }
  }

  /** Nothing is listed exactly when no field's mask meets the value. */
  lemma {:induction false} ListedEmpty(v: bv64, fields: seq<Field>)
    ensures Listed(v, fields) == [] <==> forall k :: 0 <= k < |fields| ==> !Has(v, fields[k].mask)
  {
    if fields != [] {
      var init := fields[..|fields| - 1];
      ListedEmpty(v, init);
      assert forall k :: 0 <= k < |init| ==> init[k] == fields[k];
    }
  }

  /** `if (result.size() > 0) result.pop_back();` */
  method PopBackIfAny(text: string) returns (result: string)
    ensures |text| > 0 ==> result == text[..|text| - 1]
    ensures |text| == 0 ==> result == text
  {
    result := text;
    if |result| > 0 {
      result := result[..|result| - 1];
    }
  }
}
