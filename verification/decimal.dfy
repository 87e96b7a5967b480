/** The Unicode decimal digits: the characters of general category Nd, which
    the regular expression class `\d` matches in a `str` pattern and `float`
    reads as digits. The table is that of Unicode 15.0, the database of
    Python 3.12. Each such digit lies in a block of ten consecutive code points
    holding the values 0 to 9 in order, so the table lists the first code
    point of every block. */
module Decimal {
  import opened Wrappers
  import Text

  /** The number of blocks. */
  const Blocks: nat := 68

  /** The first code point of the `k`th block, in ascending order. */
  function Zero(k: nat): int
    requires k < Blocks
  {
    if k == 0 then 0x0030  // ASCII
    else if k == 1 then 0x0660  // Arabic-Indic
    else if k == 2 then 0x06F0  // Extended Arabic-Indic
    else if k == 3 then 0x07C0  // Nko
    else if k == 4 then 0x0966  // Devanagari
    else if k == 5 then 0x09E6  // Bengali
    else if k == 6 then 0x0A66  // Gurmukhi
    else if k == 7 then 0x0AE6  // Gujarati
    else if k == 8 then 0x0B66  // Oriya
    else if k == 9 then 0x0BE6  // Tamil
    else if k == 10 then 0x0C66  // Telugu
    else if k == 11 then 0x0CE6  // Kannada
    else if k == 12 then 0x0D66  // Malayalam
    else if k == 13 then 0x0DE6  // Sinhala Lith
    else if k == 14 then 0x0E50  // Thai
    else if k == 15 then 0x0ED0  // Lao
    else if k == 16 then 0x0F20  // Tibetan
    else if k == 17 then 0x1040  // Myanmar
    else if k == 18 then 0x1090  // Myanmar Shan
    else if k == 19 then 0x17E0  // Khmer
    else if k == 20 then 0x1810  // Mongolian
    else if k == 21 then 0x1946  // Limbu
    else if k == 22 then 0x19D0  // New Tai Lue
    else if k == 23 then 0x1A80  // Tai Tham Hora
    else if k == 24 then 0x1A90  // Tai Tham Tham
    else if k == 25 then 0x1B50  // Balinese
    else if k == 26 then 0x1BB0  // Sundanese
    else if k == 27 then 0x1C40  // Lepcha
    else if k == 28 then 0x1C50  // Ol Chiki
    else if k == 29 then 0xA620  // Vai
    else if k == 30 then 0xA8D0  // Saurashtra
    else if k == 31 then 0xA900  // Kayah Li
    else if k == 32 then 0xA9D0  // Javanese
    else if k == 33 then 0xA9F0  // Myanmar Tai Laing
    else if k == 34 then 0xAA50  // Cham
    else if k == 35 then 0xABF0  // Meetei Mayek
    else if k == 36 then 0xFF10  // Fullwidth
    else if k == 37 then 0x104A0  // Osmanya
    else if k == 38 then 0x10D30  // Hanifi Rohingya
    else if k == 39 then 0x11066  // Brahmi
    else if k == 40 then 0x110F0  // Sora Sompeng
    else if k == 41 then 0x11136  // Chakma
    else if k == 42 then 0x111D0  // Sharada
    else if k == 43 then 0x112F0  // Khudawadi
    else if k == 44 then 0x11450  // Newa
    else if k == 45 then 0x114D0  // Tirhuta
    else if k == 46 then 0x11650  // Modi
    else if k == 47 then 0x116C0  // Takri
    else if k == 48 then 0x11730  // Ahom
    else if k == 49 then 0x118E0  // Warang Citi
    else if k == 50 then 0x11950  // Dives Akuru
    else if k == 51 then 0x11C50  // Bhaiksuki
    else if k == 52 then 0x11D50  // Masaram Gondi
    else if k == 53 then 0x11DA0  // Gunjala Gondi
    else if k == 54 then 0x11F50  // Kawi
    else if k == 55 then 0x16A60  // Mro
    else if k == 56 then 0x16AC0  // Tangsa
    else if k == 57 then 0x16B50  // Pahawh Hmong
    else if k == 58 then 0x1D7CE  // Mathematical Bold
    else if k == 59 then 0x1D7D8  // Mathematical Double-Struck
    else if k == 60 then 0x1D7E2  // Mathematical Sans-Serif
    else if k == 61 then 0x1D7EC  // Mathematical Sans-Serif Bold
    else if k == 62 then 0x1D7F6  // Mathematical Monospace
    else if k == 63 then 0x1E140  // Nyiakeng Puachue Hmong
    else if k == 64 then 0x1E2F0  // Wancho
    else if k == 65 then 0x1E4F0  // Nag Mundari
    else if k == 66 then 0x1E950  // Adlam
    else if k == 67 then 0x1FBF0  // Segmented
    else 0x1FBF0
  }

  /** The value of code point `z` as a digit of block `k` or of a later one. */
  function Lookup(z: int, k: nat): (d: Option<nat>)
    requires k <= Blocks
    ensures d.Some? ==> d.value < 10
    decreases Blocks - k
  {
    if k == Blocks || z < Zero(k) then None
    else if z < Zero(k) + 10 then Some(z - Zero(k))
    else Lookup(z, k + 1)
  }

  /** The value of a decimal digit, and `None` for any other character. */
  function Value(c: char): (d: Option<nat>)
    ensures d.Some? ==> d.value < 10
    ensures Text.IsDigit(c) ==> d == Some(Text.DigitValue(c))
    ensures c < '\U{0660}' && !Text.IsDigit(c) ==> d == None
  {
    var z := c as int;
    assert z >= 0x003A && z < 0x0660 ==> Lookup(z, 1) == None;
    Lookup(z, 0)
  }

  predicate IsDecimal(c: char) {
    Value(c).Some?
  }

  /** FULLWIDTH DIGIT ONE and TWO (block 36) are the digits 1 and 2. */
  lemma FullwidthOneTwo()
    ensures Value('\U{FF11}') == Some(1) && Value('\U{FF12}') == Some(2)
  {
    FullwidthDigit(0xFF11);
    FullwidthDigit(0xFF12);
  }

  // Proof step for FullwidthOneTwo: the table lookup of a fullwidth digit, in hops of four blocks.
  lemma FullwidthDigit(z: int)
    requires z == 0xFF11 || z == 0xFF12
    ensures Lookup(z, 0) == Some(z - 0xFF10)
  {
    assert Lookup(z, 0) == Lookup(z, 4);
    assert Lookup(z, 4) == Lookup(z, 8);
    assert Lookup(z, 8) == Lookup(z, 12);
    assert Lookup(z, 12) == Lookup(z, 16);
    assert Lookup(z, 16) == Lookup(z, 20);
    assert Lookup(z, 20) == Lookup(z, 24);
    assert Lookup(z, 24) == Lookup(z, 28);
    assert Lookup(z, 28) == Lookup(z, 32);
    assert Lookup(z, 32) == Lookup(z, 36);
  }

  /** KELVIN SIGN (U+212A) lies between the Ol Chiki digits (block 28) and
      the Vai digits (block 29), so it is not a decimal digit. */
  lemma KelvinSignNotDecimal()
    ensures Value('\U{212A}') == None
  {
    var z := 0x212A;
    assert Lookup(z, 0) == Lookup(z, 4);
    assert Lookup(z, 4) == Lookup(z, 8);
    assert Lookup(z, 8) == Lookup(z, 12);
    assert Lookup(z, 12) == Lookup(z, 16);
    assert Lookup(z, 16) == Lookup(z, 20);
    assert Lookup(z, 20) == Lookup(z, 24);
    assert Lookup(z, 24) == Lookup(z, 28);
    assert Lookup(z, 28) == Lookup(z, 29);
  }

  /** The character `float` reads a decimal digit as: the ASCII digit of the
      same value. Every other character is kept. */
  function AsciiChar(c: char): (a: char)
    ensures IsDecimal(c) ==> Text.IsDigit(a) && Text.DigitValue(a) == Value(c).value
    ensures !IsDecimal(c) ==> a == c
    ensures Text.IsDigit(a) <==> IsDecimal(c)
  {
    match Value(c)
    case Some(d) => Text.DigitChar(d)
    case None => c
  }

  /** The text with every decimal digit replaced by its ASCII digit. */
  function Ascii(s: string): (r: string)
    ensures |r| == |s|
  {
    if s == [] then [] else [AsciiChar(s[0])] + Ascii(s[1..])
  }

  lemma {:induction false} AsciiAppend(a: string, b: string)
    ensures Ascii(a + b) == Ascii(a) + Ascii(b)
  {
    if a == [] {
      assert a + b == b;
    } else {
      assert (a + b)[1..] == a[1..] + b;
      AsciiAppend(a[1..], b);
    }
  }

  lemma {:induction false} AsciiAt(s: string, i: nat)
    requires i < |s|
    ensures Ascii(s)[i] == AsciiChar(s[i])
  {
    if i > 0 {
      AsciiAt(s[1..], i - 1);
    }
  }
}
