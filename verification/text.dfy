/** The Python string builtins the modelled code relies on, restricted to
    ASCII: `strip()`, `upper()`, `replace`, `rstrip(c)`, `in`, `", ".join`,
    and the decimal renderings `str(n)` and `format(n, ",d")`. */
module Text {

  // ---------------------------------------------------------------------------
  // Whitespace and `strip()`
  // ---------------------------------------------------------------------------

  /** `str.isspace()` on ASCII: space, TAB to CR, and the separators 0x1C to 0x1F. */
  predicate IsSpace(c: char) {
    c == ' ' || ('\t' <= c <= '\r') || ('\U{1C}' <= c <= '\U{1F}')
  }

  predicate IsBlank(s: string) {
    forall i :: 0 <= i < |s| ==> IsSpace(s[i])
  }

  /** `lstrip()`: drops the leading whitespace and nothing else. */
  function TrimStart(s: string): (r: string)
    ensures |r| <= |s| && r == s[|s| - |r|..]
    ensures r == [] || !IsSpace(r[0])
    ensures IsBlank(s[..|s| - |r|])
  {
    if |s| > 0 && IsSpace(s[0]) then TrimStart(s[1..]) else s
  }

  /** `rstrip()`: drops the trailing whitespace and nothing else. */
  function TrimEnd(s: string): (r: string)
    ensures |r| <= |s| && r == s[..|r|]
    ensures r == [] || !IsSpace(r[|r| - 1])
    ensures IsBlank(s[|r|..])
  {
    if |s| > 0 && IsSpace(s[|s| - 1]) then
      var r := TrimEnd(s[..|s| - 1]);
      assert s[..|s| - 1][..|r|] == s[..|r|];
      assert s[|r|..] == s[..|s| - 1][|r|..] + [s[|s| - 1]];
      r
    else s
  }

  /** `r` sits in `s` at index `i` with only whitespace before and after it. */
  predicate StrippedAt(s: string, r: string, i: int) {
    0 <= i <= |s| - |r| && r == s[i..i + |r|] && IsBlank(s[..i]) && IsBlank(s[i + |r|..])
  }

  /** `strip()`: the longest infix that neither starts nor ends with whitespace,
      all of whose surroundings are whitespace. */
  function Strip(s: string): (r: string)
    ensures |r| <= |s|
    ensures r == [] || (!IsSpace(r[0]) && !IsSpace(r[|r| - 1]))
    ensures r == [] <==> IsBlank(s)
    ensures exists i :: StrippedAt(s, r, i)
  {
    var e := TrimEnd(s);
    var r := TrimStart(e);
    StripWitness(s, e, r);
    if r == [] then BlankSplit(s, |e| - |r|); r else r
  }

  /** `lstrip` after `rstrip` leaves an infix with whitespace on either side. */
  lemma StripWitness(s: string, e: string, r: string)
    requires |e| <= |s| && e == s[..|e|] && IsBlank(s[|e|..])
    requires |r| <= |e| && r == e[|e| - |r|..] && IsBlank(e[..|e| - |r|])
    ensures StrippedAt(s, r, |e| - |r|)
  {
    assert s[..|e| - |r|] == e[..|e| - |r|];
  }

  /** Text that is blank on both sides of an index is blank. */
  lemma BlankSplit(s: string, k: nat)
    requires k <= |s| && IsBlank(s[..k]) && IsBlank(s[k..])
    ensures IsBlank(s)
  {
    forall i | 0 <= i < |s|
      ensures IsSpace(s[i])
    {
      if i < k {
        assert s[i] == s[..k][i];
      } else {
        assert s[i] == s[k..][i - k];
      }
    }
  }

  // Stripping twice is stripping once.
  lemma StripIdempotent(s: string)
    ensures Strip(Strip(s)) == Strip(s)
  {
    var r := Strip(s);
    if r != [] {
      assert TrimEnd(r) == r;
      assert TrimStart(r) == r;
    }
  }

  /** Text that neither starts nor ends with whitespace is its own `strip()`. */
  lemma StripUnchanged(s: string)
    requires s == [] || (!IsSpace(s[0]) && !IsSpace(s[|s| - 1]))
    ensures Strip(s) == s
  {
    if s != [] {
      assert TrimEnd(s) == s;
      assert TrimStart(s) == s;
    }
  }

  /** One space on each side of a text is what `strip()` removes. */
  lemma StripPadded(core: string)
    requires core != [] && !IsSpace(core[0]) && !IsSpace(core[|core| - 1])
    ensures Strip(" " + core + " ") == core
  {
    var s := " " + core + " ";
    var inner := " " + core;
    assert s[..|s| - 1] == inner;
    assert inner[|inner| - 1] == core[|core| - 1];
    assert TrimEnd(inner) == inner;
    assert inner[1..] == core;
    assert TrimStart(core) == core;
  }

  // ---------------------------------------------------------------------------
  // Case and character replacement
  // ---------------------------------------------------------------------------

  /** `upper()` on one character: ASCII letters only; every other character is kept. */
  function UpperChar(c: char): char {
    if 'a' <= c <= 'z' then (c as int - 32) as char else c
  }

  function Upper(s: string): (r: string)
    ensures |r| == |s|
    ensures forall i :: 0 <= i < |s| ==> r[i] == UpperChar(s[i])
  {
    seq(|s|, i requires 0 <= i < |s| => UpperChar(s[i]))
  }

  // Upper-casing twice is upper-casing once.
  lemma UpperIdempotent(s: string)
    ensures Upper(Upper(s)) == Upper(s)
  {
  }

  /** `upper()` never turns whitespace into a letter or a letter into whitespace. */
  /** `upper()` leaves no ASCII lower-case letter, and keeps text that neither
      starts nor ends in whitespace that way. */
  lemma UpperShape(s: string)
    requires s == [] || (!IsSpace(s[0]) && !IsSpace(s[|s| - 1]))
    ensures Upper(s) == [] || (!IsSpace(Upper(s)[0]) && !IsSpace(Upper(s)[|s| - 1]))
    ensures forall i :: 0 <= i < |Upper(s)| ==> !('a' <= Upper(s)[i] <= 'z')
  {
    forall i | 0 <= i < |Upper(s)|
      ensures !('a' <= Upper(s)[i] <= 'z')
    {
      assert Upper(s)[i] == UpperChar(s[i]);
    }
    if s != [] {
      UpperKeepsSpaces(s[0]);
      UpperKeepsSpaces(s[|s| - 1]);
    }
  }

  // Upper-casing neither makes nor removes whitespace.
  lemma UpperKeepsSpaces(c: char)
    ensures IsSpace(UpperChar(c)) <==> IsSpace(c)
  {
  }

  /** `s.replace(a, b)` for single characters. */
  function Replace(s: string, a: char, b: char): (r: string)
    ensures |r| == |s|
    ensures forall i :: 0 <= i < |s| ==> r[i] == (if s[i] == a then b else s[i])
  {
    seq(|s|, i requires 0 <= i < |s| => if s[i] == a then b else s[i])
  }

  /** `s.replace(c, "")`: every occurrence of `c` deleted, the rest kept in order. */
  function Delete(s: string, c: char): (r: string)
    ensures c !in r
    ensures |r| <= |s|
    ensures c !in s ==> r == s
    ensures forall x :: x in r ==> x in s
  {
    if s == [] then []
    else (if s[0] == c then [] else [s[0]]) + Delete(s[1..], c)
  }

  // Deleting a character from a concatenation deletes it from each part.
  lemma {:induction false} DeleteAppend(a: string, b: string, c: char)
    ensures Delete(a + b, c) == Delete(a, c) + Delete(b, c)
  {
    if a == [] {
      assert a + b == b;
    } else {
      var head: string := if a[0] == c then [] else [a[0]];
      assert (a + b)[0] == a[0] && (a + b)[1..] == a[1..] + b;
      DeleteAppend(a[1..], b, c);
      calc {
        Delete(a + b, c);
        head + Delete(a[1..] + b, c);
        head + (Delete(a[1..], c) + Delete(b, c));
        head + Delete(a[1..], c) + Delete(b, c);
      }
    }
  }

  /** `s.rstrip(c)` for one character `c`. */
  function RStrip(s: string, c: char): (r: string)
    ensures |r| <= |s| && r == s[..|r|]
    ensures r == [] || r[|r| - 1] != c
    ensures forall i :: |r| <= i < |s| ==> s[i] == c
  {
    if |s| > 0 && s[|s| - 1] == c then RStrip(s[..|s| - 1], c) else s
  }

  /** Number of occurrences of `c` in `s`. */
  function Count(s: string, c: char): (n: nat)
    ensures n == 0 <==> c !in s
    ensures n <= |s|
  {
    if s == [] then 0 else (if s[0] == c then 1 else 0) + Count(s[1..], c)
  }

  // Occurrences in a concatenation add up.
  lemma {:induction false} CountAppend(a: string, b: string, c: char)
    ensures Count(a + b, c) == Count(a, c) + Count(b, c)
  {
    if a == [] {
      assert a + b == b;
    } else {
      assert (a + b)[1..] == a[1..] + b;
      CountAppend(a[1..], b, c);
    }
  }

  /** Index of the first occurrence of `c`. */
  function IndexOf(s: string, c: char): (i: nat)
    requires c in s
    ensures i < |s| && s[i] == c && c !in s[..i]
  {
    if s[0] == c then 0 else 1 + IndexOf(s[1..], c)
  }

  /** `sub in s` for strings: `sub` occurs as a contiguous block. */
  predicate Contains(s: string, sub: string) {
    |sub| <= |s| && (s[..|sub|] == sub || Contains(s[1..], sub))
  }

  /** `sep.join(parts)`. */
  function Join(parts: seq<string>, sep: string): string {
    if parts == [] then ""
    else if |parts| == 1 then parts[0]
    else parts[0] + sep + Join(parts[1..], sep)
  }

  // ---------------------------------------------------------------------------
  // Decimal digits
  // ---------------------------------------------------------------------------

  predicate IsDigit(c: char) {
    '0' <= c <= '9'
  }

  predicate AllDigits(s: string) {
    forall i :: 0 <= i < |s| ==> IsDigit(s[i])
  }

  function DigitChar(d: nat): (c: char)
    requires d < 10
    ensures IsDigit(c)
  {
    ('0' as int + d) as char
  }

  function DigitValue(c: char): (d: nat)
    requires IsDigit(c)
    ensures d < 10 && DigitChar(d) == c
  {
    c as int - '0' as int
  }

  function Pow10(n: nat): (p: nat)
    ensures p >= 1
  {
    if n == 0 then 1 else 10 * Pow10(n - 1)
  }

  /** The number a string of decimal digits denotes; the empty string denotes 0. */
  function ValueOf(s: string): nat
    requires AllDigits(s)
  {
    if s == [] then 0 else ValueOf(s[..|s| - 1]) * 10 + DigitValue(s[|s| - 1])
  }

  /** A string of digits denotes zero exactly when every digit is '0'. */
  lemma {:induction false} ValueOfZero(s: string)
    requires AllDigits(s)
    ensures ValueOf(s) == 0 <==> forall i :: 0 <= i < |s| ==> s[i] == '0'
    decreases |s|
  {
    if s != [] {
      var init := s[..|s| - 1];
      ValueOfZero(init);
      assert forall i :: 0 <= i < |init| ==> init[i] == s[i];
    }
  }

  /** `str(n)`: decimal digits with no leading zero. */
  function Digits(n: nat): (r: string)
    ensures |r| > 0 && AllDigits(r)
    ensures ValueOf(r) == n
    ensures r[0] == '0' ==> n == 0
    ensures n < 10 <==> |r| == 1
  {
    if n < 10 then [DigitChar(n)]
    else
      var r := Digits(n / 10) + [DigitChar(n % 10)];
      assert r[..|r| - 1] == Digits(n / 10);
      r
  }

  /** `s` with its leading zeros removed (keeping one digit) is `str` of its value. */
  lemma {:induction false} DigitsValueOf(s: string)
    requires |s| > 0 && AllDigits(s) && (s[0] != '0' || |s| == 1)
    ensures Digits(ValueOf(s)) == s
    decreases |s|
  {
    var init := s[..|s| - 1];
    if |s| == 1 {
    } else {
      DigitsValueOf(init);
      assert ValueOf(init) >= 1 by {
        LeadingDigitPositive(init);
      }
      assert ValueOf(s) / 10 == ValueOf(init);
      assert ValueOf(s) % 10 == DigitValue(s[|s| - 1]);
      assert s == init + [s[|s| - 1]];
    }
  }

  // Digit text with a nonzero first digit has a positive value.
  lemma {:induction false} LeadingDigitPositive(s: string)
    requires |s| > 0 && AllDigits(s) && s[0] != '0'
    ensures ValueOf(s) >= 1
    decreases |s|
  {
    if |s| > 1 {
      LeadingDigitPositive(s[..|s| - 1]);
    }
  }

  /** Three digits with leading zeros: the groups after the first in `format(n, ",d")`. */
  function Pad3(k: nat): (r: string)
    requires k < 1000
    ensures |r| == 3 && AllDigits(r) && ValueOf(r) == k
  {
    var a, b, c := k / 100, k / 10 % 10, k % 10;
    PlacesOf(k);
    ValueOfThree(a, b, c);
    [DigitChar(a), DigitChar(b), DigitChar(c)]
  }

  /** The hundreds, tens and units digits of a number below 1000. */
  lemma PlacesOf(k: nat)
    requires k < 1000
    ensures k / 100 < 10 && k == 100 * (k / 100) + 10 * (k / 10 % 10) + k % 10
  {
    var q, c := k / 10, k % 10;
    DivTen(q, q / 10, q % 10);
    assert k == 100 * (q / 10) + 10 * (q % 10) + c;
  }

  /** Three digits denote a hundreds, tens and units place. */
  lemma ValueOfThree(a: nat, b: nat, c: nat)
    requires a < 10 && b < 10 && c < 10
    ensures ValueOf([DigitChar(a), DigitChar(b), DigitChar(c)]) == 100 * a + 10 * b + c
  {
    var r := [DigitChar(a), DigitChar(b), DigitChar(c)];
    assert ValueOf(r[..1]) == a by {
      assert r[..1][..0] == [];
    }
    assert r[..2][..1] == r[..1];
  }

  /** Integer division by ten, spelled out. */
  lemma DivTen(x: nat, y: nat, d: nat)
    requires d < 10 && x == 10 * y + d
    ensures x / 10 == y && x % 10 == d
  {
  }

  /** `format(n, ",d")`: decimal digits grouped in threes by commas. */
  function Commas(n: nat): (r: string)
    ensures |r| > 0 && IsDigit(r[0]) && r[0] != '.' && r[|r| - 1] != '.'
    ensures forall i :: 0 <= i < |r| ==> IsDigit(r[i]) || r[i] == ','
  {
    if n < 1000 then Digits(n)
    else Commas(n / 1000) + "," + Pad3(n % 1000)
  }

  /** Splitting off the last three digits of `str(n)`. */
  lemma LastThreeDigits(n: nat)
    requires n >= 1000
    ensures Digits(n) == Digits(n / 1000) + Pad3(n % 1000)
  {
    var q, r := n / 1000, n % 1000;
    var a, b, c := r / 100, r / 10 % 10, r % 10;
    ThreeDigitsOf(n, q, a, b, c);
    assert Digits(n) == Digits(n / 10) + [DigitChar(c)];
    assert Digits(n / 10) == Digits(n / 10 / 10) + [DigitChar(b)];
    assert Digits(n / 10 / 10) == Digits(q) + [DigitChar(a)];
    assert Pad3(r) == [DigitChar(a), DigitChar(b), DigitChar(c)];
  }

  /** The last three decimal digits of `n`, one division by ten at a time. */
  lemma ThreeDigitsOf(n: nat, q: nat, a: nat, b: nat, c: nat)
    requires q == n / 1000 && a == n % 1000 / 100 && b == n % 1000 / 10 % 10 && c == n % 1000 % 10
    ensures n % 10 == c && n / 10 % 10 == b && n / 10 / 10 % 10 == a && n / 10 / 10 / 10 == q
  {
    assert n % 1000 == 100 * a + 10 * b + c;
    DivTen(n, 100 * q + 10 * a + b, c);
    DivTen(n / 10, 10 * q + a, b);
    DivTen(n / 10 / 10, q, a);
  }

  /** Deleting the commas of `format(n, ",d")` gives `str(n)`. */
  lemma {:induction false} CommasWithoutCommas(n: nat)
    ensures Delete(Commas(n), ',') == Digits(n)
  {
    if n < 1000 {
      assert ',' !in Digits(n) by {
        assert AllDigits(Digits(n));
      }
    } else {
      var head, p := Commas(n / 1000), Pad3(n % 1000);
      CommasWithoutCommas(n / 1000);
      assert ',' !in p by {
        assert AllDigits(p);
      }
      DeleteGroup(head, p);
      LastThreeDigits(n);
    }
  }

  /** Deleting the commas of `head + "," + group` when the group has none. */
  lemma DeleteGroup(head: string, group: string)
    requires ',' !in group
    ensures Delete(head + "," + group, ',') == Delete(head, ',') + group
  {
    var comma: string := [','];
    assert Delete(comma, ',') == [] by {
      assert comma[1..] == [];
    }
    DeleteAppend(head, comma, ',');
    assert Delete(head + comma, ',') == Delete(head, ',') + [];
    assert Delete(head, ',') + [] == Delete(head, ',');
    DeleteAppend(head + comma, group, ',');
    assert Delete(group, ',') == group;
    assert head + "," + group == (head + comma) + group;
  }

}
