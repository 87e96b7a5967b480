/** `parse_amount`, `parse_currency` and `UnitMultiplier` (src/cur/core/parser.py).
    An amount is text such as "1,500.5k": surrounding whitespace and every
    comma are dropped, the rest must match `^(\d+\.?\d*|\.\d+)([kmb])?$`
    ignoring case, and the number is scaled by the unit. `\d` matches every
    Unicode decimal digit and `float` reads each as the ASCII digit of the same
    value; as no other character of the pattern is a decimal digit, the
    pattern is matched against the text with its decimal digits made ASCII.
    The number is kept as an exact rational: the binary rounding of `float`
    is not modelled. */
module Parser {
  import opened Wrappers
  import opened Errors
  import Text
  import Decimal
  import Entity

  // ---------------------------------------------------------------------------
  // `UnitMultiplier`
  // ---------------------------------------------------------------------------

  /** `UnitMultiplier.from_string`: the member named by the upper-cased unit. */
  function UnitFromString(unit: string): (r: Result<nat, Error>)
    ensures r.Ok? <==> Text.Upper(unit) in {"K", "M", "B"}
    ensures Text.Upper(unit) == "K" ==> r == Ok(1000)
    ensures Text.Upper(unit) == "M" ==> r == Ok(1000000)
    ensures Text.Upper(unit) == "B" ==> r == Ok(1000000000)
    ensures r.Err? ==> r.error == ParseError("Invalid unit: " + unit)
  {
    var name := Text.Upper(unit);
    if name == "K" then Ok(1000)
    else if name == "M" then Ok(1000000)
    else if name == "B" then Ok(1000000000)
    else Err(ParseError("Invalid unit: " + unit))
  }

  /** The letters k, m and b of either case select the multipliers 10^3, 10^6
      and 10^9; any other single character is rejected. */
  lemma UnitLetters(c: char)
    ensures UnitFromString([c]).Ok? <==> c in "kmbKMB"
    ensures c == 'k' || c == 'K' ==> UnitFromString([c]) == Ok(1000)
    ensures c == 'm' || c == 'M' ==> UnitFromString([c]) == Ok(1000000)
    ensures c == 'b' || c == 'B' ==> UnitFromString([c]) == Ok(1000000000)
  {
    assert Text.Upper([c]) == [Text.UpperChar(c)];
  }

  // ---------------------------------------------------------------------------
  // The amount pattern
  // ---------------------------------------------------------------------------

  /** KELVIN SIGN (U+212A): the class `[kmb]` matches it under IGNORECASE,
      because its lower case is 'k'. */
  const KelvinSign: char := '\U{212A}'

  /** The characters `([kmb])` matches under IGNORECASE. */
  predicate IsUnitLetter(c: char) {
    c == 'k' || c == 'm' || c == 'b' || c == 'K' || c == 'M' || c == 'B' || c == KelvinSign
  }

  /** What the pattern's number group may be: digits and at most one '.', with
      at least one digit. */
  predicate IsNumberText(s: string) {
    && (forall i :: 0 <= i < |s| ==> Text.IsDigit(s[i]) || s[i] == '.')
    && Text.Count(s, '.') <= 1
    && (exists i :: 0 <= i < |s| && Text.IsDigit(s[i]))
  }

  /** The number group over Unicode text: decimal digits and at most one '.',
      with at least one digit. */
  predicate IsDecimalNumberText(s: string) {
    && (forall i :: 0 <= i < |s| ==> Decimal.IsDecimal(s[i]) || s[i] == '.')
    && Text.Count(s, '.') <= 1
    && (exists i :: 0 <= i < |s| && Decimal.IsDecimal(s[i]))
  }

  /** Length of the run of digits at the start of `s` (a greedy `\d*`). */
  function DigitRun(s: string): (n: nat)
    ensures n <= |s| && Text.AllDigits(s[..n])
    ensures n == |s| || !Text.IsDigit(s[n])
  {
    if s == [] || !Text.IsDigit(s[0]) then 0
    else
      var n := 1 + DigitRun(s[1..]);
      assert s[..n] == [s[0]] + s[1..][..n - 1];
      n
  }

  /** `\d+\.?\d*|\.\d+` against the whole of `s`, left alternative first. */
  predicate NumberPattern(s: string) {
    var i := DigitRun(s);
    if i > 0 then
      i == |s| || (s[i] == '.' && DigitRun(s[i + 1..]) == |s| - i - 1)
    else
      |s| >= 2 && s[0] == '.' && DigitRun(s[1..]) == |s| - 1
  }

  // Digit text is one whole run of digits.
  lemma AllDigitsRun(s: string)
    requires Text.AllDigits(s)
    ensures DigitRun(s) == |s|
  {
  }

  // A whole run of digits is digit text.
  lemma RunAllDigits(s: string)
    requires DigitRun(s) == |s|
    ensures Text.AllDigits(s)
  {
    assert s[..|s|] == s;
  }

  /** The regular expression's number group and the plain description agree. */
  lemma NumberPatternIsNumberText(s: string)
    ensures NumberPattern(s) <==> IsNumberText(s)
  {
    if NumberPattern(s) {
      PatternIsNumberText(s);
    }
    if IsNumberText(s) {
      NumberTextIsPattern(s);
    }
  }

  /** With its decimal digits made ASCII, text matches the number group
      exactly when it is a number text over the Unicode decimal digits. */
  lemma DecimalNumberPattern(s: string)
    ensures NumberPattern(Decimal.Ascii(s)) <==> IsDecimalNumberText(s)
  {
    NumberPatternIsNumberText(Decimal.Ascii(s));
    CountAscii(s, '.');
    if IsNumberText(Decimal.Ascii(s)) {
      AsciiNumberText(s);
    }
    if IsDecimalNumberText(s) {
      DecimalNumberTextAscii(s);
    }
  }

  /** Making the digits ASCII turns exactly the decimal digits into digits,
      and exactly the dots into dots. */
  lemma AsciiCharClass(s: string, i: nat)
    requires i < |s|
    ensures Text.IsDigit(Decimal.Ascii(s)[i]) <==> Decimal.IsDecimal(s[i])
    ensures Decimal.Ascii(s)[i] == '.' <==> s[i] == '.'
  {
    Decimal.AsciiAt(s, i);
  }

  // Number text in ASCII form came from number text over decimal digits.
  lemma AsciiNumberText(s: string)
    requires IsNumberText(Decimal.Ascii(s))
    requires Text.Count(Decimal.Ascii(s), '.') == Text.Count(s, '.')
    ensures IsDecimalNumberText(s)
  {
    var a := Decimal.Ascii(s);
    forall i | 0 <= i < |s|
      ensures Decimal.IsDecimal(s[i]) || s[i] == '.'
    {
      AsciiCharClass(s, i);
    }
    var d :| 0 <= d < |a| && Text.IsDigit(a[d]);
    AsciiCharClass(s, d);
  }

  // Number text over decimal digits has number text as its ASCII form.
  lemma DecimalNumberTextAscii(s: string)
    requires IsDecimalNumberText(s)
    requires Text.Count(Decimal.Ascii(s), '.') == Text.Count(s, '.')
    ensures IsNumberText(Decimal.Ascii(s))
  {
    var a := Decimal.Ascii(s);
    forall i | 0 <= i < |a|
      ensures Text.IsDigit(a[i]) || a[i] == '.'
    {
      AsciiCharClass(s, i);
    }
    var d :| 0 <= d < |s| && Decimal.IsDecimal(s[d]);
    AsciiCharClass(s, d);
  }

  /** Making the digits ASCII keeps every other character, and so its count. */
  lemma {:induction false} CountAscii(s: string, c: char)
    requires !Decimal.IsDecimal(c)
    ensures Text.Count(Decimal.Ascii(s), c) == Text.Count(s, c)
  {
    if s != [] {
      CountAscii(s[1..], c);
      assert Decimal.Ascii(s)[1..] == Decimal.Ascii(s[1..]);
    }
  }

  /** Text without non-ASCII decimal digits is its own ASCII form. */
  lemma {:induction false} AsciiUnchanged(s: string)
    requires forall i :: 0 <= i < |s| ==> Text.IsDigit(s[i]) || !Decimal.IsDecimal(s[i])
    ensures Decimal.Ascii(s) == s
  {
    if s != [] {
      assert Text.IsDigit(s[0]) || !Decimal.IsDecimal(s[0]);
      AsciiUnchanged(s[1..]);
    }
  }

  /** No unit letter is a decimal digit, KELVIN SIGN included. */
  lemma UnitLetterNotDecimal(c: char)
    requires IsUnitLetter(c)
    ensures !Decimal.IsDecimal(c) && !Text.IsDigit(c)
  {
    if c == KelvinSign {
      Decimal.KelvinSignNotDecimal();
    }
  }

  /** The dots of `s` are the one after its leading digits, if any, and those further on. */
  lemma CountAfterRun(s: string, i: nat)
    requires i == DigitRun(s)
    ensures i < |s| ==> Text.Count(s, '.') == (if s[i] == '.' then 1 else 0) + Text.Count(s[i + 1..], '.')
    ensures i == |s| ==> Text.Count(s, '.') == 0
  {
    assert '.' !in s[..i] by {
      assert Text.AllDigits(s[..i]);
    }
    if i < |s| {
      CountAround(s, i, '.');
    } else {
      assert s[..i] == s;
    }
  }

  /** The occurrences of `c` in `s` when none comes before index `i`. */
  lemma CountAround(s: string, i: nat, c: char)
    requires i < |s| && c !in s[..i]
    ensures Text.Count(s, c) == (if s[i] == c then 1 else 0) + Text.Count(s[i + 1..], c)
  {
    var rest := s[i + 1..];
    assert s == s[..i] + ([s[i]] + rest);
    Text.CountAppend(s[..i], [s[i]] + rest, c);
    Text.CountAppend([s[i]], rest, c);
  }

  // What the number group matches is number text.
  lemma PatternIsNumberText(s: string)
    requires NumberPattern(s)
    ensures IsNumberText(s)
  {
    var i := DigitRun(s);
    CountAfterRun(s, i);
    if i < |s| {
      assert s[i] == '.';
      var rest := s[i + 1..];
      assert DigitRun(rest) == |rest|;
      RunAllDigits(rest);
      assert '.' !in rest by {
        assert Text.AllDigits(rest);
      }
      DigitsAroundDot(s, i);
      if i > 0 {
        assert Text.IsDigit(s[0]);
      } else {
        assert Text.IsDigit(s[1]) by {
          assert s[1] == rest[0];
        }
      }
    } else {
      assert Text.IsDigit(s[0]);
    }
  }

  /** Digits, one '.', digits: every character is a digit or a '.'. */
  lemma DigitsAroundDot(s: string, i: nat)
    requires i < |s| && s[i] == '.'
    requires Text.AllDigits(s[..i]) && Text.AllDigits(s[i + 1..])
    ensures forall j :: 0 <= j < |s| ==> Text.IsDigit(s[j]) || s[j] == '.'
  {
    forall j | 0 <= j < |s|
      ensures Text.IsDigit(s[j]) || s[j] == '.'
    {
      if j < i {
        assert s[j] == s[..i][j];
      } else if j > i {
        assert s[j] == s[i + 1..][j - i - 1];
      }
    }
  }

  // Number text is matched by the number group.
  lemma NumberTextIsPattern(s: string)
    requires IsNumberText(s)
    ensures NumberPattern(s)
  {
    var i := DigitRun(s);
    CountAfterRun(s, i);
    var d :| 0 <= d < |s| && Text.IsDigit(s[d]);
    if i < |s| {
      var rest := s[i + 1..];
      assert s[i] == '.';
      assert Text.Count(rest, '.') == 0;
      forall j | 0 <= j < |rest|
        ensures Text.IsDigit(rest[j])
      {
        assert rest[j] == s[i + 1 + j];
        assert rest[j] in rest;
      }
      AllDigitsRun(rest);
      if i == 0 {
        assert d >= 1;
      }
    }
  }

  /** `float(number_str)`, exactly: the whole part plus the fraction digits
      over the matching power of ten. It is zero exactly when every digit is 0. */
  function NumberValue(s: string): (v: real)
    requires IsNumberText(s)
    ensures v >= 0.0
    ensures v == 0.0 <==> forall i :: 0 <= i < |s| ==> s[i] == '0' || s[i] == '.'
  {
    NumberPatternIsNumberText(s);
    var i := DigitRun(s);
    var whole := s[..i];
    var frac := if i < |s| then s[i + 1..] else "";
    RunAllDigits(frac);
    ZeroDigits(s, i, frac);
    FractionValue(Text.ValueOf(frac), Text.Pow10(|frac|));
    Text.ValueOf(whole) as real + Text.ValueOf(frac) as real / Text.Pow10(|frac|) as real
  }

  /** A number text shows only zeros exactly when both its digit runs denote zero. */
  lemma ZeroDigits(s: string, i: nat, frac: string)
    requires IsNumberText(s) && NumberPattern(s) && i == DigitRun(s)
    requires frac == (if i < |s| then s[i + 1..] else "") && Text.AllDigits(frac)
    ensures (forall j :: 0 <= j < |s| ==> s[j] == '0' || s[j] == '.') <==>
      Text.ValueOf(s[..i]) == 0 && Text.ValueOf(frac) == 0
  {
    Text.ValueOfZero(s[..i]);
    Text.ValueOfZero(frac);
    ZerosSplit(s, i, s[..i], frac);
  }

  /** Text made of a digit run, then optionally a '.' and another digit run,
      shows only zeros and dots exactly when both runs are all zeros. */
  lemma ZerosSplit(s: string, i: nat, whole: string, frac: string)
    requires i <= |s| && whole == s[..i] && Text.AllDigits(whole) && Text.AllDigits(frac)
    requires i < |s| ==> s[i] == '.' && frac == s[i + 1..]
    requires i == |s| ==> frac == ""
    ensures (forall j :: 0 <= j < |s| ==> s[j] == '0' || s[j] == '.') <==>
      (forall j :: 0 <= j < |whole| ==> whole[j] == '0') && (forall j :: 0 <= j < |frac| ==> frac[j] == '0')
  {
    if forall j :: 0 <= j < |s| ==> s[j] == '0' || s[j] == '.' {
      forall j | 0 <= j < |whole|
        ensures whole[j] == '0'
      {
        assert whole[j] == s[j];
      }
      forall j | 0 <= j < |frac|
        ensures frac[j] == '0'
      {
        assert frac[j] == s[i + 1 + j];
      }
    }
    if (forall j :: 0 <= j < |whole| ==> whole[j] == '0') && (forall j :: 0 <= j < |frac| ==> frac[j] == '0') {
      forall j | 0 <= j < |s|
        ensures s[j] == '0' || s[j] == '.'
      {
        if j < i {
          assert s[j] == whole[j];
        } else if j > i {
          assert s[j] == frac[j - i - 1];
        }
      }
    }
  }

  /** A fraction `v / p` with `p >= 1` is nonnegative, and zero exactly when `v` is. */
  lemma FractionValue(v: nat, p: nat)
    requires p >= 1
    ensures v as real / p as real >= 0.0
    ensures v as real / p as real == 0.0 <==> v == 0
  {
  }

  /** What the pattern matched: the number group and the optional unit group. */
  datatype AmountMatch = AmountMatch(number: string, unit: Option<char>)

  function UnitText(unit: Option<char>): string {
    if unit.Some? then [unit.value] else ""
  }

  /** The part of the text the pattern must span: `$` also matches just before
      a final newline, so a trailing "\n" is left outside the match. */
  function Anchored(text: string): (body: string)
    ensures body == text || (body + "\n" == text)
  {
    if |text| > 0 && text[|text| - 1] == '\n' then text[..|text| - 1] else text
  }

  /** `AMOUNT_PATTERN.match(text)` spanning all of `body`: the greedy number
      group, then the unit letter if one is left. */
  function MatchBody(body: string): (r: Option<AmountMatch>)
    ensures r.Some? ==>
      && IsNumberText(r.value.number)
      && (r.value.unit.Some? ==> IsUnitLetter(r.value.unit.value))
      && body == r.value.number + UnitText(r.value.unit)
    ensures r.None? ==>
      && !IsNumberText(body)
      && (body == [] || !IsUnitLetter(body[|body| - 1]) || !IsNumberText(body[..|body| - 1]))
  {
    NumberPatternIsNumberText(body);
    if NumberPattern(body) then Some(AmountMatch(body, None))
    else if |body| > 0 && IsUnitLetter(body[|body| - 1]) && NumberPattern(body[..|body| - 1]) then
      NumberPatternIsNumberText(body[..|body| - 1]);
      assert body == body[..|body| - 1] + [body[|body| - 1]];
      Some(AmountMatch(body[..|body| - 1], Some(body[|body| - 1])))
    else
      assert |body| > 0 ==> !IsUnitLetter(body[|body| - 1]) || !IsNumberText(body[..|body| - 1]) by {
        if |body| > 0 {
          NumberPatternIsNumberText(body[..|body| - 1]);
        }
      }
      None
  }

  /** The match is unique: a number text, possibly followed by a unit letter,
      matches as exactly that number and that unit. */
  lemma MatchIsUnique(number: string, unit: Option<char>)
    requires IsNumberText(number)
    requires unit.Some? ==> IsUnitLetter(unit.value)
    ensures MatchBody(number + UnitText(unit)) == Some(AmountMatch(number, unit))
  {
    var body := number + UnitText(unit);
    NumberPatternIsNumberText(number);
    NumberPatternIsNumberText(body);
    if unit.Some? {
      assert body[|body| - 1] == unit.value;
      assert !IsNumberText(body);
      assert body[..|body| - 1] == number;
    } else {
      assert body == number;
    }
  }

  // ---------------------------------------------------------------------------
  // `parse_amount`
  // ---------------------------------------------------------------------------

  const EmptyAmount: Error := ParseError("Amount cannot be empty")
  const NotPositive: Error := ParseError("Amount must be greater than zero")

  function InvalidFormat(amount: string): Error {
    ParseError("Invalid amount format: " + amount)
  }

  /** The text the pattern is matched against: stripped, every comma deleted. */
  function Cleaned(amount: string): (r: string)
    ensures ',' !in r
    ensures |r| <= |amount|
    ensures Text.IsBlank(amount) ==> r == []
  {
    Text.Delete(Text.Strip(amount), ',')
  }

  /** The multiplier a unit letter selects, as the `UnitMultiplier` members
      state it; no unit (and KELVIN SIGN, which never gets this far) gives 1. */
  function Multiplier(unit: Option<char>): (r: nat)
    ensures unit.None? ==> r == 1
    ensures unit.Some? && unit.value in "kmbKMB" ==> UnitFromString([unit.value]) == Ok(r)
  {
    match unit
    case None => 1
    case Some(c) =>
      UnitLetters(c);
      if c == 'k' || c == 'K' then 1000
      else if c == 'm' || c == 'M' then 1000000
      else if c == 'b' || c == 'B' then 1000000000
      else 1
  }

  /** Lines after a successful match: `float(number_str)`, the unit's
      multiplier, then the zero and sign checks. Only KELVIN SIGN fails the
      unit lookup, and no number is negative. */
  function Checked(m: AmountMatch): (r: Result<real, Error>)
    requires IsNumberText(m.number)
    requires m.unit.Some? ==> IsUnitLetter(m.unit.value)
    ensures m.unit == Some(KelvinSign) ==> r == Err(ParseError("Invalid unit: " + [KelvinSign]))
    ensures m.unit != Some(KelvinSign) ==>
      (r.Ok? <==> NumberValue(m.number) != 0.0)
    ensures m.unit != Some(KelvinSign) && r.Ok? ==> r.value == NumberValue(m.number) * Multiplier(m.unit) as real
    ensures m.unit != Some(KelvinSign) && r.Err? ==> r.error == NotPositive
    ensures r.Ok? ==> r.value > 0.0
  {
    var number := NumberValue(m.number);
    var scaled :- Scaled(number, m.unit);
    if scaled == 0.0 then Err(NotPositive)
    else if scaled < 0.0 then Err(ParseError("Amount must be positive"))
    else Ok(scaled)
  }

  /** `number *= UnitMultiplier.from_string(unit)` when a unit was matched. */
  function Scaled(number: real, unit: Option<char>): (r: Result<real, Error>)
    requires unit.Some? ==> IsUnitLetter(unit.value)
    ensures unit == Some(KelvinSign) ==> r == Err(ParseError("Invalid unit: " + [KelvinSign]))
    ensures unit != Some(KelvinSign) ==> r == Ok(number * Multiplier(unit) as real)
  {
    if unit.None? then Ok(number)
    else
      UnitLetters(unit.value);
      var k :- UnitFromString([unit.value]);
      Ok(number * k as real)
  }

  /** `parse_amount`, with the match ending where `$` lets it end (`strict`
      false, as written) or only at the very end of the cleaned text (`strict`
      true). */
  function ParseAmountWith(amount: string, strict: bool): (r: Result<real, Error>)
    ensures Text.IsBlank(amount) ==> r == Err(EmptyAmount)
    ensures !Text.IsBlank(amount) ==>
      var body := Decimal.Ascii(if strict then Cleaned(amount) else Anchored(Cleaned(amount)));
      match MatchBody(body)
      case None => r == Err(InvalidFormat(amount))
      case Some(m) => r == Checked(m)
  {
    if amount == [] || Text.Strip(amount) == [] then Err(EmptyAmount)
    else
      var clean := Cleaned(amount);
      match MatchBody(Decimal.Ascii(if strict then clean else Anchored(clean)))
      case None => Err(InvalidFormat(amount))
      case Some(m) => Checked(m)
  }

  /** `parse_amount` as written: blank text is empty; otherwise the cleaned
      text, up to a final newline and with its decimal digits made ASCII, must
      be a number text with an optional unit letter, and the result is that number times the unit's multiplier,
      rejected when zero. Every result is positive. */
  function ParseAmount(amount: string): (r: Result<real, Error>)
    ensures Text.IsBlank(amount) ==> r == Err(EmptyAmount)
    ensures !Text.IsBlank(amount) && MatchBody(Decimal.Ascii(Anchored(Cleaned(amount)))).None? ==> r == Err(InvalidFormat(amount))
    ensures !Text.IsBlank(amount) && MatchBody(Decimal.Ascii(Anchored(Cleaned(amount)))).Some? ==>
      r == Checked(MatchBody(Decimal.Ascii(Anchored(Cleaned(amount)))).value)
    ensures r.Ok? ==> r.value > 0.0
  {
    ParseAmountWith(amount, false)
  }

  /** `parse_amount` with the match required to span the whole cleaned text
      (what `re.fullmatch` does): an accepted amount's cleaned text consists of
      digits, '.' and unit letters only. */
  function ParseAmountStrict(amount: string): (r: Result<real, Error>)
    ensures Text.IsBlank(amount) ==> r == Err(EmptyAmount)
    ensures r.Ok? ==> r.value > 0.0
    ensures r.Ok? ==> forall i :: 0 <= i < |Cleaned(amount)| ==> IsPatternChar(Cleaned(amount)[i])
  {
    var r := ParseAmountWith(amount, true);
    assert r.Ok? ==> MatchBody(Decimal.Ascii(Cleaned(amount))).Some?;
    if r.Ok? then PatternCharacters(Cleaned(amount)); r else r
  }

  /** The characters the whole pattern can match. */
  predicate IsPatternChar(c: char) {
    Decimal.IsDecimal(c) || c == '.' || IsUnitLetter(c)
  }

  // A matched body holds only digits, dots and unit letters.
  lemma MatchedCharacters(body: string)
    requires MatchBody(body).Some?
    ensures forall i :: 0 <= i < |body| ==> Text.IsDigit(body[i]) || body[i] == '.' || IsUnitLetter(body[i])
  {
    var m := MatchBody(body).value;
    forall i | 0 <= i < |body|
      ensures Text.IsDigit(body[i]) || body[i] == '.' || IsUnitLetter(body[i])
    {
      if i < |m.number| {
        assert body[i] == m.number[i];
      }
    }
  }

  // Text whose ASCII form matches holds only decimal digits, dots and unit letters.
  lemma PatternCharacters(text: string)
    requires MatchBody(Decimal.Ascii(text)).Some?
    ensures forall i :: 0 <= i < |text| ==> IsPatternChar(text[i])
  {
    var body := Decimal.Ascii(text);
    MatchedCharacters(body);
    forall i | 0 <= i < |text|
      ensures IsPatternChar(text[i])
    {
      Decimal.AsciiAt(text, i);
    }
  }

  /** Where the cleaned text does not end in a newline, `$` and a full match
      agree, and so do the two parsers. */
  lemma StrictAgreesWithoutTrailingNewline(amount: string)
    requires Cleaned(amount) == [] || Cleaned(amount)[|Cleaned(amount)| - 1] != '\n'
    ensures ParseAmountStrict(amount) == ParseAmount(amount)
  {
  }

  // ---------------------------------------------------------------------------
  // Properties of `parse_amount`
  // ---------------------------------------------------------------------------

  /** A number text followed by an optional unit letter is its own cleaned
      text, and is matched as exactly that number and unit. */
  lemma PlainAmountMatches(number: string, unit: Option<char>)
    requires IsNumberText(number)
    requires unit.Some? ==> IsUnitLetter(unit.value)
    ensures !Text.IsBlank(number + UnitText(unit))
    ensures MatchBody(Decimal.Ascii(Anchored(Cleaned(number + UnitText(unit))))) == Some(AmountMatch(number, unit))
  {
    PlainAmountIsClean(number, unit);
    MatchIsUnique(number, unit);
  }

  /** A number text with an optional unit letter has nothing to strip, no
      comma to delete and no final newline. */
  lemma PlainAmountIsClean(number: string, unit: Option<char>)
    requires IsNumberText(number)
    requires unit.Some? ==> IsUnitLetter(unit.value)
    ensures var s := number + UnitText(unit);
      !Text.IsBlank(s) && Anchored(Cleaned(s)) == s && Decimal.Ascii(s) == s
  {
    var s := number + UnitText(unit);
    forall i | 0 <= i < |s|
      ensures NoSeparator(s[i]) && (Text.IsDigit(s[i]) || !Decimal.IsDecimal(s[i]))
    {
      if i < |number| {
        assert s[i] == number[i];
      } else {
        UnitLetterNotDecimal(unit.value);
      }
    }
    CleanText(s);
    AsciiUnchanged(s);
  }

  /** A number text is nonzero exactly when one of its digits is not 0. */
  lemma NonzeroDigit(number: string)
    requires IsNumberText(number)
    ensures NumberValue(number) != 0.0 <==> exists i :: 0 <= i < |number| && '1' <= number[i] <= '9'
  {
    if NumberValue(number) != 0.0 {
      var i :| 0 <= i < |number| && !(number[i] == '0' || number[i] == '.');
      assert '1' <= number[i] <= '9';
    }
  }

  /** A number text, optionally followed by a unit letter other than KELVIN
      SIGN, parses to the number times the unit's multiplier, and is rejected
      as zero exactly when none of its digits is 1 to 9. */
  lemma ParsePlainAmount(number: string, unit: Option<char>)
    requires IsNumberText(number)
    requires unit.Some? ==> IsUnitLetter(unit.value) && unit.value != KelvinSign
    ensures var r := ParseAmount(number + UnitText(unit));
      && (r.Ok? <==> exists i :: 0 <= i < |number| && '1' <= number[i] <= '9')
      && (r.Ok? ==> r.value == NumberValue(number) * Multiplier(unit) as real)
      && (r.Err? ==> r.error == NotPositive)
  {
    PlainAmountMatches(number, unit);
    assert ParseAmount(number + UnitText(unit)) == Checked(AmountMatch(number, unit));
    CheckedPlain(number, unit);
  }

  // A plain match is checked to its value times the multiplier, or rejected as not positive.
  lemma CheckedPlain(number: string, unit: Option<char>)
    requires IsNumberText(number)
    requires unit.Some? ==> IsUnitLetter(unit.value) && unit.value != KelvinSign
    ensures var r := Checked(AmountMatch(number, unit));
      && (r.Ok? <==> exists i :: 0 <= i < |number| && '1' <= number[i] <= '9')
      && (r.Ok? ==> r.value == NumberValue(number) * Multiplier(unit) as real)
      && (r.Err? ==> r.error == NotPositive)
  {
    NonzeroDigit(number);
  }

  /** The unit letter's case does not matter. */
  lemma UnitCaseIgnored(number: string, lower: char)
    requires IsNumberText(number)
    requires lower == 'k' || lower == 'm' || lower == 'b'
    ensures ParseAmount(number + [lower]) == ParseAmount(number + [Text.UpperChar(lower)])
  {
    var upper := Text.UpperChar(lower);
    assert upper == 'K' || upper == 'M' || upper == 'B';
    SameMultiplierSameParse(number, lower, upper);
  }

  /** Two unit letters with one multiplier parse alike. */
  lemma SameMultiplierSameParse(number: string, a: char, b: char)
    requires IsNumberText(number)
    requires IsUnitLetter(a) && a != KelvinSign && IsUnitLetter(b) && b != KelvinSign
    requires Multiplier(Some(a)) == Multiplier(Some(b))
    ensures ParseAmount(number + [a]) == ParseAmount(number + [b])
  {
    ParseWithUnit(number, a);
    ParseWithUnit(number, b);
    CheckedSame(number, a, b);
  }

  // Number text with a unit letter parses as its match.
  lemma ParseWithUnit(number: string, u: char)
    requires IsNumberText(number) && IsUnitLetter(u)
    ensures ParseAmount(number + [u]) == Checked(AmountMatch(number, Some(u)))
  {
    assert UnitText(Some(u)) == [u];
    PlainAmountMatches(number, Some(u));
  }

  // Unit letters with the same multiplier check alike.
  lemma CheckedSame(number: string, a: char, b: char)
    requires IsNumberText(number)
    requires IsUnitLetter(a) && a != KelvinSign && IsUnitLetter(b) && b != KelvinSign
    requires Multiplier(Some(a)) == Multiplier(Some(b))
    ensures Checked(AmountMatch(number, Some(a))) == Checked(AmountMatch(number, Some(b)))
  {
    var v, k := NumberValue(number), Multiplier(Some(a));
    CheckedByValue(AmountMatch(number, Some(a)), v, k);
    CheckedByValue(AmountMatch(number, Some(b)), v, k);
  }

  /** Apart from KELVIN SIGN, a match is checked by its value and its multiplier alone. */
  lemma CheckedByValue(m: AmountMatch, v: real, k: nat)
    requires IsNumberText(m.number) && m.unit.Some? && IsUnitLetter(m.unit.value) && m.unit != Some(KelvinSign)
    requires v == NumberValue(m.number) && k == Multiplier(m.unit)
    ensures Checked(m) == if v == 0.0 then Err(NotPositive) else Ok(v * k as real)
  {
  }

  /** Commas are ignored: two amounts without surrounding whitespace that are
      the same text once their commas are deleted are accepted alike, with the
      same value. */
  lemma CommasIgnored(a: string, b: string)
    requires Text.Strip(a) == a && Text.Strip(b) == b
    requires Text.Delete(a, ',') == Text.Delete(b, ',')
    ensures ParseAmount(a).Ok? <==> ParseAmount(b).Ok?
    ensures ParseAmount(a).Ok? ==> ParseAmount(a) == ParseAmount(b)
  {
  }

  /** KELVIN SIGN passes the pattern but is not a multiplier's name. */
  lemma KelvinSignIsInvalidUnit(number: string)
    requires IsNumberText(number)
    ensures ParseAmount(number + [KelvinSign]) == Err(ParseError("Invalid unit: " + [KelvinSign]))
  {
    PlainAmountMatches(number, Some(KelvinSign));
  }

  /** A number text over the Unicode decimal digits, optionally followed by a
      unit letter, has nothing to strip, no comma to delete and no final
      newline; making its digits ASCII leaves the unit letter alone. */
  lemma DecimalAmountIsClean(number: string, unit: Option<char>)
    requires IsDecimalNumberText(number)
    requires unit.Some? ==> IsUnitLetter(unit.value)
    ensures var s := number + UnitText(unit);
      && !Text.IsBlank(s) && Anchored(Cleaned(s)) == s
      && Decimal.Ascii(s) == Decimal.Ascii(number) + UnitText(unit)
  {
    var s := number + UnitText(unit);
    forall i | 0 <= i < |s|
      ensures NoSeparator(s[i])
    {
      if i < |number| {
        assert s[i] == number[i];
      } else {
        UnitLetterNotDecimal(unit.value);
      }
    }
    CleanText(s);
    AsciiWithUnit(number, unit);
  }

  /** Not whitespace, a comma or a newline. */
  predicate NoSeparator(c: char) {
    !Text.IsSpace(c) && c != ',' && c != '\n'
  }

  /** Nonempty text without whitespace, commas or newlines is its own cleaned
      and anchored text. */
  lemma CleanText(s: string)
    requires s != [] && forall i :: 0 <= i < |s| ==> NoSeparator(s[i])
    ensures !Text.IsBlank(s) && Anchored(Cleaned(s)) == s
  {
    assert NoSeparator(s[0]) && NoSeparator(s[|s| - 1]);
    assert !Text.IsBlank(s) by {
      assert !Text.IsSpace(s[0]);
    }
    Text.StripUnchanged(s);
    forall i | 0 <= i < |s|
      ensures s[i] != ','
    {
      assert NoSeparator(s[i]);
    }
    assert Cleaned(s) == s;
    assert s[|s| - 1] != '\n';
  }

  /** Making the digits ASCII leaves a unit letter alone. */
  lemma AsciiWithUnit(number: string, unit: Option<char>)
    requires unit.Some? ==> IsUnitLetter(unit.value)
    ensures Decimal.Ascii(number + UnitText(unit)) == Decimal.Ascii(number) + UnitText(unit)
  {
    Decimal.AsciiAppend(number, UnitText(unit));
    if unit.Some? {
      UnitLetterNotDecimal(unit.value);
      assert Decimal.Ascii([unit.value]) == [Decimal.AsciiChar(unit.value)];
    }
  }

  /** Any number text over the Unicode decimal digits, optionally followed by
      a unit letter, parses as the same text with ASCII digits. Apart from
      KELVIN SIGN, it is rejected as zero exactly when none of its digits has
      a nonzero value. */
  lemma ParseDecimalAmount(number: string, unit: Option<char>)
    requires IsDecimalNumberText(number)
    requires unit.Some? ==> IsUnitLetter(unit.value)
    ensures ParseAmount(number + UnitText(unit)) == ParseAmount(Decimal.Ascii(number) + UnitText(unit))
    ensures unit != Some(KelvinSign) ==>
      var r := ParseAmount(number + UnitText(unit));
      && (r.Ok? <==> exists i :: 0 <= i < |number| && Decimal.IsDecimal(number[i]) && Decimal.Value(number[i]).value > 0)
      && (r.Err? ==> r.error == NotPositive)
  {
    ParsedAsAscii(number, unit);
    PlainAmountMatches(Decimal.Ascii(number), unit);
    if unit != Some(KelvinSign) {
      DecimalAmountAccepted(number, unit);
    }
  }

  // Proof step for ParseDecimalAmount: when a decimal-digit amount is accepted.
  lemma DecimalAmountAccepted(number: string, unit: Option<char>)
    requires IsDecimalNumberText(number)
    requires unit.Some? ==> IsUnitLetter(unit.value) && unit.value != KelvinSign
    ensures var r := ParseAmount(number + UnitText(unit));
      && (r.Ok? <==> exists i :: 0 <= i < |number| && Decimal.IsDecimal(number[i]) && Decimal.Value(number[i]).value > 0)
      && (r.Err? ==> r.error == NotPositive)
  {
    ParsedAsAscii(number, unit);
    CheckedPlain(Decimal.Ascii(number), unit);
    NonzeroDecimal(number);
  }

  /** A decimal amount is checked as its ASCII form. */
  lemma ParsedAsAscii(number: string, unit: Option<char>)
    requires IsDecimalNumberText(number)
    requires unit.Some? ==> IsUnitLetter(unit.value)
    ensures IsNumberText(Decimal.Ascii(number))
    ensures ParseAmount(number + UnitText(unit)) == Checked(AmountMatch(Decimal.Ascii(number), unit))
  {
    var a := Decimal.Ascii(number);
    DecimalAmountIsClean(number, unit);
    DecimalNumberPattern(number);
    NumberPatternIsNumberText(a);
    MatchIsUnique(a, unit);
  }

  /** An ASCII digit 1 to 9 comes from a decimal digit of nonzero value. */
  lemma NonzeroDecimal(number: string)
    ensures (exists i :: 0 <= i < |number| && '1' <= Decimal.Ascii(number)[i] <= '9') <==>
      (exists i :: 0 <= i < |number| && Decimal.IsDecimal(number[i]) && Decimal.Value(number[i]).value > 0)
  {
    var a := Decimal.Ascii(number);
    forall i | 0 <= i < |number|
      ensures '1' <= a[i] <= '9' <==> Decimal.IsDecimal(number[i]) && Decimal.Value(number[i]).value > 0
    {
      Decimal.AsciiAt(number, i);
    }
  }

  /** Fullwidth digits are decimal digits: "１２" parses as "12" does. */
  lemma FullwidthAmount()
    ensures ParseAmount("\U{FF11}\U{FF12}") == ParseAmount("12")
  {
    FullwidthTwelve("\U{FF11}\U{FF12}");
  }

  // Proof step for FullwidthAmount, the literal passed as a parameter to keep the proof small.
  lemma FullwidthTwelve(s: string)
    requires s == "\U{FF11}\U{FF12}"
    ensures ParseAmount(s) == ParseAmount("12")
  {
    FullwidthNumber(s);
    ParseDecimalAmount(s, None);
    assert s + UnitText(None) == s;
    assert Decimal.Ascii(s) + UnitText(None) == "12";
  }

  // Proof step: fullwidth "12" is number text whose ASCII form is "12".
  lemma FullwidthNumber(s: string)
    requires s == "\U{FF11}\U{FF12}"
    ensures IsDecimalNumberText(s) && Decimal.Ascii(s) == "12"
  {
    Decimal.FullwidthOneTwo();
    assert Decimal.IsDecimal(s[0]) && Decimal.IsDecimal(s[1]);
    assert Text.Count(s, '.') == 0;
    Decimal.AsciiAt(s, 0);
    Decimal.AsciiAt(s, 1);
  }

  /** As written, a newline followed by commas survives `strip()`, and after
      the commas are deleted `$` lets the match stop before that newline:
      "1\n," is accepted as 1. */
  lemma TrailingNewlineAccepted()
    ensures '\n' in Cleaned("1\n,")
    ensures ParseAmount("1\n,") == Ok(1.0)
  {
    NewlineAmount("1\n,");
  }

  // Proof step for TrailingNewlineAccepted, the literal passed as a parameter to keep the proof small.
  lemma NewlineAmount(s: string)
    requires s == "1\n,"
    ensures '\n' in Cleaned(s)
    ensures ParseAmount(s) == Ok(1.0)
  {
    CleanedNewline(s);
    assert !Text.IsBlank(s) by {
      assert !Text.IsSpace(s[0]);
    }
    var body := Anchored(Cleaned(s));
    assert body == "1";
    assert Text.IsDigit(body[0]);
    AsciiUnchanged(body);
    OneMatches(body);
    assert ParseAmount(s) == Checked(MatchBody(Decimal.Ascii(body)).value);
  }

  // Proof step: "1" matches and checks to 1.0.
  lemma OneMatches(s: string)
    requires s == "1"
    ensures MatchBody(s) == Some(AmountMatch(s, None))
    ensures Checked(AmountMatch(s, None)) == Ok(1.0)
  {
    assert Text.IsDigit(s[0]);
    MatchIsUnique(s, None);
    assert s + UnitText(None) == s;
    assert DigitRun(s) == 1;
    assert NumberValue(s) == 1.0;
  }

  // Proof step: "1\n," cleans to "1\n".
  lemma CleanedNewline(s: string)
    requires s == "1\n,"
    ensures Cleaned(s) == "1\n"
  {
    Text.StripUnchanged(s);
    assert Text.Delete(s, ',') == "1\n" by {
      assert s[1..] == "\n,";
      assert s[1..][1..] == ",";
      assert Text.Delete(",", ',') == [];
    }
  }

  /** Matching the whole cleaned text rejects "1\n,". */
  lemma StrictRejectsTrailingNewline()
    ensures ParseAmountStrict("1\n,") == Err(InvalidFormat("1\n,"))
  {
    StrictNewlineAmount("1\n,");
  }

  // Proof step for StrictRejectsTrailingNewline, the literal passed as a parameter to keep the proof small.
  lemma StrictNewlineAmount(s: string)
    requires s == "1\n,"
    ensures ParseAmountStrict(s) == Err(InvalidFormat(s))
  {
    CleanedNewline(s);
    assert !Text.IsBlank(s) by {
      assert !Text.IsSpace(s[0]);
    }
    NewlineDoesNotMatch(Cleaned(s));
  }

  // Proof step: the strict pattern does not match "1\n".
  lemma NewlineDoesNotMatch(t: string)
    requires t == "1\n"
    ensures MatchBody(Decimal.Ascii(t)) == None
  {
    assert Text.IsDigit(t[0]) && !Decimal.IsDecimal(t[1]);
    AsciiUnchanged(t);
    assert !IsNumberText(t) by {
      assert !(Text.IsDigit(t[1]) || t[1] == '.');
    }
    assert !IsUnitLetter(t[|t| - 1]);
  }

  // ---------------------------------------------------------------------------
  // `parse_currency`
  // ---------------------------------------------------------------------------

  /** `parse_currency` and the parser's own `Currency.from_string`: the same
      three members as the domain's currency, with the codes as values, so it
      makes the same lookup and builds the same message, but raises the
      parser's own `ParseError` class rather than the domain's. */
  function ParseCurrency(s: string): (r: Result<string, Error>)
    ensures r.Ok? <==> Entity.Normalize(s) in {"AUD", "KRW", "USD"}
    ensures r.Ok? ==> r.value == Entity.Normalize(s)
    ensures r.Err? ==>
      r.error == ParseError("Unsupported currency: " + Entity.Normalize(s) + ". Supported: " + "AUD, KRW, USD")
  {
    var name := Entity.Normalize(s);
    Entity.ByNameMembers(name);
    match Entity.ByName(name, Entity.Members)
    case Some(c) => Ok(c.Code())
    case None => Err(ParseError("Unsupported currency: " + name + ". Supported: " + Entity.Supported()))
  }

  /** The parser's currency lookup accepts exactly what the domain's accepts,
      with the same code and the same message; only the exception class differs. */
  lemma ParseCurrencyMirrorsDomain(s: string)
    ensures ParseCurrency(s).Ok? <==> Entity.FromString(s).Ok?
    ensures ParseCurrency(s).Ok? ==> ParseCurrency(s).value == Entity.FromString(s).value.Code()
    ensures ParseCurrency(s).Err? ==>
      && ParseCurrency(s).error.ParseError?
      && Entity.FromString(s) == Err(DomainParseError(ParseCurrency(s).error.message))
  {
  }

  /** Every code parses to itself. */
  lemma ParseCurrencyOfCode(c: Entity.Currency)
    ensures ParseCurrency(c.Code()) == Ok(c.Code())
  {
    Entity.FromCode(c);
  }
}
