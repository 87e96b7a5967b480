/** `format_korean` (src/cur/utils/formatters/korean_formatter.py): an amount
    written with the Korean large-number units 조 (10^12), 억 (10^8) and 만
    (10^4), each group with thousands separators, followed by the currency's
    Korean name; a currency with a subunit name writes the whole part and the
    subunit part (hundredths) separately.

    The currency's names are the parameter `Names`: the domain currency has
    no subunit name, so the caller supplies both. Amounts are exact reals. */
module KoreanFormatter {
  import Text
  import opened Numbers

  const Man: nat := 10_000
  const Eok: nat := 100_000_000
  const Jo: nat := 1_000_000_000_000

  /** A currency's Korean name and subunit name; "" is a falsy subunit. */
  datatype Names = Names(korean: string, subunit: string)

  /** An amount's whole part and hundredths, as written by `_format_with_subunit`. */
  datatype Split = Split(whole: int, cents: int)

  // ---------------------------------------------------------------------------
  // Grouping by 조, 억 and 만
  // ---------------------------------------------------------------------------

  /** The parts written so far and the amount still to write. */
  datatype Progress = Progress(parts: seq<string>, rest: nat)

  /** One `if num >= size:` block: write the count of `size`s with its unit
      and keep the remainder. */
  function TakeUnit(p: Progress, size: nat, unit: string): (r: Progress)
    requires size > 0
    ensures p.rest < size ==> r == p
    ensures p.rest >= size ==> r.parts == p.parts + [Text.Commas(p.rest / size) + unit]
    ensures r.rest < size && p.rest == size * (p.rest / size) + r.rest
    ensures |r.parts| == |p.parts| + 1 <==> p.rest >= size
    ensures r.rest == p.rest % size
  {
    DivMod(p.rest, size);
    if p.rest >= size then Progress(p.parts + [Text.Commas(p.rest / size) + unit], p.rest % size)
    else p
  }

  // Euclidean division on naturals, for TakeUnit.
  lemma DivMod(x: nat, d: nat)
    requires d > 0
    ensures x == d * (x / d) + x % d && x % d < d
  {
  }

  /** The grouping blocks in the source's order, then the remainder below 만. */
  function Groups(num: nat): (r: seq<string>)
    ensures |r| <= 4
    ensures r == [] <==> num == 0
  {
    var p := TakeUnit(TakeUnit(TakeUnit(Progress([], num), Jo, "조"), Eok, "억"), Man, "만");
    if p.rest > 0 then p.parts + [Text.Commas(p.rest)] else p.parts
  }

  /** A group's text if its count is nonzero. */
  function Place(count: nat, unit: string): seq<string> {
    if count > 0 then [Text.Commas(count) + unit] else []
  }

  /** The reference reading of a number in Korean: its base-10^4 digits at
      the places 조, 억, 만 and one, each written when nonzero. */
  function Positional(num: nat): seq<string> {
    Place(num / Jo, "조") + Place(num / Eok % Man, "억") + Place(num / Man % Man, "만") + Place(num % Man, "")
  }

  /** The counts recompose the number, and all but the 조 count are below 10^4. */
  lemma PlacesRecompose(num: nat)
    ensures num == num / Jo * Jo + num / Eok % Man * Eok + num / Man % Man * Man + num % Man
    ensures num / Eok % Man < Man && num / Man % Man < Man && num % Man < Man
  {
    JoPlace(num);
    EokPlace(num % Jo);
    EokPlace(num);
    assert num % Jo == num % Jo / Eok * Eok + num % Jo % Eok;
    assert num % Eok == num % Eok / Man * Man + num % Eok % Man;
  }

  // Below 조, the 억 and lower places of a number are unchanged.
  lemma JoPlace(a: nat)
    ensures a % Jo % Eok == a % Eok
    ensures a % Jo / Eok == a / Eok % Man
  {
    var q, r := a / Jo, a % Jo;
    var s, t := r / Eok, r % Eok;
    assert a == q * Jo + r;
    assert r == s * Eok + t;
    assert 0 <= s < Man;
    assert a == (q * Man + s) * Eok + t;
    assert a / Eok == q * Man + s;
    assert a % Eok == t;
  }

  // Below 억, the 만 and lower places of a number are unchanged.
  lemma EokPlace(a: nat)
    ensures a % Eok % Man == a % Man
    ensures a % Eok / Man == a / Man % Man
  {
    var q, r := a / Eok, a % Eok;
    var s, t := r / Man, r % Man;
    assert a == q * Eok + r;
    assert r == s * Man + t;
    assert 0 <= s < Man;
    assert a == (q * Man + s) * Man + t;
    assert a / Man == q * Man + s;
    assert a % Man == t;
  }

  /** Subtracting the groups one after another, as the source does, writes
      exactly the nonzero base-10^4 digits of the number. */
  lemma GroupsArePositional(num: nat)
    ensures Groups(num) == Positional(num)
  {
    var p1 := TakeUnit(Progress([], num), Jo, "조");
    var p2 := TakeUnit(p1, Eok, "억");
    var p3 := TakeUnit(p2, Man, "만");
    JoPlace(num);
    EokPlace(num % Jo);
    EokPlace(num);
    assert p1.rest == num % Jo && p1.parts == Place(num / Jo, "조");
    assert p2.rest == num % Eok && p2.parts == p1.parts + Place(num / Eok % Man, "억");
    assert p3.rest == num % Man && p3.parts == p2.parts + Place(num / Man % Man, "만");
    assert Text.Commas(num % Man) + "" == Text.Commas(num % Man);
  }

  /** A positive number writes at least one group. */
  lemma GroupsNonEmpty(num: nat)
    requires num > 0
    ensures Groups(num) != []
  {
    GroupsArePositional(num);
    PlacesRecompose(num);
  }

  /** A positive number below 10^4 is written as its one group. */
  lemma SmallPositional(n: nat)
    requires 0 < n < Man
    ensures Positional(n) == [Text.Commas(n)]
    ensures Text.Join(Positional(n), " ") == Text.Commas(n)
  {
    assert n / Jo == 0 && n / Eok % Man == 0 && n / Man % Man == 0 && n % Man == n;
    assert Text.Commas(n) + "" == Text.Commas(n);
  }

  /** A whole number of 만 below 10^4 is written as that count of 만 alone. */
  lemma WholeMan(n: nat)
    requires 0 < n < Man
    ensures Groups(n * Man) == [Text.Commas(n) + "만"]
  {
    GroupsArePositional(n * Man);
    assert n * Man / Jo == 0 && n * Man / Eok == 0 && n * Man / Man == n && n * Man % Man == 0;
  }

  // ---------------------------------------------------------------------------
  // `format_korean`
  // ---------------------------------------------------------------------------

  /** `f"{n:,d}"` for any integer, negative ones with a leading '-'. */
  function IntCommas(n: int): string {
    if n < 0 then "-" + Text.Commas(-n) else Text.Commas(n)
  }

  /** `_format_only_main_unit`. */
  function OnlyMainUnit(amount: real, names: Names): (r: string)
    ensures amount == 0.0 ==> r == "0" + names.korean
    ensures RoundHalfEven(amount) > 0 ==> r == Text.Join(Positional(RoundHalfEven(amount)), " ") + names.korean
    ensures amount != 0.0 && RoundHalfEven(amount) <= 0 ==> r == IntCommas(RoundHalfEven(amount)) + names.korean
  {
    var unit := names.korean;
    if amount == 0.0 then "0" + unit
    else if amount < 1000.0 then
      var num := RoundHalfEven(amount);
      if num > 0 then SmallPositional(num); IntCommas(num) + unit
      else IntCommas(num) + unit
    else
      var num := RoundHalfEven(amount);
      GroupsArePositional(num);
      Text.Join(Groups(num), " ") + unit
  }

  /** The whole part and the hundredths `_format_with_subunit` writes:
      `int(amount)` and `round((amount - int(amount)) * 100)`. */
  function SplitAsWritten(amount: real): (s: Split)
    ensures amount >= 0.0 ==> 0 <= s.whole && 0 <= s.cents <= 100
    ensures amount >= 0.0 ==> s.whole as real <= amount < s.whole as real + 1.0
    ensures amount < 0.0 ==> s.whole <= 0 && -100 <= s.cents <= 0
    ensures amount < 0.0 ==> s.whole as real - 1.0 < amount <= s.whole as real
    ensures -1.0 / 200.0 <= s.whole as real + s.cents as real / 100.0 - amount <= 1.0 / 200.0
  {
    var whole := Trunc(amount);
    Split(whole, RoundHalfEven((amount - whole as real) * 100.0))
  }

  /** The whole-part text of `_format_with_subunit`: below 1000 plainly, and
      otherwise grouped by 조, 억 and 만. */
  function WholeText(whole: nat): string {
    if whole < 1000 then Text.Commas(whole) else Text.Join(Groups(whole), " ")
  }

  /** A positive whole part is written as its reading by 조, 억 and 만, below
      1000 as much as from 1000. */
  lemma WholeTextPositional(whole: nat)
    requires whole > 0
    ensures WholeText(whole) == Text.Join(Positional(whole), " ")
  {
    if whole < 1000 {
      SmallPositional(whole);
    } else {
      GroupsArePositional(whole);
    }
  }

  /** `_format_with_subunit` on a given whole part and hundredths: each
      written when positive, and "0" with the main name when neither is. */
  function WithSubunit(whole: int, cents: int, names: Names): (r: string)
    ensures whole <= 0 && cents <= 0 ==> r == "0 " + names.korean
    ensures whole > 0 && cents <= 0 ==> r == WholeText(whole) + " " + names.korean
    ensures whole <= 0 && cents > 0 ==> r == Text.Digits(cents) + " " + names.subunit
    ensures whole > 0 && cents > 0 ==>
      r == WholeText(whole) + " " + names.korean + " " + Text.Digits(cents) + " " + names.subunit
  {
    var wholePart := if whole > 0 then WholeText(whole) + " " + names.korean else "";
    var centsPart := if cents > 0 then Text.Digits(cents) + " " + names.subunit else "";
    var parts := (if whole > 0 then [wholePart] else []) + (if cents > 0 then [centsPart] else []);
    JoinOptional(wholePart, whole > 0, centsPart, cents > 0);
    if parts == [] then "0 " + names.korean
    else Text.Join(parts, " ")
  }

  /** Joining up to two optional parts with a space. */
  lemma JoinOptional(a: string, hasA: bool, b: string, hasB: bool)
    ensures var parts := (if hasA then [a] else []) + (if hasB then [b] else []);
      && (parts == [] <==> !hasA && !hasB)
      && (hasA && hasB ==> Text.Join(parts, " ") == a + " " + b)
      && (hasA && !hasB ==> Text.Join(parts, " ") == a)
      && (!hasA && hasB ==> Text.Join(parts, " ") == b)
  {
    if hasA && hasB {
      JoinTwo(a, b);
    }
  }

  /** `format_korean` as written. */
  function FormatKorean(amount: real, names: Names): (r: string)
    ensures names.subunit == "" ==> r == OnlyMainUnit(amount, names)
    ensures names.subunit != "" ==>
      r == WithSubunit(SplitAsWritten(amount).whole, SplitAsWritten(amount).cents, names)
  {
    if names.subunit != "" then
      var split := SplitAsWritten(amount);
      WithSubunit(split.whole, split.cents, names)
    else OnlyMainUnit(amount, names)
  }

  /** As written, the hundredths are rounded after the whole part is cut off,
      so they can round up to 100 without carrying: 1.999 has whole part 1
      and 100 hundredths. */
  lemma HundredCentsAsWritten()
    ensures SplitAsWritten(1.999) == Split(1, 100)
    ensures WithSubunit(1, 100, Names("달러", "센트")) == "1 달러 100 센트"
  {
    assert Trunc(1.999) == 1;
    RoundHalfEvenUnique(99.9, 100);
    ManyCents("1 달러", "100 센트");
  }

  // Proof step for HundredCentsAsWritten, the literals passed as parameters to keep the proof small.
  lemma ManyCents(a: string, b: string)
    requires a == "1 달러" && b == "100 센트"
    ensures WithSubunit(1, 100, Names("달러", "센트")) == a + " " + b
  {
    assert WholeText(1) == "1" by {
      assert Text.Commas(1) == Text.Digits(1);
    }
    assert Text.Digits(100) == "100" by {
      assert Text.Digits(10) == "10";
    }
  }

  /** The evident intent: round the whole amount to hundredths first, then
      split, so the hundredths are always below 100 and the two parts
      recompose the rounded amount. Signs follow `int`: toward zero. */
  function SplitRounded(amount: real): (s: Split)
    ensures -100 < s.cents < 100
    ensures s.whole * 100 + s.cents == RoundHalfEven(amount * 100.0)
    ensures amount >= 0.0 ==> s.whole >= 0 && s.cents >= 0
  {
    var total := RoundHalfEven(amount * 100.0);
    if total >= 0 then Split(total / 100, total % 100)
    else Split(-((-total) / 100), -((-total) % 100))
  }

  /** `format_korean` with the hundredths carried into the whole part. */
  function FormatKoreanRounded(amount: real, names: Names): (r: string)
    ensures names.subunit == "" ==> r == OnlyMainUnit(amount, names)
    ensures names.subunit != "" ==>
      r == WithSubunit(SplitRounded(amount).whole, SplitRounded(amount).cents, names)
  {
    if names.subunit != "" then
      var split := SplitRounded(amount);
      WithSubunit(split.whole, split.cents, names)
    else OnlyMainUnit(amount, names)
  }

  /** With the carry, 1.999 is two whole units and no hundredths. */
  lemma HundredCentsCarried()
    ensures SplitRounded(1.999) == Split(2, 0)
  {
    RoundHalfEvenUnique(199.9, 200);
  }

  /** The two splits agree whenever the fraction's hundredths do not round
      up to 100. */
  lemma SplitsAgreeBelowHundred(amount: real)
    requires amount >= 0.0
    requires SplitAsWritten(amount).cents < 100
    ensures SplitRounded(amount) == SplitAsWritten(amount)
  {
    var w := Trunc(amount);
    var c := SplitAsWritten(amount).cents;
    assert 0 <= c;
    RoundShift(amount * 100.0 - (w * 100) as real, w * 100);
    assert RoundHalfEven(amount * 100.0) == w * 100 + c;
  }

  /** Shifting by an even integer shifts the rounded value alike. */
  lemma RoundShift(x: real, k: int)
    requires k % 2 == 0
    ensures RoundHalfEven(x + k as real) == RoundHalfEven(x) + k
  {
    RoundHalfEvenUnique(x + k as real, RoundHalfEven(x) + k);
  }

  // ---------------------------------------------------------------------------
  // Amounts from the formatter's tests
  // ---------------------------------------------------------------------------

  /** Below 10^8 only the 만 and unit places can be nonzero. */
  lemma PositionalBelowEok(num: nat)
    requires num < Eok
    ensures Positional(num) == Place(num / Man, "만") + Place(num % Man, "")
  {
    assert num / Jo == 0 && num / Eok == 0 && num / Man % Man == num / Man;
  }

  /** Below 10^12 the 조 place is empty. */
  lemma PositionalBelowJo(num: nat)
    requires num < Jo
    ensures Positional(num) == Place(num / Eok, "억") + Place(num / Man % Man, "만") + Place(num % Man, "")
  {
    assert num / Jo == 0 && num / Eok % Man == num / Eok;
  }

  /** 1,385,000 won: "138만 5,000원". */
  lemma Won1385000()
    ensures FormatKorean(1385000.0, Names("원", "")) == "138만 5,000원"
  {
    WonVector(1385000.0, Names("원", ""));
  }

  // Proof step for Won1385000, the literals passed as parameters to keep the proof small.
  lemma WonVector(amount: real, names: Names)
    requires amount == 1385000.0 && names == Names("원", "")
    ensures FormatKorean(amount, names) == "138만 5,000원"
  {
    RoundInteger(1385000);
    assert FormatKorean(amount, names) == Text.Join(Positional(1385000), " ") + "원";
    Grouped1385000(1385000);
    assert "138만 5,000" + "원" == "138만 5,000원";
  }

  // Proof step: the positional reading of 1385000.
  lemma Grouped1385000(n: nat)
    requires n == 1385000
    ensures Text.Join(Positional(n), " ") == "138만 5,000"
  {
    Commas138();
    Commas5000();
    GroupedManUnit(n, 138, 5000, "138", "5,000");
    assert "138" + "만" + " " + "5,000" == "138만 5,000";
  }


  /** 150,000,000 dollars: "1억 5,000만 달러". */
  lemma Dollars150000000()
    ensures FormatKorean(150000000.0, Names("달러", "센트")) == "1억 5,000만 달러"
  {
    assert SplitAsWritten(150000000.0) == Split(150000000, 0) by {
      RoundInteger(0);
    }
    Whole150000000(150000000);
  }

  // Proof step: the whole-part text of 150000000.
  lemma Whole150000000(n: nat)
    requires n == 150000000
    ensures WholeText(n) == "1억 5,000만"
  {
    WholeTextPositional(n);
    Grouped150000000(n);
  }

  // Proof step: the positional reading of 150000000.
  lemma Grouped150000000(n: nat)
    requires n == 150000000
    ensures Text.Join(Positional(n), " ") == "1억 5,000만"
  {
    Commas1();
    Commas5000();
    GroupedEokMan(n, 1, 5000, "1", "5,000");
    assert "1" + "억" + " " + "5,000" + "만" == "1억 5,000만";
  }

  /** 1,500,000,000,000 dollars: "1조 5,000억 달러". */
  lemma Dollars1500000000000()
    ensures FormatKorean(1500000000000.0, Names("달러", "센트")) == "1조 5,000억 달러"
  {
    assert SplitAsWritten(1500000000000.0) == Split(1500000000000, 0) by {
      RoundInteger(0);
    }
    Whole1500000000000(1500000000000);
  }

  // Proof step: the whole-part text of 1500000000000.
  lemma Whole1500000000000(n: nat)
    requires n == 1500000000000
    ensures WholeText(n) == "1조 5,000억"
  {
    WholeTextPositional(n);
    Grouped1500000000000(n);
  }

  // Proof step: the positional reading of 1500000000000.
  lemma Grouped1500000000000(n: nat)
    requires n == 1500000000000
    ensures Text.Join(Positional(n), " ") == "1조 5,000억"
  {
    Commas1();
    Commas5000();
    GroupedJoEok(n, 1, 5000, "1", "5,000");
    assert "1" + "조" + " " + "5,000" + "억" == "1조 5,000억";
  }

  /** A number with nonzero 조 and 억 places and nothing below. */
  lemma GroupedJoEok(n: nat, jo: nat, eok: nat, joText: string, eokText: string)
    requires n / Jo == jo > 0 && n / Eok % Man == eok > 0 && n / Man % Man == 0 && n % Man == 0
    requires Text.Commas(jo) == joText && Text.Commas(eok) == eokText
    ensures Text.Join(Positional(n), " ") == joText + "조" + " " + eokText + "억"
  {
    assert Positional(n) == [joText + "조", eokText + "억"];
    JoinTwo(joText + "조", eokText + "억");
  }

  /** A number below 10^8 with nonzero 만 and unit places. */
  lemma GroupedManUnit(n: nat, man: nat, unit: nat, manText: string, unitText: string)
    requires n < Eok && n / Man == man > 0 && n % Man == unit > 0
    requires Text.Commas(man) == manText && Text.Commas(unit) == unitText
    ensures Text.Join(Positional(n), " ") == manText + "만" + " " + unitText
  {
    PositionalBelowEok(n);
    assert Text.Commas(unit) + "" == unitText;
    assert Positional(n) == [manText + "만", unitText];
    JoinTwo(manText + "만", unitText);
  }

  /** A number below 10^12 with nonzero 억 and 만 places and nothing below. */
  lemma GroupedEokMan(n: nat, eok: nat, man: nat, eokText: string, manText: string)
    requires n < Jo && n / Eok == eok > 0 && n / Man % Man == man > 0 && n % Man == 0
    requires Text.Commas(eok) == eokText && Text.Commas(man) == manText
    ensures Text.Join(Positional(n), " ") == eokText + "억" + " " + manText + "만"
  {
    PositionalBelowJo(n);
    assert Positional(n) == [eokText + "억", manText + "만"];
    JoinTwo(eokText + "억", manText + "만");
  }


  /** 15,000.50 dollars: "1만 5,000 달러 50 센트". */
  lemma Dollars15000And50()
    ensures FormatKorean(15000.5, Names("달러", "센트")) == "1만 5,000 달러 50 센트"
  {
    DollarVector(15000.5, Names("달러", "센트"));
  }

  // Proof step for Dollars15000And50, the literals passed as parameters to keep the proof small.
  lemma DollarVector(amount: real, names: Names)
    requires amount == 15000.5 && names == Names("달러", "센트")
    ensures FormatKorean(amount, names) == "1만 5,000 달러 50 센트"
  {
    assert SplitAsWritten(amount) == Split(15000, 50) by {
      assert Trunc(amount) == 15000;
      RoundInteger(50);
    }
    Whole15000(15000);
    Digits50(50);
    assert "1만 5,000" + " " + "달러" + " " + "50" + " " + "센트" == "1만 5,000 달러 50 센트";
  }

  // Proof step: the digits of 50.
  lemma Digits50(n: nat)
    requires n == 50
    ensures Text.Digits(n) == "50"
  {
    assert n / 10 == 5 && n % 10 == 0;
    assert Text.Digits(5) == "5";
  }

  // Proof step: the whole-part text of 15000.
  lemma Whole15000(n: nat)
    requires n == 15000
    ensures WholeText(n) == "1만 5,000"
  {
    WholeTextPositional(n);
    Grouped15000(n);
  }

  // Proof step: the positional reading of 15000.
  lemma Grouped15000(n: nat)
    requires n == 15000
    ensures Text.Join(Positional(n), " ") == "1만 5,000"
  {
    Commas1();
    Commas5000();
    GroupedManUnit(n, 1, 5000, "1", "5,000");
    assert "1" + "만" + " " + "5,000" == "1만 5,000";
  }


  /** Zero dollars: "0 달러". */
  lemma DollarsZero()
    ensures FormatKorean(0.0, Names("달러", "센트")) == "0 달러"
  {
    RoundInteger(0);
  }

  // Proof step: 1 with thousands separators.
  lemma Commas1()
    ensures Text.Commas(1) == "1"
  {
  }

  // Proof step: 138 with thousands separators.
  lemma Commas138()
    ensures Text.Commas(138) == "138"
  {
    assert Text.Digits(13) == "13" by {
      assert Text.Digits(1) == "1";
    }
  }

  // Proof step: 5000 with thousands separators.
  lemma Commas5000()
    ensures Text.Commas(5000) == "5,000"
  {
    assert Text.Pad3(0) == "000";
    assert Text.Commas(5) == "5";
  }

  // Joining two parts puts one separator between them.
  lemma JoinTwo(a: string, b: string)
    ensures Text.Join([a, b], " ") == a + " " + b
  {
    assert [a, b][1..] == [b];
  }
}
