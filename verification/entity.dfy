/** `Currency` (src/cur/core/entity.py): the three supported currencies, each
    carrying a `CurrencyInfo(code, korean_name)`, and the lookup from user text. */
module Entity {
  import opened Wrappers
  import opened Errors
  import Text

  datatype Currency = AUD | KRW | USD {

    /** The enum member's name: what `Currency[name]` looks up. */
    function Name(): string {
      match this
      case AUD => "AUD"
      case KRW => "KRW"
      case USD => "USD"
    }

    /** `CurrencyInfo.code`. */
    function Code(): string {
      match this
      case AUD => "AUD"
      case KRW => "KRW"
      case USD => "USD"
    }

    /** `CurrencyInfo.korean_name`. */
    function KoreanName(): string {
      match this
      case AUD => "호주 달러"
      case KRW => "원"
      case USD => "미국 달러"
    }

    /** `__str__`: the code. */
    function ToString(): string {
      Code()
    }
  }

  /** The members in declaration order. */
  const Members: seq<Currency> := [AUD, KRW, USD]

  /** `strip().upper()`. */
  function Normalize(s: string): (r: string)
    ensures |r| <= |s|
    ensures r == [] <==> Text.IsBlank(s)
    ensures r == [] || (!Text.IsSpace(r[0]) && !Text.IsSpace(r[|r| - 1]))
    ensures forall i :: 0 <= i < |r| ==> !('a' <= r[i] <= 'z')
  {
    var t := Text.Strip(s);
    Text.UpperShape(t);
    Text.Upper(t)
  }

  /** `Currency[name]`: the member with that name, if any. */
  function ByName(name: string, members: seq<Currency>): (r: Option<Currency>)
    ensures r.Some? ==> r.value in members && r.value.Name() == name
    ensures r.None? ==> forall c :: c in members ==> c.Name() != name
  {
    if members == [] then None
    else if members[0].Name() == name then Some(members[0])
    else ByName(name, members[1..])
  }

  /** `", ".join(c.code for c in cls)`. */
  function CodeList(members: seq<Currency>): seq<string> {
    if members == [] then [] else [members[0].Code()] + CodeList(members[1..])
  }

  /** The text listing the supported codes, as `from_string` builds it. */
  function Supported(): (r: string)
    ensures r == "AUD, KRW, USD"
  {
    var codes := CodeList(Members);
    assert codes == ["AUD", "KRW", "USD"] by {
      assert Members[1..] == [KRW, USD] && Members[1..][1..] == [USD];
    }
    assert Text.Join(codes[1..][1..], ", ") == "USD" by {
      assert codes[1..][1..] == ["USD"];
    }
    assert Text.Join(codes[1..], ", ") == "KRW, USD" by {
      assert codes[1..] == ["KRW", "USD"];
    }
    Text.Join(codes, ", ")
  }

  /** The one lookup `from_string` makes succeeds exactly for the three codes. */
  lemma ByNameMembers(name: string)
    ensures ByName(name, Members).Some? <==> name in {"AUD", "KRW", "USD"}
    ensures ByName(name, Members).Some? ==> ByName(name, Members).value.Code() == name
  {
    assert Members[1..] == [KRW, USD] && Members[1..][1..] == [USD];
  }

  /** `from_string`: the member named by the normalised text, or a ParseError
      naming the normalised text and listing the codes in declaration order. */
  function FromString(s: string): (r: Result<Currency, Error>)
    ensures r.Ok? <==> Normalize(s) in {"AUD", "KRW", "USD"}
    ensures r.Ok? ==> r.value.Code() == Normalize(s)
    ensures r.Err? ==>
      r.error == DomainParseError("Unsupported currency: " + Normalize(s) + ". Supported: " + "AUD, KRW, USD")
  {
    var name := Normalize(s);
    ByNameMembers(name);
    match ByName(name, Members)
    case Some(c) => Ok(c)
    case None => Err(DomainParseError("Unsupported currency: " + name + ". Supported: " + Supported()))
  }

  /** Every member's name is its code, which is why looking up a code finds
      the member it came from. */
  lemma NameIsCode(c: Currency)
    ensures c.Name() == c.Code() == c.ToString()
  {
  }

  /** Normalising twice is normalising once. */
  lemma NormalizeIdempotent(s: string)
    ensures Normalize(Normalize(s)) == Normalize(s)
  {
    var u := Text.Upper(Text.Strip(s));
    if u != [] {
      Text.UpperKeepsSpaces(Text.Strip(s)[0]);
      Text.UpperKeepsSpaces(Text.Strip(s)[|u| - 1]);
    }
    Text.StripUnchanged(u);
    Text.UpperIdempotent(Text.Strip(s));
  }

  /** Any text whose normalised form is a member's code parses to that member. */
  lemma FromNormalizedCode(s: string, c: Currency)
    requires Normalize(s) == c.Code()
    ensures FromString(s) == Ok(c)
  {
    var r := FromString(s);
    assert r.Ok? && r.value.Code() == c.Code();
    CodeInjective(r.value, c);
  }

  /** Different members have different codes. */
  lemma CodeInjective(a: Currency, b: Currency)
    requires a.Code() == b.Code()
    ensures a == b
  {
  }

  /** Round trip: the code of a member parses back to that member. */
  lemma FromCode(c: Currency)
    ensures FromString(c.Code()) == Ok(c)
  {
    CodeIsNormal(c);
    FromNormalizedCode(c.Code(), c);
  }

  lemma CodeIsNormal(c: Currency)
    ensures Normalize(c.Code()) == c.Code()
  {
    Text.StripUnchanged(c.Code());
    assert Text.Upper(c.Code()) == c.Code();
  }

  /** Surrounding whitespace and letter case do not matter: the text and its
      normalised form parse alike. */
  lemma FromStringNormalized(s: string)
    ensures FromString(Normalize(s)) == FromString(s)
  {
    NormalizeIdempotent(s);
  }

  /** Concrete input of the parser's tests: padding and lower case. */
  lemma FromStringPadded()
    ensures FromString(" usd ") == Ok(USD)
  {
    PaddedUsd(" usd ");
  }

  lemma PaddedUsd(s: string)
    requires s == " usd "
    ensures FromString(s) == Ok(USD)
  {
    PaddedUsdNormalizes(s);
    FromNormalizedCode(s, USD);
  }

  lemma PaddedUsdNormalizes(s: string)
    requires s == " usd "
    ensures Normalize(s) == "USD"
  {
    var core := "usd";
    assert s == " " + core + " ";
    Text.StripPadded(core);
    UpperUsd(core);
  }

  lemma UpperUsd(u: string)
    requires u == "usd"
    ensures Text.Upper(u) == "USD"
  {
    assert Text.UpperChar('u') == 'U' && Text.UpperChar('s') == 'S' && Text.UpperChar('d') == 'D';
  }

  /** Concrete input of the parser's tests: an unsupported code. */
  lemma FromStringUnsupported()
    ensures FromString("GBP") == Err(DomainParseError("Unsupported currency: " + "GBP" + ". Supported: " + "AUD, KRW, USD"))
  {
    Text.StripUnchanged("GBP");
    assert Text.Upper("GBP") == "GBP";
  }
}
