/** The plain number formatters (src/cur/utils/formatters/number_formatter.py):
    fixed-point text with two decimals, with or without thousands separators,
    the K/M/B abbreviation with one decimal, and the trailing-zero trimmer all
    three pass their text through. Numbers are exact reals; `format` rounds
    them half to even at the last decimal shown. */
module NumberFormatter {
  import opened Wrappers
  import opened Errors
  import Text
  import opened Numbers

  // ---------------------------------------------------------------------------
  // `_remove_trailing_zeros`
  // ---------------------------------------------------------------------------

  /** The suffixes in the order the trimmer looks for them. */
  const Suffixes: seq<char> := ['K', 'M', 'B']

  /** The first of K, M, B that occurs in the text, if any. */
  function FirstSuffix(s: string): (r: Option<char>)
    ensures r.Some? ==> r.value in Suffixes && r.value in s
    ensures r.None? <==> forall x :: x in Suffixes ==> x !in s
    ensures r == Some('M') ==> 'K' !in s
    ensures r == Some('B') ==> 'K' !in s && 'M' !in s
  {
    if 'K' in s then Some('K')
    else if 'M' in s then Some('M')
    else if 'B' in s then Some('B')
    else None
  }

  /** `s.rstrip("0").rstrip(".")`. */
  function Trim(s: string): (r: string)
    ensures |r| <= |s| && r == s[..|r|]
    ensures r == [] || r[|r| - 1] != '.'
    ensures forall i :: |r| <= i < |s| ==> s[i] == '0' || s[i] == '.'
    ensures exists j :: TrimmedAt(s, r, j)
  {
    var t := Text.RStrip(s, '0');
    var r := Text.RStrip(t, '.');
    assert TrimmedAt(s, r, |t|) by {
      forall i | |r| <= i < |t|
        ensures s[i] == '.'
      {
        assert s[i] == t[i];
      }
    }
    r
  }

  /** The whole run of zeros ending `s` starts at `j`, and `r` is what is left
      once the dots just before that run are dropped too. */
  predicate TrimmedAt(s: string, r: string, j: int) {
    && |r| <= j <= |s|
    && (forall i :: |r| <= i < j ==> s[i] == '.')
    && (forall i :: j <= i < |s| ==> s[i] == '0')
    && (j == 0 || s[j - 1] != '0')
  }

  /** The exception of `num_part, _ = formatted.split(suffix)` when the suffix
      occurs more than once. */
  const TooManyValues: Error := ValueError("too many values to unpack (expected 2)")

  /** `_remove_trailing_zeros`: text without '.' is returned as it is.
      Otherwise the first suffix the text contains splits it; the part before
      the suffix is trimmed and the suffix put back, and whatever followed the
      suffix is dropped. A text without suffix is trimmed as a whole. */
  function RemoveTrailingZeros(s: string): (r: Result<string, Error>)
    ensures '.' !in s ==> r == Ok(s)
    ensures r.Err? <==> '.' in s && FirstSuffix(s).Some? && Text.Count(s, FirstSuffix(s).value) > 1
    ensures r.Err? ==> r.error == TooManyValues
    ensures '.' in s && FirstSuffix(s).None? ==> r == Ok(Trim(s))
    ensures r.Ok? && '.' in s && FirstSuffix(s).Some? ==>
      var x := FirstSuffix(s).value;
      r.value == Trim(s[..Text.IndexOf(s, x)]) + [x]
  {
    if '.' !in s then Ok(s)
    else
      match FirstSuffix(s)
      case None => Ok(Trim(s))
      case Some(x) =>
        if Text.Count(s, x) > 1 then Err(TooManyValues)
        else Ok(Trim(s[..Text.IndexOf(s, x)]) + [x])
  }

  /** Trimmed number text: it does not end in '.', and a text with a '.'
      does not end in '0'. */
  predicate Trimmed(t: string) {
    && (t == [] || t[|t| - 1] != '.')
    && ('.' in t ==> t[|t| - 1] != '0')
  }

  /** The number part of an output: the text before the suffix it ends in, if any. */
  function NumberPart(t: string): string {
    if t != [] && t[|t| - 1] in Suffixes then t[..|t| - 1] else t
  }

  // Stripping a character from the end of a concatenation only reaches into the first part once the second is used up.
  lemma {:induction false} RStripAppend(a: string, b: string, c: char)
    ensures Text.RStrip(b, c) != [] ==> Text.RStrip(a + b, c) == a + Text.RStrip(b, c)
    ensures Text.RStrip(b, c) == [] ==> Text.RStrip(a + b, c) == Text.RStrip(a, c)
    decreases |b|
  {
    if b == [] {
      assert a + b == a;
    } else if b[|b| - 1] == c {
      var init := b[..|b| - 1];
      assert (a + b)[..|a + b| - 1] == a + init;
      RStripAppend(a, init, c);
    }
  }

  // Occurrences split at any index.
  lemma CountSplit(s: string, k: nat, c: char)
    requires k <= |s|
    ensures Text.Count(s, c) == Text.Count(s[..k], c) + Text.Count(s[k..], c)
  {
    assert s == s[..k] + s[k..];
    Text.CountAppend(s[..k], s[k..], c);
  }

  // Text made of one character counts its length.
  lemma {:induction false} CountAll(s: string, c: char)
    requires forall i :: 0 <= i < |s| ==> s[i] == c
    ensures Text.Count(s, c) == |s|
  {
    if s != [] {
      CountAll(s[1..], c);
    }
  }

  /** With at most one '.', trimming leaves trimmed text: only the one '.'
      could be stripped after the zeros, and then no '.' is left. */
  lemma TrimCanonical(t: string)
    requires Text.Count(t, '.') <= 1
    ensures Trimmed(Trim(t))
  {
    var v := Text.RStrip(t, '0');
    var u := Text.RStrip(v, '.');
    if '.' in u {
      CountSplit(t, |v|, '.');
      CountSplit(v, |u|, '.');
      CountAll(v[|u|..], '.');
      assert Text.Count(u, '.') >= 1;
      assert |u| == |v|;
    }
  }

  /** Trimmed text with a '.' is left alone by the trim. */
  lemma TrimTrimmed(t: string)
    requires Trimmed(t) && '.' in t
    ensures Trim(t) == t
  {
  }

  /** Trimming text with one '.' keeps everything before the '.': only
      zeros and then the '.' itself are removed from the end. */
  lemma TrimKeepsWhole(s: string)
    requires Text.Count(s, '.') == 1
    ensures var d := Text.IndexOf(s, '.');
      && d <= |Trim(s)|
      && Trim(s)[..d] == s[..d]
      && (|Trim(s)| == d ==> forall i :: d < i < |s| ==> s[i] == '0')
  {
    var d := Text.IndexOf(s, '.');
    var v := Text.RStrip(s, '0');
    var u := Text.RStrip(v, '.');
    assert |v| > d;
    assert forall i :: 0 <= i < d ==> s[i] != '.' by {
      assert forall i :: 0 <= i < d ==> s[..d][i] == s[i];
    }
    assert |u| >= d by {
      if d > 0 {
        assert v[d - 1] == s[d - 1];
      }
    }
    if |u| == d {
      OnlyDotStripped(s, v, d);
    }
  }

  /** When the trim reaches the one '.', the zeros stripped first end right after it. */
  lemma OnlyDotStripped(s: string, v: string, d: nat)
    requires Text.Count(s, '.') == 1 && d < |s| && s[d] == '.'
    requires v == Text.RStrip(s, '0') && d < |v|
    requires forall i :: d <= i < |v| ==> v[i] == '.'
    ensures |v| == d + 1
  {
    var w := s[..d + 1];
    CountSplit(s, d + 1, '.');
    CountSplit(w, d, '.');
    assert w[..d] == s[..d];
    assert w[d..] == ['.'];
    assert Text.Count(w[d..], '.') == 1;
    CountSplit(v, d, '.');
    CountAll(v[d..], '.');
    CountPrefix(s, |v|, '.');
    assert v[..d] == s[..d];
  }

  /** A prefix has no more occurrences of a character than the whole text. */
  lemma CountPrefix(s: string, k: nat, c: char)
    requires k <= |s|
    ensures Text.Count(s[..k], c) <= Text.Count(s, c)
  {
    CountSplit(s, k, c);
  }

  /** On text with at most one '.' (what `format` produces), a successful trim
      yields trimmed number text, before the suffix when there is one. */
  lemma RemoveTrailingZerosTrims(s: string)
    requires Text.Count(s, '.') <= 1 && '.' in s
    requires RemoveTrailingZeros(s).Ok?
    ensures Trimmed(NumberPart(RemoveTrailingZeros(s).value))
  {
    match FirstSuffix(s)
    case None =>
      TrimCanonical(s);
      NoSuffixNumberPart(s, Trim(s));
    case Some(x) =>
      var head := s[..Text.IndexOf(s, x)];
      CountPrefix(s, |head|, '.');
      TrimCanonical(head);
      SuffixNumberPart(Trim(head), x);
  }

  /** A prefix of text without suffixes is all number part. */
  lemma NoSuffixNumberPart(s: string, t: string)
    requires FirstSuffix(s).None? && |t| <= |s| && t == s[..|t|]
    ensures NumberPart(t) == t
  {
    if t != [] {
      assert t[|t| - 1] == s[|t| - 1];
    }
  }

  /** The number part of text followed by a suffix is the text. */
  lemma SuffixNumberPart(t: string, x: char)
    requires x in Suffixes
    ensures NumberPart(t + [x]) == t
  {
    assert (t + [x])[..|t|] == t;
  }

  /** `_remove_trailing_zeros` is idempotent on text with at most one '.'. */
  lemma RemoveTrailingZerosIdempotent(s: string)
    requires Text.Count(s, '.') <= 1
    requires RemoveTrailingZeros(s).Ok?
    ensures RemoveTrailingZeros(RemoveTrailingZeros(s).value) == RemoveTrailingZeros(s)
  {
    if '.' in s {
      match FirstSuffix(s)
      case None =>
        var t := Trim(s);
        if '.' in t {
          TrimCanonical(s);
          TrimTrimmed(t);
          assert forall x :: x in t ==> x in s by {
            assert forall i :: 0 <= i < |t| ==> t[i] == s[i];
          }
          assert FirstSuffix(t).None?;
        }
      case Some(x) =>
        IdempotentWithSuffix(s, x);
    }
  }

  // Step of the idempotence proof: a suffixed number trims to a stable text.
  lemma IdempotentWithSuffix(s: string, x: char)
    requires Text.Count(s, '.') <= 1 && '.' in s
    requires FirstSuffix(s) == Some(x) && Text.Count(s, x) == 1
    ensures var r := Trim(s[..Text.IndexOf(s, x)]) + [x];
      RemoveTrailingZeros(r) == Ok(r)
  {
    var i := Text.IndexOf(s, x);
    var t := Trim(s[..i]);
    if '.' in t {
      DottedPrefixStable(s, x, i, t);
    } else {
      UndottedStable(t, x);
    }
  }

  // Step of the idempotence proof: a number without a dot, then a suffix, is left alone.
  lemma UndottedStable(t: string, x: char)
    requires '.' !in t && x != '.'
    ensures RemoveTrailingZeros(t + [x]) == Ok(t + [x])
  {
    assert forall c :: c in t + [x] ==> c in t || c == x;
  }

  // Step of the idempotence proof: a trimmed dotted number, then its suffix, is left alone.
  lemma DottedPrefixStable(s: string, x: char, i: nat, t: string)
    requires Text.Count(s, '.') <= 1 && FirstSuffix(s) == Some(x)
    requires x in s && i == Text.IndexOf(s, x) && t == Trim(s[..i]) && '.' in t
    ensures RemoveTrailingZeros(t + [x]) == Ok(t + [x])
  {
    var head := s[..i];
    PrefixOfPrefix(s, i, t);
    SuffixesOfPrefix(s, t, x);
    CountPrefix(s, i, '.');
    TrimCanonical(head);
    TrimTrimmed(t);
    TrimmedBeforeSuffix(t, x);
  }

  /** The trimmed text before index `i` is a prefix of `s` itself. */
  lemma PrefixOfPrefix(s: string, i: nat, t: string)
    requires i <= |s| && t == Trim(s[..i])
    ensures |t| <= i && t == s[..|t|]
  {
    var head := s[..i];
    assert |t| <= |head| && t == head[..|t|];
  }

  /** Trimmed text with a '.' and a first suffix put after it is left as it is. */
  lemma TrimmedBeforeSuffix(t: string, x: char)
    requires '.' in t && x !in t && FirstSuffix(t + [x]) == Some(x) && Trim(t) == t
    ensures RemoveTrailingZeros(t + [x]) == Ok(t + [x])
  {
    var r := t + [x];
    LastSuffix(t, x);
    assert '.' in r by {
      assert forall c :: c in t ==> c in r;
    }
  }

  /** A suffix put after text without it occurs once, at the end. */
  lemma LastSuffix(t: string, x: char)
    requires x !in t
    ensures Text.Count(t + [x], x) == 1 && Text.IndexOf(t + [x], x) == |t| && (t + [x])[..|t|] == t
  {
    Text.CountAppend(t, [x], x);
  }

  /** The trimmed part before the first suffix, with that suffix put back,
      has the same first suffix. */
  lemma SuffixesOfPrefix(s: string, t: string, x: char)
    requires FirstSuffix(s) == Some(x) && x in s
    requires |t| <= Text.IndexOf(s, x) && t == s[..|t|]
    ensures FirstSuffix(t + [x]) == Some(x) && x !in t
  {
    PrefixBeforeIndex(s, t, x);
    var r := t + [x];
    assert x in r by {
      assert r[|t|] == x;
    }
    if x == 'M' {
      assert 'K' !in r;
    } else if x == 'B' {
      assert 'K' !in r && 'M' !in r;
    }
  }

  /** A prefix that stops at or before the first `x` holds only characters of
      `s` other than `x`. */
  lemma PrefixBeforeIndex(s: string, t: string, x: char)
    requires x in s && |t| <= Text.IndexOf(s, x) && t == s[..|t|]
    ensures forall y :: y in t ==> y in s && y != x
  {
    var i := Text.IndexOf(s, x);
    forall y | y in t
      ensures y in s && y != x
    {
      var j :| 0 <= j < |t| && t[j] == y;
      assert s[..i][j] == y;
    }
  }

  /** The example of the source's docstring: "1.50M" gives "1.5M". */
  lemma TrimsBeforeSuffix()
    ensures RemoveTrailingZeros("1.50M") == Ok("1.5M")
  {
    TrimsBeforeSuffixAt("1.50M");
  }

  // Proof step for TrimsBeforeSuffix, the literal passed as a parameter to keep the proof small.
  lemma TrimsBeforeSuffixAt(s: string)
    requires s == "1.50M"
    ensures RemoveTrailingZeros(s) == Ok("1.5M")
  {
    var num: string := "1.50";
    assert s == num + "M";
    assert 'K' !in s;
    assert FirstSuffix(s) == Some('M');
    assert 'M' !in num;
    Text.CountAppend(num, "M", 'M');
    assert Text.Count(num, 'M') == 0 && Text.Count("M", 'M') == 1;
    assert Text.IndexOf(s, 'M') == 4;
    assert s[..4] == num;
    assert Text.RStrip(num, '0') == "1.5";
    assert Trim(num) == "1.5";
    assert "1.5" + "M" == "1.5M";
  }

  /** The example of the source's docstring: "1,385,000.00" gives "1,385,000". */
  lemma TrimsWithoutSuffix()
    ensures RemoveTrailingZeros("1,385,000.00") == Ok("1,385,000")
  {
    TrimsWithoutSuffixAt("1,385,000.00");
  }

  // Proof step for TrimsWithoutSuffix, the literal passed as a parameter to keep the proof small.
  lemma TrimsWithoutSuffixAt(s: string)
    requires s == "1,385,000.00"
    ensures RemoveTrailingZeros(s) == Ok("1,385,000")
  {
    var head: string := "1,385,000";
    var zeros: string := "00";
    SplitsAtDot(s, head, zeros);
    TrimDecimal(head, zeros);
    assert TrimFraction(zeros) == "" by {
      assert zeros == [Text.DigitChar(0), Text.DigitChar(0)];
      ZerosTrimmed();
    }
    assert head + "" == head;
  }

  // Proof step for TrimsWithoutSuffixAt: where the literal's dot is.
  lemma SplitsAtDot(s: string, head: string, zeros: string)
    requires s == "1,385,000.00" && head == "1,385,000" && zeros == "00"
    ensures s == head + "." + zeros && '.' !in head && '.' !in zeros
    ensures '.' in s && FirstSuffix(s).None?
  {
    assert s[9] == '.';
  }

  // ---------------------------------------------------------------------------
  // Fixed-point text
  // ---------------------------------------------------------------------------

  function Abs(x: real): (a: real)
    ensures a >= 0.0 && (a == x || a == -x)
  {
    if x < 0.0 then -x else x
  }

  /** A number rounded at one or two decimals: its sign, the integer part of
      its magnitude, and exactly that many fraction digits. */
  datatype Fixed = Fixed(negative: bool, whole: nat, fraction: string)

  /** What `f"{x:.1f}"` and `f"{x:.2f}"` show: the magnitude rounded half to
      even at that many decimals, split into integer part and fraction
      digits, and the sign of `x` (shown even when the magnitude rounds to 0). */
  function Round(x: real, places: nat): (f: Fixed)
    requires places == 1 || places == 2
    ensures |f.fraction| == places && Text.AllDigits(f.fraction)
    ensures f.negative <==> x < 0.0
    ensures places == 1 ==>
      && Text.ValueOf(f.fraction) < 10
      && f.whole * 10 + Text.ValueOf(f.fraction) == RoundHalfEven(Abs(x) * 10.0)
    ensures places == 2 ==>
      && Text.ValueOf(f.fraction) < 100
      && f.whole * 100 + Text.ValueOf(f.fraction) == RoundHalfEven(Abs(x) * 100.0)
  {
    if places == 1 then
      var n := RoundHalfEven(Abs(x) * 10.0);
      assert n >= 0;
      var fraction := [Text.DigitChar(n % 10)];
      assert fraction[..0] == [];
      Fixed(x < 0.0, n / 10, fraction)
    else
      var n := RoundHalfEven(Abs(x) * 100.0);
      assert n >= 0;
      var cents := n % 100;
      var fraction := [Text.DigitChar(cents / 10), Text.DigitChar(cents % 10)];
      var tens := [fraction[0]];
      assert Text.ValueOf(tens) == cents / 10 by {
        assert tens[..0] == [];
      }
      assert fraction[..1] == tens;
      assert Text.ValueOf(fraction) == cents / 10 * 10 + cents % 10;
      Fixed(x < 0.0, n / 100, fraction)
  }

  function Sign(f: Fixed): string {
    if f.negative then "-" else ""
  }

  /** The integer part, with or without thousands separators. */
  function WholeText(whole: nat, grouped: bool): (r: string)
    ensures |r| > 0 && '.' !in r
    ensures forall i :: 0 <= i < |r| ==> Text.IsDigit(r[i]) || r[i] == ','
  {
    if grouped then Text.Commas(whole) else Text.Digits(whole)
  }

  /** `format`'s text of a rounded number: sign, integer part, '.', fraction. */
  function Render(f: Fixed, grouped: bool): string {
    Sign(f) + WholeText(f.whole, grouped) + "." + f.fraction
  }

  /** The fraction digits as the trimmer leaves them: its trailing zeros
      removed, and the '.' too when nothing is left. */
  function TrimFraction(fraction: string): (r: string)
    ensures |r| <= |fraction| + 1
    ensures r == [] || (|r| >= 2 && r[0] == '.' && r[|r| - 1] != '0' && r[1..] == fraction[..|r| - 1])
  {
    var t := Text.RStrip(fraction, '0');
    if t == [] then "" else "." + t
  }

  /** The text the formatters return for a rounded number. */
  function Shown(f: Fixed, grouped: bool): string {
    Sign(f) + WholeText(f.whole, grouped) + TrimFraction(f.fraction)
  }

  /** Trimming `head.fraction` when neither part has a '.'. */
  lemma TrimDecimal(head: string, fraction: string)
    requires '.' !in head && '.' !in fraction
    ensures Trim(head + "." + fraction) == head + TrimFraction(fraction)
  {
    var t := Text.RStrip(fraction, '0');
    var dotted := head + ".";
    assert head + "." + fraction == dotted + fraction;
    RStripAppend(dotted, fraction, '0');
    if t != [] {
      assert t[|t| - 1] == fraction[|t| - 1];
      assert dotted + t == head + ("." + t);
    } else {
      assert Text.RStrip(dotted, '0') == dotted;
      assert dotted[..|dotted| - 1] == head;
      assert head == [] || head[|head| - 1] in head;
    }
  }

  /** Text made only of digits, separators, a sign and '.'. */
  predicate NumberChars(s: string) {
    forall i :: 0 <= i < |s| ==> Text.IsDigit(s[i]) || s[i] == ',' || s[i] == '-' || s[i] == '.'
  }

  // A rendered fixed-point number has only number characters, a dot, and no suffix letter.
  lemma RenderChars(f: Fixed, grouped: bool)
    requires Text.AllDigits(f.fraction)
    ensures NumberChars(Render(f, grouped)) && '.' in Render(f, grouped)
    ensures FirstSuffix(Render(f, grouped)).None?
    ensures Text.Count(Render(f, grouped), '.') == 1
  {
    var head := Sign(f) + WholeText(f.whole, grouped);
    assert Render(f, grouped) == head + "." + f.fraction;
    assert NumberChars(head);
    RenderSplit(head, f.fraction);
  }

  /** A head without '.', then '.', then digits. */
  lemma RenderSplit(head: string, fraction: string)
    requires Text.AllDigits(fraction) && NumberChars(head) && '.' !in head
    ensures NumberChars(head + "." + fraction) && '.' in head + "." + fraction
    ensures FirstSuffix(head + "." + fraction).None?
    ensures Text.Count(head + "." + fraction, '.') == 1
  {
    var s := head + "." + fraction;
    assert s[|head|] == '.';
    assert '.' !in fraction by {
      assert forall i :: 0 <= i < |fraction| ==> Text.IsDigit(fraction[i]);
    }
    assert Text.Count(head, '.') == 0 && Text.Count(fraction, '.') == 0;
    Text.CountAppend(head, ".", '.');
    Text.CountAppend(head + ".", fraction, '.');
  }

  /** The trimmer turns `format`'s text into `Shown`. */
  lemma RenderTrimmed(f: Fixed, grouped: bool)
    requires Text.AllDigits(f.fraction)
    ensures RemoveTrailingZeros(Render(f, grouped)) == Ok(Shown(f, grouped))
  {
    RenderChars(f, grouped);
    assert '.' !in f.fraction by {
      assert forall i :: 0 <= i < |f.fraction| ==> Text.IsDigit(f.fraction[i]);
    }
    TrimDecimal(Sign(f) + WholeText(f.whole, grouped), f.fraction);
  }

  /** The trimmer turns `format`'s text followed by a suffix into `Shown`
      followed by that suffix. */
  lemma RenderSuffixTrimmed(f: Fixed, x: char)
    requires Text.AllDigits(f.fraction) && x in Suffixes
    ensures RemoveTrailingZeros(Render(f, false) + [x]) == Ok(Shown(f, false) + [x])
  {
    var s := Render(f, false);
    var sx := s + [x];
    RenderChars(f, false);
    assert x !in s;
    assert FirstSuffix(sx) == Some(x);
    Text.CountAppend(s, [x], x);
    assert Text.IndexOf(sx, x) == |s|;
    assert sx[..|s|] == s;
    RenderTrimmed(f, false);
  }

  /** The shown text of a rounded number is trimmed and has no suffix. */
  lemma ShownTrimmed(f: Fixed, grouped: bool)
    requires Text.AllDigits(f.fraction)
    ensures Trimmed(Shown(f, grouped))
    ensures Shown(f, grouped) != [] && Shown(f, grouped)[|Shown(f, grouped)| - 1] !in Suffixes
  {
    var head := Sign(f) + WholeText(f.whole, grouped);
    var t := TrimFraction(f.fraction);
    assert Shown(f, grouped) == head + t;
    assert '.' !in head;
    if t != [] {
      assert t[|t| - 1] == f.fraction[|t| - 2];
    }
  }

  // ---------------------------------------------------------------------------
  // The formatters
  // ---------------------------------------------------------------------------

  /** `format_with_commas`: two decimals with thousands separators, trimmed. */
  function FormatWithCommas(x: real): (r: string)
    ensures r == Shown(Round(x, 2), true)
    ensures Trimmed(r)
  {
    var f := Round(x, 2);
    RenderTrimmed(f, true);
    ShownTrimmed(f, true);
    RemoveTrailingZeros(Render(f, true)).value
  }

  /** `format_plain`: two decimals without separators, trimmed. */
  function FormatPlain(x: real): (r: string)
    ensures r == Shown(Round(x, 2), false)
    ensures Trimmed(r)
  {
    var f := Round(x, 2);
    RenderTrimmed(f, false);
    ShownTrimmed(f, false);
    RemoveTrailingZeros(Render(f, false)).value
  }

  /** Deleting the separators of `format_with_commas` gives `format_plain`. */
  lemma CommasDeletedIsPlain(x: real)
    ensures Text.Delete(FormatWithCommas(x), ',') == FormatPlain(x)
  {
    var f := Round(x, 2);
    var sign, t := Sign(f), TrimFraction(f.fraction);
    assert ',' !in sign;
    assert ',' !in t by {
      if t != [] {
        var u := Text.RStrip(f.fraction, '0');
        assert forall i :: 0 <= i < |u| ==> u[i] == f.fraction[i];
        assert forall i :: 0 <= i < |t| ==> t[i] == '.' || Text.IsDigit(t[i]);
      }
    }
    Text.CommasWithoutCommas(f.whole);
    Text.DeleteAppend(sign, Text.Commas(f.whole), ',');
    Text.DeleteAppend(sign + Text.Commas(f.whole), t, ',');
  }

  const Thousand: real := 1_000.0
  const Million: real := 1_000_000.0
  const Billion: real := 1_000_000_000.0

  /** The suffix `format_short` picks: B from 10^9, M from 10^6, K from 10^3,
      and none below. */
  function ShortSuffix(x: real): (r: Option<char>)
    ensures r.Some? ==> r.value in Suffixes
    ensures r.None? <==> x < Thousand
    ensures r.Some? ==> SuffixScale(r.value) <= x && (r.value == 'B' || x < 1000.0 * SuffixScale(r.value))
  {
    if x >= Billion then Some('B')
    else if x >= Million then Some('M')
    else if x >= Thousand then Some('K')
    else None
  }

  /** The power of ten a suffix stands for. */
  function SuffixScale(x: char): (v: real)
    ensures v >= Thousand
  {
    if x == 'B' then Billion else if x == 'M' then Million else Thousand
  }

  /** A suffixed number: one decimal of the quotient, trimmed, and the suffix. */
  function Abbreviate(x: real, suffix: char): (r: string)
    requires suffix in Suffixes
    ensures r == Shown(Round(x / SuffixScale(suffix), 1), false) + [suffix]
    ensures Trimmed(r[..|r| - 1])
  {
    var f := Round(x / SuffixScale(suffix), 1);
    RenderSuffixTrimmed(f, suffix);
    ShownTrimmed(f, false);
    var r := RemoveTrailingZeros(Render(f, false) + [suffix]).value;
    assert r[..|r| - 1] == Shown(f, false);
    r
  }

  /** `format_short`: the number divided by the suffix's power of ten with
      one decimal and the suffix, or two decimals without suffix below 1000;
      trimmed either way. */
  function FormatShort(x: real): (r: string)
    ensures ShortSuffix(x).Some? ==> r == Abbreviate(x, ShortSuffix(x).value)
    ensures ShortSuffix(x).None? ==> r == FormatPlain(x)
  {
    match ShortSuffix(x)
    case Some(suffix) =>
      var f := Round(x / SuffixScale(suffix), 1);
      RenderSuffixTrimmed(f, suffix);
      RemoveTrailingZeros(Render(f, false) + [suffix]).value
    case None =>
      var f := Round(x, 2);
      RenderTrimmed(f, false);
      RemoveTrailingZeros(Render(f, false)).value
  }

  /** The text of `format_short` ends in B exactly from 10^9, in M exactly
      from 10^6 below 10^9, in K exactly from 10^3 below 10^6, and otherwise
      in a digit. */
  lemma ShortSuffixByThreshold(x: real)
    ensures var r := FormatShort(x);
      && r != []
      && (r[|r| - 1] == 'B' <==> x >= Billion)
      && (r[|r| - 1] == 'M' <==> Million <= x < Billion)
      && (r[|r| - 1] == 'K' <==> Thousand <= x < Million)
      && (r[|r| - 1] !in Suffixes <==> x < Thousand)
  {
    if x < Thousand {
      ShownTrimmed(Round(x, 2), false);
    }
  }

  /** The shown text of a nonnegative number rounded at one decimal to `n` tenths. */
  lemma ShownTenths(y: real, n: nat)
    requires y >= 0.0 && RoundHalfEven(y * 10.0) == n
    ensures Shown(Round(y, 1), false) == Text.Digits(n / 10) + TenthText(n % 10)
  {
    var f := Round(y, 1);
    assert f.fraction == [Text.DigitChar(n % 10)];
    assert Text.RStrip(f.fraction, '0') == (if n % 10 == 0 then [] else f.fraction) by {
      assert f.fraction[..0] == [];
    }
  }

  /** The shown text of a nonnegative number rounded at two decimals to `n` hundredths. */
  lemma ShownHundredths(y: real, n: nat, grouped: bool)
    requires y >= 0.0 && RoundHalfEven(y * 100.0) == n
    ensures var f := Round(y, 2);
      && f == Fixed(false, n / 100, [Text.DigitChar(n % 100 / 10), Text.DigitChar(n % 100 % 10)])
      && Shown(f, grouped) == WholeText(n / 100, grouped) + TrimFraction(f.fraction)
  {
  }

  // ---------------------------------------------------------------------------
  // Examples from the tests
  // ---------------------------------------------------------------------------

  /** The tenths digit as shown: nothing for 0, otherwise '.' and the digit. */
  function TenthText(d: nat): string
    requires d < 10
  {
    if d == 0 then "" else "." + [Text.DigitChar(d)]
  }

  /** `format_short` of a number with a suffix whose quotient rounds to `n` tenths. */
  lemma ShortAt(x: real, suffix: char, n: nat)
    requires ShortSuffix(x) == Some(suffix) && Tenths(x / SuffixScale(suffix)) == n
    ensures FormatShort(x) == Text.Digits(n / 10) + TenthText(n % 10) + [suffix]
  {
    QuotientNonnegative(x, suffix);
    AbbreviateTenths(x, suffix, x / SuffixScale(suffix), n);
  }

  /** The abbreviation of a nonnegative number whose quotient rounds to `n` tenths. */
  lemma AbbreviateTenths(x: real, suffix: char, y: real, n: nat)
    requires suffix in Suffixes && y == x / SuffixScale(suffix)
    requires y >= 0.0 && RoundHalfEven(y * 10.0) == n
    ensures Abbreviate(x, suffix) == Text.Digits(n / 10) + TenthText(n % 10) + [suffix]
  {
    ShownTenths(y, n);
  }

  // A nonnegative amount gives a nonnegative quotient for every suffix.
  lemma QuotientNonnegative(x: real, suffix: char)
    requires x >= 0.0
    ensures x / SuffixScale(suffix) >= 0.0
  {
    if suffix == 'B' {
      assert x / SuffixScale(suffix) == x / Billion;
    } else if suffix == 'M' {
      assert x / SuffixScale(suffix) == x / Million;
    } else {
      assert x / SuffixScale(suffix) == x / Thousand;
    }
  }

  // `format_short(1234000)` (tests/unit/test_number_formatter.py:45).
  lemma ShortMillions()
    ensures FormatShort(1_234_000.0) == "1.2M"
  {
    ShortExample(1_234_000.0, 'M', 12);
    Tenth(1, 2);
  }

  // `format_short(1260000)` (tests/unit/test_number_formatter.py:46).
  lemma ShortMillionsUp()
    ensures FormatShort(1_260_000.0) == "1.3M"
  {
    ShortExample(1_260_000.0, 'M', 13);
    Tenth(1, 3);
  }

  // `format_short(1000000)` (tests/unit/test_number_formatter.py:44).
  lemma ShortOneMillion()
    ensures FormatShort(1_000_000.0) == "1M"
  {
    ShortExample(1_000_000.0, 'M', 10);
    assert Text.Digits(1) == "1";
  }

  /** The text of `n` tenths when the tenths digit is not zero. */
  lemma Tenth(whole: nat, d: nat)
    requires whole < 10 && 0 < d < 10
    ensures Text.Digits((whole * 10 + d) / 10) + TenthText((whole * 10 + d) % 10) ==
      [Text.DigitChar(whole), '.', Text.DigitChar(d)]
  {
    assert (whole * 10 + d) / 10 == whole && (whole * 10 + d) % 10 == d;
  }

  // Proof step for the suffixed test vectors: the text once the rounded tenths `n` are known.
  lemma ShortExample(x: real, suffix: char, n: nat)
    requires ShortSuffix(x) == Some(suffix)
    requires x / SuffixScale(suffix) * 10.0 - 0.5 < n as real < x / SuffixScale(suffix) * 10.0 + 0.5
    ensures FormatShort(x) == Text.Digits(n / 10) + TenthText(n % 10) + [suffix]
  {
    RoundHalfEvenUnique(x / SuffixScale(suffix) * 10.0, n);
    ShortAt(x, suffix, n);
  }

  // `format_short(1000000000)` (tests/unit/test_number_formatter.py:43).
  lemma ShortBillion()
    ensures FormatShort(1_000_000_000.0) == "1B"
  {
    ShortExample(1_000_000_000.0, 'B', 10);
    assert Text.Digits(1) == "1";
  }

  // `format_short(1234)` (tests/unit/test_number_formatter.py:47).
  lemma ShortThousands()
    ensures FormatShort(1234.0) == "1.2K"
  {
    ShortExample(1234.0, 'K', 12);
    Tenth(1, 2);
  }

  // `format_short(1234.5678)` (tests/unit/test_number_formatter.py:48).
  lemma ShortThousandsFraction()
    ensures FormatShort(1234.5678) == "1.2K"
  {
    ShortExample(1234.5678, 'K', 12);
    Tenth(1, 2);
  }

  // `format_short(1452.67)` (tests/unit/test_number_formatter.py:49).
  lemma ShortThousandsUp()
    ensures FormatShort(1452.67) == "1.5K"
  {
    ShortExample(1452.67, 'K', 15);
    Tenth(1, 5);
  }

  /** `format_plain`/`format_with_commas` of a nonnegative number that rounds to
      `n` hundredths. */
  lemma PlainAt(x: real, n: nat, grouped: bool)
    requires x >= 0.0 && x * 100.0 - 0.5 < n as real < x * 100.0 + 0.5
    ensures var cents := n % 100;
      var fraction := [Text.DigitChar(cents / 10), Text.DigitChar(cents % 10)];
      (if grouped then FormatWithCommas(x) else FormatPlain(x)) ==
        WholeText(n / 100, grouped) + TrimFraction(fraction)
  {
    RoundHalfEvenUnique(x * 100.0, n);
    ShownHundredths(x, n, grouped);
  }

  // `format_short(100)` (tests/unit/test_number_formatter.py:50).
  lemma ShortHundred()
    ensures FormatShort(100.0) == "100"
  {
    ShortPlainAt(100.0, 10000);
    HundredText();
  }

  // Proof step for ShortHundred: the text of 100.00, trimmed.
  lemma HundredText()
    ensures Text.Digits(10000 / 100) + TrimFraction([Text.DigitChar(10000 % 100 / 10), Text.DigitChar(10000 % 100 % 10)]) == "100"
  {
    Digits100();
    ZerosTrimmed();
  }

  // Proof step for the unsuffixed test vector: the text once the rounded hundredths `n` are known.
  lemma ShortPlainAt(x: real, n: nat)
    requires 0.0 <= x < Thousand && x * 100.0 - 0.5 < n as real < x * 100.0 + 0.5
    ensures FormatShort(x) == Text.Digits(n / 100) +
      TrimFraction([Text.DigitChar(n % 100 / 10), Text.DigitChar(n % 100 % 10)])
  {
    assert ShortSuffix(x).None?;
    RoundHalfEvenUnique(x * 100.0, n);
    ShownHundredths(x, n, false);
  }

  // Proof step: the digits of 100.
  lemma Digits100()
    ensures Text.Digits(100) == "100"
  {
    assert Text.Digits(10) == "10";
  }

  // Proof step: a fraction of two zeros trims away entirely.
  lemma ZerosTrimmed()
    ensures TrimFraction([Text.DigitChar(0), Text.DigitChar(0)]) == ""
  {
    var zeros := [Text.DigitChar(0), Text.DigitChar(0)];
    assert zeros[..1] == "0";
  }

  /** `format_with_commas` of a nonnegative number that rounds to the given
      integer part and hundredths digits. */
  lemma CommasAt(x: real, whole: nat, a: nat, b: nat)
    requires a < 10 && b < 10
    requires x >= 0.0 && x * 100.0 - 0.5 < (whole * 100 + a * 10 + b) as real < x * 100.0 + 0.5
    ensures FormatWithCommas(x) == Text.Commas(whole) + TrimFraction([Text.DigitChar(a), Text.DigitChar(b)])
  {
    var n := whole * 100 + a * 10 + b;
    RoundHalfEvenUnique(x * 100.0, n);
    assert n / 100 == whole && n % 100 == a * 10 + b;
    assert n % 100 / 10 == a && n % 100 % 10 == b;
    ShownHundredths(x, n, true);
  }

  // `format_with_commas(1000000)` (tests/unit/test_number_formatter.py:13).
  lemma CommasMillionExample()
    ensures FormatWithCommas(1_000_000.0) == "1,000,000"
  {
    CommasAt(1_000_000.0, 1_000_000, 0, 0);
    ZerosTrimmed();
    CommasMillion();
  }

  // `format_with_commas(1234.5678)` (tests/unit/test_number_formatter.py:15).
  lemma CommasRounded()
    ensures FormatWithCommas(1234.5678) == "1,234.57"
  {
    CommasAt(1234.5678, 1234, 5, 7);
    CommasText(1234, 5, 7, "1,234.57");
  }

  // `format_with_commas(1452.67)` (tests/unit/test_number_formatter.py:14).
  lemma CommasCents()
    ensures FormatWithCommas(1452.67) == "1,452.67"
  {
    CommasAt(1452.67, 1452, 6, 7);
    CommasText(1452, 6, 7, "1,452.67");
  }

  // `format_with_commas(1234)` (tests/unit/test_number_formatter.py:16).
  lemma CommasWhole()
    ensures FormatWithCommas(1234.0) == "1,234"
  {
    CommasAt(1234.0, 1234, 0, 0);
    ZerosTrimmed();
    Commas1234();
  }

  /** The text `CommasAt` describes, for the examples above. */
  lemma CommasText(whole: nat, a: nat, b: nat, text: string)
    requires (whole, a, b, text) == (1234, 5, 7, "1,234.57") || (whole, a, b, text) == (1452, 6, 7, "1,452.67")
    ensures Text.Commas(whole) + TrimFraction([Text.DigitChar(a), Text.DigitChar(b)]) == text
  {
    CommasFraction(a, b);
    if whole == 1234 {
      Commas1234();
      assert [Text.DigitChar(a), Text.DigitChar(b)] == "57";
    } else {
      Commas1452();
      assert [Text.DigitChar(a), Text.DigitChar(b)] == "67";
    }
  }

  // Proof step: 1452 with thousands separators.
  lemma Commas1452()
    ensures Text.Commas(1452) == "1,452"
  {
    assert Text.Pad3(452) == "452";
    assert Text.Commas(1452) == "1" + "," + "452";
  }

  // Proof step: a fraction whose last digit is nonzero is kept whole.
  lemma CommasFraction(a: nat, b: nat)
    requires a < 10 && 0 < b < 10
    ensures TrimFraction([Text.DigitChar(a), Text.DigitChar(b)]) == "." + [Text.DigitChar(a), Text.DigitChar(b)]
  {
  }

  // Proof step: 1000000 with thousands separators.
  lemma CommasMillion()
    ensures Text.Commas(1_000_000) == "1,000,000"
  {
    assert Text.Pad3(0) == "000";
    assert Text.Commas(1000) == "1,000" by {
      assert Text.Commas(1) == "1";
    }
    assert Text.Commas(1_000_000) == "1,000" + "," + "000";
  }

  // Proof step: 1234 with thousands separators.
  lemma Commas1234()
    ensures Text.Commas(1234) == "1,234"
  {
    assert Text.Pad3(234) == "234";
    assert Text.Commas(1234) == "1" + "," + "234";
  }

  // ---------------------------------------------------------------------------
  // The suffix is chosen before rounding
  // ---------------------------------------------------------------------------

  /** As written, 999999 is at least 1000 and below 10^6, so it is written in
      thousands; 999.999 rounds to 1000.0 at one decimal and the text is
      "1000K" where the next suffix would read "1M". */
  lemma ThousandKAsWritten()
    ensures FormatShort(999_999.0) == "1000K"
  {
    ShortExample(999_999.0, 'K', 10000);
    ThousandKText();
  }

  // Proof step for ThousandKAsWritten: the text of 1000.0 with the K suffix, trimmed.
  lemma ThousandKText()
    ensures Text.Digits(10000 / 10) + TenthText(10000 % 10) + ['K'] == "1000K"
  {
    Digits1000();
  }

  // Proof step: the digits of 1000.
  lemma Digits1000()
    ensures Text.Digits(1000) == "1000"
  {
    Digits100();
  }

  /** `round(y, 1)` in tenths. */
  function Tenths(y: real): int {
    RoundHalfEven(y * 10.0)
  }

  /** The suffix chosen after rounding: a quotient that would show as 1000.0
      takes the next suffix instead. */
  function CarriedSuffix(x: real): (r: Option<char>)
    ensures r.Some? ==> r.value in Suffixes
    ensures r == Some('B') <==> x >= Billion || Tenths(x / Million) >= 10_000
    ensures r.None? <==> x < Thousand
  {
    if x >= Billion || Tenths(x / Million) >= 10_000 then Some('B')
    else if x >= Million || Tenths(x / Thousand) >= 10_000 then Some('M')
    else if x >= Thousand then Some('K')
    else None
  }

  /** `format_short` with the suffix chosen after rounding. */
  function FormatShortCarried(x: real): (r: string)
    ensures CarriedSuffix(x).Some? ==> r == Abbreviate(x, CarriedSuffix(x).value)
    ensures CarriedSuffix(x).None? ==> r == FormatPlain(x)
  {
    match CarriedSuffix(x)
    case Some(suffix) => Abbreviate(x, suffix)
    case None => FormatPlain(x)
  }

  /** With the carry, a K or M quotient always shows below 1000. */
  lemma CarriedBelowThousand(x: real)
    requires CarriedSuffix(x) == Some('K') || CarriedSuffix(x) == Some('M')
    ensures Round(x / SuffixScale(CarriedSuffix(x).value), 1).whole < 1000
  {
    if CarriedSuffix(x) == Some('K') {
      assert Tenths(x / Thousand) < 10_000;
      ShowsBelowThousand(x / Thousand);
    } else {
      assert Tenths(x / Million) < 10_000;
      ShowsBelowThousand(x / Million);
    }
  }

  /** A positive quotient whose tenths stay below 10^4 shows below 1000. */
  lemma ShowsBelowThousand(y: real)
    requires y > 0.0 && Tenths(y) < 10_000
    ensures Round(y, 1).whole < 1000
  {
    var f := Round(y, 1);
    assert Abs(y) == y;
    assert f.whole * 10 + Text.ValueOf(f.fraction) == RoundHalfEven(y * 10.0);
  }

  /** The carry changes nothing where the written quotient shows below 1000:
      the two agree on every number below 10^3, from 10^9, and wherever the
      K or M quotient rounds below 1000. */
  lemma CarriedAgrees(x: real)
    requires ShortSuffix(x).Some? && ShortSuffix(x).value != 'B' ==>
      Round(x / SuffixScale(ShortSuffix(x).value), 1).whole < 1000
    ensures FormatShortCarried(x) == FormatShort(x)
  {
    if x >= Billion {
      assert CarriedSuffix(x) == ShortSuffix(x);
    } else if x >= Million {
      assert ShortSuffix(x) == Some('M');
      TenthsBelowThousand(x / Million);
      assert CarriedSuffix(x) == ShortSuffix(x);
    } else if x >= Thousand {
      assert ShortSuffix(x) == Some('K');
      TenthsBelowThousand(x / Thousand);
      SmallTenths(x / Million);
      assert CarriedSuffix(x) == ShortSuffix(x);
    } else {
      SmallTenths(x / Million);
      SmallTenths(x / Thousand);
      assert CarriedSuffix(x) == ShortSuffix(x);
    }
  }

  /** The converse of `ShowsBelowThousand`. */
  lemma TenthsBelowThousand(y: real)
    requires y > 0.0 && Round(y, 1).whole < 1000
    ensures Tenths(y) < 10_000
  {
    var f := Round(y, 1);
    assert Abs(y) == y;
    assert f.whole * 10 + Text.ValueOf(f.fraction) == RoundHalfEven(y * 10.0);
  }

  // Proof step: below 1, the rounded tenths are small.
  lemma SmallTenths(y: real)
    requires y < 1.0
    ensures Tenths(y) < 10_000
  {
  }

  /** With the carry, 999999 reads "1M". */
  lemma ThousandKCarried()
    ensures FormatShortCarried(999_999.0) == "1M"
  {
    ShortCarriedAt(999_999.0);
  }

  // Proof step for ThousandKCarried, the literal passed as a parameter to keep the proof small.
  lemma ShortCarriedAt(x: real)
    requires x == 999_999.0
    ensures FormatShortCarried(x) == "1M"
  {
    RoundHalfEvenUnique(x / Million * 10.0, 10);
    RoundHalfEvenUnique(x / Thousand * 10.0, 10000);
    assert CarriedSuffix(x) == Some('M');
    CarriedAt(x, 'M', 10);
    OneTenthsText('M', "1M");
  }

  /** `FormatShortCarried` of a number whose carried quotient rounds to `n` tenths. */
  lemma CarriedAt(x: real, suffix: char, n: nat)
    requires CarriedSuffix(x) == Some(suffix) && Tenths(x / SuffixScale(suffix)) == n
    ensures FormatShortCarried(x) == Text.Digits(n / 10) + TenthText(n % 10) + [suffix]
  {
    QuotientNonnegative(x, suffix);
    AbbreviateTenths(x, suffix, x / SuffixScale(suffix), n);
  }

  // Proof step: ten tenths read as "1", then the suffix.
  lemma OneTenthsText(suffix: char, text: string)
    requires text == ['1', suffix]
    ensures Text.Digits(10 / 10) + TenthText(10 % 10) + [suffix] == text
  {
    assert Text.Digits(1) == "1";
  }
}
