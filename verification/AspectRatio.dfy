// The aspect-ratio setting: read from a name, a W:H pair or a decimal, kept as
// an exact integer pair, and written back as text.

module AspectRatio {
  import opened Wrappers
  import opened ProfileText

  datatype Ratio = Auto | Wide | Standard | Stretch | Custom(width: int, height: int)

  const SIDE_MAX := 9999

  predicate IsDigit(c: char) { '0' <= c <= '9' }

  predicate AllDigits(s: string) { forall i :: 0 <= i < |s| ==> IsDigit(s[i]) }

  function Number(s: string): nat
    requires AllDigits(s)
  {
    if s == "" then 0 else Number(s[..|s| - 1]) * 10 + ((s[|s| - 1] as int) - ('0' as int))
  }

  function Digits(n: nat): (s: string)
    ensures s != "" && AllDigits(s) && Number(s) == n
  {
    var last := [((n % 10) + ('0' as int)) as char];
    if n < 10 then
      assert last[..0] == "";
      last
    else
      var s := Digits(n / 10) + last;
      assert s[..|s| - 1] == Digits(n / 10);
      s
  }

  function Pow10(n: nat): (r: nat)
    ensures r >= 1
  {
    if n == 0 then 1 else 10 * Pow10(n - 1)
  }

  // One side of a pair.
  function ParseSide(s: string): Option<int> {
    if s != "" && AllDigits(s) && 1 <= Number(s) <= SIDE_MAX then Some(Number(s)) else None
  }

  function Pair(w: Option<int>, h: Option<int>): Option<Ratio> {
    if w.Some? && h.Some? then Some(Custom(w.value, h.value)) else None
  }

  // Digits after the decimal point.
  function Fraction(s: string): nat { if Find(s, '.') < |s| then |s| - Find(s, '.') - 1 else 0 }

  function ParseDecimal(s: string): Option<Ratio> {
    var dot := Find(s, '.');
    var whole := s[..dot];
    var fraction := if dot < |s| then s[dot + 1..] else "";
    if dot < |s| && (Find(fraction, '.') < |fraction| || fraction == "" || |fraction| > 6) then None
    else if whole == "" || |whole| > 7 || !AllDigits(whole) || !AllDigits(fraction) then None
    else
      var scale := Pow10(|fraction|);
      var w := Number(whole) * scale + Number(fraction);
      if w > 0 then Some(Custom(w, scale)) else None
  }

  // The widescreen window, 4:3 to 32:9, as exact rationals.
  predicate InWindow(w: int, h: int) { w * 3 >= h * 4 && w * 9 <= h * 32 }

  function Lower(s: string): (r: string)
    ensures |r| == |s| && forall i :: 0 <= i < |s| ==> r[i] == ToLower(s[i])
  {
    seq(|s|, i requires 0 <= i < |s| => ToLower(s[i]))
  }

  function Named(s: string): Option<Ratio> {
    if s == "auto" then Some(Auto)
    else if s == "wide" || s == "16:9" || s == "16x9" then Some(Wide)
    else if s == "standard" || s == "4:3" || s == "4x3" then Some(Standard)
    else if s == "stretch" || s == "window" then Some(Stretch)
    else None
  }

  // The text without its "custom" word.
  function Body(s: string): string {
    if "custom " <= s || "custom\t" <= s then Trim(s[6..]) else s
  }

  function ParseCustom(s: string): Option<Ratio> {
    if s == "" then None else
      var colon := Find(s, ':');
      var r := if colon < |s| then Pair(ParseSide(s[..colon]), ParseSide(s[colon + 1..])) else ParseDecimal(s);
      if r.Some? && r.value.Custom? && InWindow(r.value.width, r.value.height) then r else None
  }

  function Parse(raw: string): Option<Ratio> {
    var s := Lower(Trim(raw));
    if Named(s).Some? then Named(s) else ParseCustom(Body(s))
  }

  // Empty for a pair no reader would take.
  function ToString(r: Ratio): string {
    match r
    case Auto => "auto"
    case Wide => "16:9"
    case Standard => "4:3"
    case Stretch => "stretch"
    case Custom(w, h) =>
      if w <= 0 || h <= 0 || !InWindow(w, h) then "" else "custom " + Digits(w) + ":" + Digits(h)
  }

  lemma TrimKeeps(s: string)
    requires s == "" || (!IsSpace(s[0]) && !IsSpace(s[|s| - 1]))
    ensures Trim(s) == s
  {}

  lemma TrimSpace(s: string)
    requires s != "" && !IsSpace(s[0]) && !IsSpace(s[|s| - 1])
    ensures Trim(" " + s) == s
  {
    assert (" " + s)[1..] == s;
    assert TrimLeft(" " + s) == TrimLeft(s) == s;
  }

  lemma {:induction false} FindAfterDigits(a: string, c: char, b: string)
    requires AllDigits(a) && !IsDigit(c)
    ensures Find(a + [c] + b, c) == |a|
  {
    if a == "" {
      assert ([c] + b)[0] == c && a + [c] + b == [c] + b;
    } else {
      assert (a + [c] + b)[1..] == a[1..] + [c] + b;
      FindAfterDigits(a[1..], c, b);
    }
  }

  // Characters of a pair or a decimal.
  predicate Numeric(s: string) { s != "" && forall i :: 0 <= i < |s| ==> IsDigit(s[i]) || s[i] in {':', '.'} }

  lemma NumericIsPlain(s: string)
    requires Numeric(s)
    ensures Trim(s) == s && Lower(s) == s && Body(s) == s
  {
    TrimKeeps(s);
  }

  lemma NotNamed(s: string)
    requires s != "" && (s[0] == 'c' || '.' in s)
    ensures Named(s) == None
  {}

  lemma CustomIsPlain(text: string)
    requires Numeric(text)
    ensures var s := "custom " + text;
      s[0] == 'c' && Trim(s) == s && Lower(s) == s
  {
    var word := "custom ";
    var s := word + text;
    assert s[0] == 'c' && s[|s| - 1] == text[|text| - 1];
    TrimKeeps(s);
    hide Trim;
    forall i | 0 <= i < |s| ensures ToLower(s[i]) == s[i] {
      if i < 7 { assert s[i] == word[i]; } else { assert s[i] == text[i - 7]; }
    }
    assert Lower(s) == s;
  }

  lemma CustomBody(text: string)
    requires Numeric(text)
    ensures Body("custom " + text) == text
  {
    var word := "custom ";
    var s := word + text;
    assert s[6..] == " " + text && s[..7] == word;
    TrimSpace(text);
    hide Trim;
  }

  lemma CustomText(text: string)
    requires Numeric(text)
    ensures Parse("custom " + text) == ParseCustom(text)
  {
    hide Trim;
    hide Lower;
    hide Named;
    hide Body;
    hide ParseCustom;
    CustomIsPlain(text);
    CustomBody(text);
    NotNamed("custom " + text);
  }

  lemma PairReads(w: nat, h: nat)
    requires w > 0 && h > 0 && InWindow(w, h)
    ensures Parse(ToString(Custom(w, h))) == if w <= SIDE_MAX && h <= SIDE_MAX then Some(Custom(w, h)) else None
  {
    var a, b := Digits(w), Digits(h);
    var text := a + ":" + b;
    assert ToString(Custom(w, h)) == "custom " + text;
    CustomText(text);
    FindAfterDigits(a, ':', b);
    assert text[..|a|] == a && text[|a| + 1..] == b;
  }

  // A ratio the writer prints is read back as itself, exactly when neither
  // side has five digits; with one that has, the text is refused.
  lemma WrittenRatioReadsBackIff(r: Ratio)
    requires ToString(r) != ""
    ensures Parse(ToString(r)) == Some(r) <==> r.Custom? ==> r.width <= SIDE_MAX && r.height <= SIDE_MAX
    ensures Parse(ToString(r)) != Some(r) ==> Parse(ToString(r)) == None
  {
    if r.Custom? {
      WritableSides(r);
      hide *;
      PairReads(r.width, r.height);
    } else {
      NameReadsBack(r);
    }
  }

  lemma WritableSides(r: Ratio)
    requires r.Custom? && ToString(r) != ""
    ensures r.width > 0 && r.height > 0 && InWindow(r.width, r.height)
  {}

  lemma NameReadsBack(r: Ratio)
    requires !r.Custom?
    ensures Parse(ToString(r)) == Some(r)
  {
    var s := ToString(r);
    TrimKeeps(s);
    assert Lower(s) == s;
    hide Trim;
    hide Lower;
  }

  lemma FindNone(s: string, c: char)
    requires c !in s
    ensures Find(s, c) == |s|
  {}

  lemma Pow10Sizes(n: nat)
    ensures n <= 3 ==> Pow10(n) <= 1000
    ensures n >= 4 ==> Pow10(n) >= 10000
  {
    assert Pow10(0) == 1 && Pow10(1) == 10 && Pow10(2) == 100 && Pow10(3) == 1000 && Pow10(4) == 10000;
    if n > 4 { Pow10Grows(4, n); }
  }

  lemma {:induction false} Pow10Grows(m: nat, n: nat)
    requires m <= n
    ensures Pow10(m) <= Pow10(n)
  {
    if m < n { Pow10Grows(m, n - 1); }
  }

  lemma DecimalSides(s: string)
    requires ParseDecimal(s).Some?
    ensures ParseDecimal(s).value.Custom? && ParseDecimal(s).value.height == Pow10(Fraction(s))
  {}

  lemma CustomSides(s: string)
    requires ParseCustom(s).Some?
    ensures ParseCustom(s).value.Custom?
    ensures var r := ParseCustom(s).value;
            && InWindow(r.width, r.height) && r.width > 0 && r.height > 0
            && (r.width <= SIDE_MAX && r.height <= SIDE_MAX <==> Fraction(s) <= 3)
  {
    var colon := Find(s, ':');
    if colon < |s| {
      assert '.' !in s[..colon] && '.' !in s[colon + 1..];
      assert s == s[..colon] + [':'] + s[colon + 1..];
      FindNone(s, '.');
    } else {
      DecimalSides(s);
      Pow10Sizes(Fraction(s));
    }
  }

  // A setting that was read and is then saved can be read again exactly when
  // it was not a decimal of four or more fraction digits.
  lemma SavedRatioReloadsIff(raw: string)
    requires Parse(raw).Some?
    ensures var r := Parse(raw).value;
            && ToString(r) != ""
            && (Parse(ToString(r)) == Some(r) <==> Fraction(Body(Lower(Trim(raw)))) <= 3)
  {
    var s := Lower(Trim(raw));
    if Named(s).Some? {
      assert s[0] != 'c' && Body(s) == s;
      assert '.' !in s;
      FindNone(s, '.');
    } else {
      CustomSides(Body(s));
    }
    WrittenRatioReadsBackIff(Parse(raw).value);
  }

  lemma DecimalValue(s: string, fraction: string)
    requires Find(s, '.') == 1 && |s| > 1 && s[..1] == "2" && s[2..] == fraction
    requires fraction != "" && AllDigits(fraction) && |fraction| <= 6
    ensures ParseDecimal(s) == Some(Custom(2 * Pow10(|fraction|) + Number(fraction), Pow10(|fraction|)))
  {
    hide Find;
    FindNone(fraction, '.');
    assert "2"[..0] == "" && Number("2") == 2;
    hide Number;
    hide Pow10;
  }

  lemma DecimalReads(s: string, w: int, h: int)
    requires ParseDecimal(s) == Some(Custom(w, h)) && Numeric(s) && '.' in s && ':' !in s
    ensures Parse(s) == if InWindow(w, h) then Some(Custom(w, h)) else None
  {
    hide ParseDecimal;
    hide Trim;
    hide Lower;
    hide Body;
    hide Named;
    NumericIsPlain(s);
    NotNamed(s);
    FindNone(s, ':');
  }

  lemma DecimalShape(s: string, fraction: string)
    requires s == "2." + fraction && fraction != "" && AllDigits(fraction)
    ensures Find(s, '.') == 1 && |s| > 1 && s[..1] == "2" && s[2..] == fraction
    ensures Numeric(s) && '.' in s && ':' !in s
  {
    FindAfterDigits("2", '.', fraction);
    assert "2" + ['.'] + fraction == s && s[1] == '.';
  }

  lemma DecimalFate(s: string, fraction: string, w: int, h: int)
    requires s == "2." + fraction && fraction != "" && AllDigits(fraction) && |fraction| <= 6
    requires h == Pow10(|fraction|) && w == 2 * h + Number(fraction) && InWindow(w, h)
    ensures Parse(s) == Some(Custom(w, h))
    ensures Parse(ToString(Custom(w, h))) == if w <= SIDE_MAX && h <= SIDE_MAX then Some(Custom(w, h)) else None
  {
    hide *;
    DecimalShape(s, fraction);
    DecimalValue(s, fraction);
    DecimalReads(s, w, h);
    PairReads(w, h);
  }

  lemma Numbers()
    ensures Number("37") == 37 && Number("3700") == 3700 && Pow10(2) == 100 && Pow10(4) == 10000
  {
    assert "3"[..0] == "" && "37"[..1] == "3" && "370"[..2] == "37" && "3700"[..3] == "370";
    assert Number("3") == 3;
    assert Number("37") == 37;
    assert Number("370") == 370;
    assert Pow10(0) == 1 && Pow10(1) == 10 && Pow10(3) == 1000;
  }

  // 2.37 survives a save, 2.3700 does not, though both are one ratio.
  lemma FourFractionDigitsAreLost(short: string, long: string)
    requires short == "2.37" && long == "2.3700"
    ensures Parse(short) == Some(Custom(237, 100)) && Parse(long) == Some(Custom(23700, 10000))
    ensures forall r :: Parse(short) == Some(r) ==> Parse(ToString(r)) == Some(r)
    ensures forall r :: Parse(long) == Some(r) ==> Parse(ToString(r)) == None
  {
    hide Parse;
    hide ToString;
    hide Number;
    hide Pow10;
    Numbers();
    DecimalFate(short, "37", 237, 100);
    DecimalFate(long, "3700", 23700, 10000);
  }
}
