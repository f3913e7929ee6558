/** The live formatting of an amount field: every keystroke hands the whole
    field text to the change handler, which either leaves the field as it
    was (the text is not a number being typed) or replaces it with the
    normalised, grouped, Persian-numeral rendering of the number typed. */
module AmountInput {
  import opened Text
  import opened Numerals
  import opened Decimal

  /** The delocalised text matches /^[0-9,.]*$/. */
  predicate AllAsciiNumerals(e: string) {
    forall i :: 0 <= i < |e| ==> IsAsciiNumeral(e[i])
  }

  /** The delocalised text passes both checks of the handler: at most one
      decimal point, and no character outside [0-9,.]. */
  predicate Acceptable(e: string) {
    Occurrences(e, '.') <= 1 && AllAsciiNumerals(e)
  }

  /** A comma-free number being typed: digits and at most one point. */
  predicate IsPlainNumber(v: string) {
    Occurrences(v, '.') <= 1 && forall i :: 0 <= i < |v| ==> IsDigit(v[i]) || v[i] == '.'
  }

  /** What the user may type: either script's digits, points and commas. */
  predicate IsInputChar(c: char) {
    IsAsciiNumeral(c) || IsPersianNumeral(c)
  }

  /** The characters String.prototype.trim removes: white space and line
      terminators. */
  predicate IsTrimmable(c: char) {
    c == '\t' || c == '\n' || c == '\U{000B}' || c == '\U{000C}' || c == '\r' ||
    c == ' ' || c == '\U{00A0}' || c == '\U{1680}' || '\U{2000}' <= c <= '\U{200A}' ||
    c == '\U{2028}' || c == '\U{2029}' || c == '\U{202F}' || c == '\U{205F}' ||
    c == '\U{3000}' || c == '\U{FEFF}'
  }

  /** s.trim() === '' */
  predicate IsBlank(s: string) {
    forall i :: 0 <= i < |s| ==> IsTrimmable(s[i])
  }

  /** The text after the integer part: nothing when no point was typed, else
      the point and the digits typed after it, unchanged. */
  function PointSuffix(fraction: Option<string>): string {
    match fraction
    case None => ""
    case Some(f) => "." + f
  }

  /** The first element of v.split('.'). */
  function IntegerPart(v: string): (ip: string)
    requires IsPlainNumber(v)
    ensures IsDigits(ip)
  {
    var parts := Split(v, '.');
    PiecesAreDigits(v, 0);
    parts[0]
  }

  /** The second element of v.split('.'), undefined (None) without a point. */
  function FractionPart(v: string): (f: Option<string>)
    requires IsPlainNumber(v)
    ensures f.Some? <==> '.' in v
    ensures f.Some? ==> IsDigits(f.value)
  {
    var parts := Split(v, '.');
    OccurrencesPositive(v, '.');
    if |parts| > 1 then
      PiecesAreDigits(v, 1);
      Some(parts[1])
    else None
  }

  /** The ASCII rendering of a typed number: the integer part as BigInt
      renders it, grouped by thousands, then the fraction as typed. */
  function Render(integerPart: string, fraction: Option<string>): string
    requires IsDigits(integerPart)
  {
    Grouped(CanonicalInteger(integerPart)) + PointSuffix(fraction)
  }

  /** The field value after a change event with text raw, when the field
      held prev: the specification of AmountField.OnChange. */
  function Format(prev: string, raw: string): string
  {
    var e := ToEnglish(raw);
    if !Acceptable(e) then prev
    else
      var v := StripCommas(e);
      if v == [] then []
      else
        StripCommasPlain(e);
        ToPersian(Render(IntegerPart(v), FractionPart(v)))
  }

  /** One amount input of the widget: the text it shows, replaced wholesale
      by each change event. */
  class AmountField {
    var display: string

    /** The field only ever holds text the handler would show again. */
    ghost predicate Valid()
      reads this
    {
      Stable(display)
    }

    /** useState(''): a field starts empty. */
    constructor ()
      ensures display == [] && Valid()
    {
      display := [];
      FormatOfEmpty([]);
    }

    /** handleInputChange with the setter of this field. */
    method OnChange(value: string)
      requires Valid()
      modifies this
      ensures display == Format(old(display), value)
      ensures Valid()
    {
      FormatKeepsStable(display, value);
      var englishValue := ToEnglish(value);
      if |Split(englishValue, '.')| > 2 {
        return;
      }
      if englishValue != [] && !AllAsciiNumerals(englishValue) {
        return;
      }
      var valueWithoutCommas := StripCommas(englishValue);
      if IsBlank(valueWithoutCommas) {
        BlankPath(display, value);
        display := [];
        return;
      }
      NumberPath(display, value);
      if valueWithoutCommas == "." {
        LonePointRender();
        display := ToPersian("0.");
        return;
      }
      var finalValue := FormatTypedNumber(valueWithoutCommas);
      display := ToPersian(finalValue);
    }
  }

  /** The body of the handler's try block: split at the point, render the
      integer part through BigInt with en-US grouping, append the fraction
      as typed, and force "0." when the integer part is empty. */
  method FormatTypedNumber(valueWithoutCommas: string) returns (finalValue: string)
    requires IsPlainNumber(valueWithoutCommas) && valueWithoutCommas != []
    ensures finalValue == Render(IntegerPart(valueWithoutCommas), FractionPart(valueWithoutCommas))
  {
    var parts := Split(valueWithoutCommas, '.');
    var integerPart := parts[0];
    var decimalPart := if |parts| > 1 then Some(parts[1]) else None;
    TypedNumberParts(valueWithoutCommas, integerPart, decimalPart);
    var parsed := ParseBigInt(if integerPart == [] then "0" else integerPart);
    if parsed.None? {
      // The catch branch: BigInt only ever sees digits, so it never throws.
      assert false;
    }
    var formattedInteger := GroupThousands(parsed.value);
    BigIntGrouping(integerPart);
    finalValue := formattedInteger;
    if decimalPart.Some? {
      finalValue := formattedInteger + "." + decimalPart.value;
      ConcatAssoc(formattedInteger, ".", decimalPart.value);
    }
    if integerPart == [] {
      finalValue := "0." + (match decimalPart case Some(f) => f case None => "");
      LeadingZeroPoint(decimalPart.value);
    }
  }

  // ----- facts the handler relies on -----

  /** Each piece of a plain number's split is a digit string, and there are
      at most two pieces. */
  lemma PiecesAreDigits(v: string, k: nat)
    requires IsPlainNumber(v)
    ensures |Split(v, '.')| <= 2
    ensures k < |Split(v, '.')| ==> IsDigits(Split(v, '.')[k])
  {
    var parts := Split(v, '.');
    if k < |parts| {
      forall j | 0 <= j < |parts[k]| ensures IsDigit(parts[k][j]) {
        var c := parts[k][j];
        SplitFrom(v, '.', k, c);
        var i :| 0 <= i < |v| && v[i] == c;
      }
    }
  }

  /** A plain number is its integer part followed by the point and the
      fraction, when one was typed. */
  lemma Decompose(v: string)
    requires IsPlainNumber(v)
    ensures v == IntegerPart(v) + PointSuffix(FractionPart(v))
  {
    JoinSplit(v, '.');
    PiecesAreDigits(v, 0);
    var parts := Split(v, '.');
    if |parts| == 2 {
      assert parts[1..] == [parts[1]];
      ConcatAssoc(parts[0], ".", parts[1]);
    }
  }

  /** Once the commas of an acceptable text are removed, a plain number is
      left. */
  lemma StripCommasPlain(e: string)
    requires Acceptable(e)
    ensures IsPlainNumber(StripCommas(e))
  {
    var v := StripCommas(e);
    StripCommasKeeps(e, '.');
    StripCommasFrom(e);
    forall i | 0 <= i < |v| ensures IsDigit(v[i]) || v[i] == '.' {
      var j :| 0 <= j < |e| && e[j] == v[i];
    }
  }

  /** The characters of a plain number are not white space, so it is blank
      only when it is empty. */
  lemma PlainBlankIsEmpty(v: string)
    ensures IsPlainNumber(v) ==> (IsBlank(v) <==> v == [])
  {
    if v != [] && IsPlainNumber(v) {
      assert !IsTrimmable(v[0]);
    }
  }

  /** An acceptable text that is blank once the commas are gone clears the
      field. */
  lemma BlankPath(prev: string, raw: string)
    requires Occurrences(ToEnglish(raw), '.') <= 1 && AllAsciiNumerals(ToEnglish(raw))
    requires IsBlank(StripCommas(ToEnglish(raw)))
    ensures Format(prev, raw) == []
  {
    StripCommasPlain(ToEnglish(raw));
    PlainBlankIsEmpty(StripCommas(ToEnglish(raw)));
  }

  /** An acceptable text that is not blank once the commas are gone is a
      plain number, rendered and localised. */
  lemma NumberPath(prev: string, raw: string)
    requires Occurrences(ToEnglish(raw), '.') <= 1 && AllAsciiNumerals(ToEnglish(raw))
    requires !IsBlank(StripCommas(ToEnglish(raw)))
    ensures IsPlainNumber(StripCommas(ToEnglish(raw)))
    ensures var v := StripCommas(ToEnglish(raw));
      Format(prev, raw) == ToPersian(Render(IntegerPart(v), FractionPart(v)))
  {
    StripCommasPlain(ToEnglish(raw));
  }

  /** What the split of a typed number gives, in terms of the specification:
      an empty integer part only ever comes with a fraction. */
  lemma TypedNumberParts(v: string, integerPart: string, decimalPart: Option<string>)
    requires IsPlainNumber(v) && v != []
    requires integerPart == Split(v, '.')[0]
    requires decimalPart == if |Split(v, '.')| > 1 then Some(Split(v, '.')[1]) else None
    ensures IsDigits(integerPart)
    ensures Render(IntegerPart(v), FractionPart(v)) == Grouped(CanonicalInteger(integerPart)) + PointSuffix(decimalPart)
    ensures integerPart == [] ==> decimalPart.Some?
  {
    assert integerPart == IntegerPart(v) && decimalPart == FractionPart(v);
    if integerPart == [] {
      EmptyIntegerPart(v);
    }
  }

  lemma LeadingZeroPoint(f: string)
    ensures "0." + f == "0" + PointSuffix(Some(f))
  {
    assert "0." == "0" + ".";
    ConcatAssoc("0", ".", f);
  }

  /** BigInt(integerPart || '0').toLocaleString('en-US') is the grouped
      canonical form of the integer part. */
  lemma BigIntGrouping(integerPart: string)
    requires IsDigits(integerPart)
    ensures var parsed := ParseBigInt(if integerPart == [] then "0" else integerPart);
      parsed.Some? && GroupThousands(parsed.value) == Grouped(CanonicalInteger(integerPart))
    ensures integerPart == [] ==> Grouped(CanonicalInteger(integerPart)) == "0"
  {
    CanonicalIntegerOfEmpty();
  }

  /** A solver hint: regrouping a concatenation, which the verifier finds
      costly to do on its own inside larger proofs. */
  lemma ConcatAssoc(a: string, b: string, c: string)
    ensures a + b + c == a + (b + c)
  {
  }

  /** BigInt('0') and BigInt('') both render as "0", a group of its own. */
  lemma CanonicalIntegerOfEmpty()
    ensures CanonicalInteger([]) == "0" && CanonicalInteger("0") == "0"
    ensures Grouped("0") == "0"
  {
    assert "0"[1..] == [];
  }

  /** The special case for a lone point gives what the general rendering
      gives. */
  lemma LonePointRender()
    ensures IsPlainNumber(".")
    ensures Render(IntegerPart("."), FractionPart(".")) == "0."
  {
    assert Split(".", '.') == [[], []] by {
      assert "."[1..] == [];
    }
    assert CanonicalInteger([]) == "0";
  }

  /** A non-empty plain number with an empty integer part starts with the
      point, so it has a fraction. */
  lemma EmptyIntegerPart(v: string)
    requires IsPlainNumber(v) && v != [] && IntegerPart(v) == []
    ensures FractionPart(v).Some?
    ensures CanonicalInteger(IntegerPart(v)) == "0"
  {
    JoinSplit(v, '.');
  }

  // ----- properties of the handler -----

  /** A delocalised character passes the character check exactly when it was
      typed as a digit, point or comma of either script. */
  lemma InputCharOf(c: char)
    ensures IsAsciiNumeral(EnglishOf(c)) <==> IsInputChar(c)
  {
  }

  /** The handler accepts exactly the texts made of both scripts' digits,
      points and commas, with at most one point of either script in all. */
  lemma AcceptsExactly(raw: string)
    ensures Acceptable(ToEnglish(raw)) <==>
      Occurrences(raw, '.') + Occurrences(raw, DecimalSeparator) <= 1 &&
      forall i :: 0 <= i < |raw| ==> IsInputChar(raw[i])
  {
    ToEnglishPoints(raw);
    forall i | 0 <= i < |raw| ensures IsAsciiNumeral(ToEnglish(raw)[i]) <==> IsInputChar(raw[i]) {
      InputCharOf(raw[i]);
    }
  }

  /** A second decimal point, in either script, is refused: the field keeps
      what it held. */
  lemma RejectsSecondPoint(prev: string, raw: string)
    requires Occurrences(raw, '.') + Occurrences(raw, DecimalSeparator) >= 2
    ensures Format(prev, raw) == prev
  {
    ToEnglishPoints(raw);
  }

  /** A character that is neither a digit, a point nor a comma of either
      script is refused: the field keeps what it held. */
  lemma RejectsForeignChar(prev: string, raw: string, i: nat)
    requires i < |raw| && !IsInputChar(raw[i])
    ensures Format(prev, raw) == prev
  {
    InputCharOf(raw[i]);
    assert !IsAsciiNumeral(ToEnglish(raw)[i]);
  }

  /** The digits of another script, here the Arabic-Indic one, are not
      converted, so they are refused. */
  lemma ArabicIndicDigitRejected(prev: string)
    ensures Format(prev, "\U{0661}") == prev
  {
    RejectsForeignChar(prev, "\U{0661}", 0);
  }

  /** An acceptable text clears the field exactly when it holds nothing but
      commas of either script (or nothing at all). */
  lemma ClearsExactly(prev: string, raw: string)
    requires Acceptable(ToEnglish(raw))
    ensures Format(prev, raw) == [] <==>
      forall i :: 0 <= i < |raw| ==> raw[i] == ',' || raw[i] == ThousandsSeparator
  {
    ClearsWhenNothingLeft(prev, raw);
    OnlyCommas(raw);
  }

  lemma ClearsWhenNothingLeft(prev: string, raw: string)
    requires Acceptable(ToEnglish(raw))
    ensures Format(prev, raw) == [] <==> StripCommas(ToEnglish(raw)) == []
  {
    if StripCommas(ToEnglish(raw)) == [] {
      FormatClears(prev, raw);
    } else {
      FormatNonEmpty(prev, raw);
    }
  }

  /** Nothing is left of a text once its commas are removed exactly when
      it holds commas of either script only. */
  lemma OnlyCommas(raw: string)
    ensures StripCommas(ToEnglish(raw)) == [] <==>
      forall i :: 0 <= i < |raw| ==> raw[i] == ',' || raw[i] == ThousandsSeparator
  {
    var e := ToEnglish(raw);
    if exists i :: 0 <= i < |raw| && raw[i] != ',' && raw[i] != ThousandsSeparator {
      var i :| 0 <= i < |raw| && raw[i] != ',' && raw[i] != ThousandsSeparator;
      PointsOf(raw[i]);
      StripCommasKeeps(e, e[i]);
      OccurrencesPositive(e, e[i]);
    } else {
      forall i | 0 <= i < |e| ensures e[i] == ',' {
        PointsOf(raw[i]);
      }
      StripCommasOnlyCommas(e);
    }
  }

  /** An acceptable text with nothing left once its commas are removed
      clears the field. */
  lemma FormatClears(prev: string, raw: string)
    requires Acceptable(ToEnglish(raw)) && StripCommas(ToEnglish(raw)) == []
    ensures Format(prev, raw) == []
  {
  }

  /** A text that keeps something once its commas are removed never
      clears the field. */
  lemma FormatNonEmpty(prev: string, raw: string)
    requires Acceptable(ToEnglish(raw)) && StripCommas(ToEnglish(raw)) != []
    ensures Format(prev, raw) != []
  {
    FormatAccepted(prev, raw);
    var v := StripCommas(ToEnglish(raw));
    RenderNonEmpty(IntegerPart(v), FractionPart(v));
  }

  /** A rendered number is never empty: its integer part has a digit. */
  lemma RenderNonEmpty(ip: string, f: Option<string>)
    requires IsDigits(ip)
    ensures Render(ip, f) != []
  {
    GroupedIsWellGrouped(CanonicalInteger(ip));
  }

  /** Two commas and nothing else are accepted and clear the field. */
  lemma DoubleCommaClears(prev: string)
    ensures Format(prev, ",,") == []
  {
    ToEnglishKeeps(",,");
    OnlyCommas(",,");
    FormatClears(prev, ",,");
  }

  /** Typing Persian numerals or their ASCII counterparts makes no
      difference. */
  lemma FormatDelocalises(prev: string, raw: string)
    ensures Format(prev, raw) == Format(prev, ToEnglish(raw))
  {
    ToEnglishIdempotent(raw);
  }

  /** Digits are neither points nor commas. */
  lemma DigitsHaveNoSeparators(s: string)
    requires IsDigits(s)
    ensures '.' !in s && ',' !in s
  {
    forall i | 0 <= i < |s| ensures s[i] != '.' && s[i] != ',' {
      assert IsDigit(s[i]);
    }
  }

  /** A number written as integer digits, then, optionally, a point and
      fraction digits, splits back into those two parts. */
  lemma SplitTyped(ip: string, f: Option<string>)
    requires IsDigits(ip) && (f.Some? ==> IsDigits(f.value))
    ensures IsPlainNumber(ip + PointSuffix(f))
    ensures IntegerPart(ip + PointSuffix(f)) == ip
    ensures FractionPart(ip + PointSuffix(f)) == f
  {
    DigitsHaveNoSeparators(ip);
    var v := ip + PointSuffix(f);
    match f
    case None =>
      assert v == ip;
      SplitWithoutSeparator(ip, '.');
    case Some(x) =>
      DigitsHaveNoSeparators(x);
      ConcatAssoc(ip, ".", x);
      SplitAfterPiece(ip, x, '.');
      SplitWithoutSeparator(x, '.');
      assert Split(v, '.') == [ip, x];
      forall i | 0 <= i < |v| ensures IsDigit(v[i]) || v[i] == '.' {
        if i < |ip| {
          assert v[i] == ip[i];
        } else if i > |ip| {
          assert v[i] == x[i - |ip| - 1];
        }
      }
  }

  /** An acceptable text that keeps something once its commas are removed
      is a plain number, rendered and localised. */
  lemma FormatAccepted(prev: string, raw: string)
    requires Acceptable(ToEnglish(raw)) && StripCommas(ToEnglish(raw)) != []
    ensures IsPlainNumber(StripCommas(ToEnglish(raw)))
    ensures var v := StripCommas(ToEnglish(raw));
      Format(prev, raw) == ToPersian(Render(IntegerPart(v), FractionPart(v)))
  {
    StripCommasPlain(ToEnglish(raw));
  }

  /** What the handler makes of a number typed in ASCII: the general
      rendering, localised. */
  lemma FormatTyped(prev: string, ip: string, f: Option<string>)
    requires IsDigits(ip) && (f.Some? ==> IsDigits(f.value)) && ip + PointSuffix(f) != []
    ensures Format(prev, ip + PointSuffix(f)) == ToPersian(Render(ip, f))
  {
    var v := ip + PointSuffix(f);
    SplitTyped(ip, f);
    assert ToEnglish(v) == v by {
      forall i | 0 <= i < |v| ensures !IsPersianNumeral(v[i]) {
        assert IsDigit(v[i]) || v[i] == '.';
      }
      ToEnglishKeeps(v);
    }
    assert StripCommas(v) == v && Acceptable(v) by {
      forall i | 0 <= i < |v| ensures IsAsciiNumeral(v[i]) && v[i] != ',' {
        assert IsDigit(v[i]) || v[i] == '.';
      }
      StripCommasWithoutCommas(v);
    }
    FormatAccepted(prev, v);
  }

  /** Typing a point before any digit gives "0." and the fraction. */
  lemma FractionOnly(prev: string, f: string)
    requires IsDigits(f)
    ensures Format(prev, "." + f) == ToPersian("0." + f)
  {
    FormatTyped(prev, [], Some(f));
    assert [] + PointSuffix(Some(f)) == "." + f;
    CanonicalIntegerOfEmpty();
    LeadingZeroPoint(f);
  }

  /** A trailing point is kept: "12." shows the grouped integer and the
      point, with nothing after it. */
  lemma TrailingPoint(prev: string, ip: string)
    requires IsDigits(ip) && ip != []
    ensures Format(prev, ip + ".") == ToPersian(Grouped(CanonicalInteger(ip)) + ".")
  {
    assert ip + PointSuffix(Some([])) == ip + ".";
    FormatTyped(prev, ip, Some([]));
    assert Render(ip, Some([])) == Grouped(CanonicalInteger(ip)) + ".";
  }

  /** Leading zeros are dropped, as BigInt drops them: a zero typed in front
      of the integer digits changes nothing that is shown. */
  lemma LeadingZeroDropped(prev: string, ip: string, f: Option<string>)
    requires IsDigits(ip) && ip != [] && (f.Some? ==> IsDigits(f.value))
    ensures Format(prev, "0" + ip + PointSuffix(f)) == Format(prev, ip + PointSuffix(f))
  {
    CanonicalLeadingZero(ip);
    assert Render("0" + ip, f) == Render(ip, f);
    FormatTyped(prev, "0" + ip, f);
    FormatTyped(prev, ip, f);
  }

  lemma CanonicalLeadingZero(ip: string)
    requires IsDigits(ip) && ip != []
    ensures IsDigits("0" + ip) && CanonicalInteger("0" + ip) == CanonicalInteger(ip)
  {
    var z := "0" + ip;
    assert z[0] == '0' && z[1..] == ip;
    assert IsDigits(z) by {
      forall i | 0 <= i < |z| ensures IsDigit(z[i]) {
        if i > 0 {
          assert z[i] == ip[i - 1];
        }
      }
    }
    assert TrimLeadingZeros(z) == TrimLeadingZeros(ip);
  }

  /** A lone point, in either script, shows as "۰٫". */
  lemma LonePoint(prev: string)
    ensures Format(prev, ".") == [PersianZero, DecimalSeparator]
    ensures Format(prev, [DecimalSeparator]) == [PersianZero, DecimalSeparator]
  {
    assert Format(prev, ".") == [PersianZero, DecimalSeparator] by {
      FractionOnly(prev, []);
      assert "." + [] == ".";
      assert "0." + [] == "0.";
    }
    assert Format(prev, [DecimalSeparator]) == Format(prev, ".") by {
      assert ToEnglish([DecimalSeparator]) == ".";
      FormatDelocalises(prev, [DecimalSeparator]);
    }
  }

  // ----- what an accepted text is rendered to -----

  /** What the field shows after an accepted change: Persian digits and
      separators only, with at most one decimal separator. */
  predicate IsDisplayText(r: string) {
    Occurrences(r, DecimalSeparator) <= 1 &&
    forall i :: 0 <= i < |r| ==> IsPersianNumeral(r[i])
  }

  /** A grouped integer holds digits and commas only. */
  lemma WellGroupedChars(g: string)
    requires WellGrouped(g)
    ensures AllAsciiNumerals(g) && '.' !in g
  {
    forall i | 0 <= i < |g| ensures IsDigit(g[i]) || g[i] == ',' {
      if (|g| - i) % 4 == 0 {
        assert g[i] == ',';
      }
    }
  }

  /** The rendering splits at its point into the grouped integer and the
      fraction as typed. */
  lemma RenderSplit(ip: string, f: Option<string>)
    requires IsDigits(ip) && (f.Some? ==> IsDigits(f.value))
    ensures Split(Render(ip, f), '.') ==
      [Grouped(CanonicalInteger(ip))] + (if f.Some? then [f.value] else [])
  {
    var g := Grouped(CanonicalInteger(ip));
    GroupedIsWellGrouped(CanonicalInteger(ip));
    WellGroupedChars(g);
    match f
    case None =>
      assert Render(ip, f) == g;
      SplitWithoutSeparator(g, '.');
    case Some(x) =>
      DigitsHaveNoSeparators(x);
      ConcatAssoc(g, ".", x);
      SplitAfterPiece(g, x, '.');
      SplitWithoutSeparator(x, '.');
  }

  /** The rendering is made of digits, commas and at most one point. */
  lemma RenderAcceptable(ip: string, f: Option<string>)
    requires IsDigits(ip) && (f.Some? ==> IsDigits(f.value))
    ensures Acceptable(Render(ip, f))
  {
    var g := Grouped(CanonicalInteger(ip));
    RenderSplit(ip, f);
    GroupedIsWellGrouped(CanonicalInteger(ip));
    WellGroupedChars(g);
    assert AllAsciiNumerals(PointSuffix(f)) by {
      if f.Some? {
        AsciiConcat(".", f.value);
      }
    }
    AsciiConcat(g, PointSuffix(f));
  }

  lemma AsciiConcat(a: string, b: string)
    requires AllAsciiNumerals(a) && AllAsciiNumerals(b)
    ensures AllAsciiNumerals(a + b)
  {
    forall i | 0 <= i < |a + b| ensures IsAsciiNumeral((a + b)[i]) {
      if i >= |a| {
        assert (a + b)[i] == b[i - |a|];
      }
    }
  }

  /** Removing the commas from the rendering leaves the canonical integer
      and the fraction as typed. */
  lemma RenderStripped(ip: string, f: Option<string>)
    requires IsDigits(ip) && (f.Some? ==> IsDigits(f.value))
    ensures StripCommas(Render(ip, f)) == CanonicalInteger(ip) + PointSuffix(f)
  {
    var c := CanonicalInteger(ip);
    GroupedStripped(c);
    StripCommasAppend(Grouped(c), PointSuffix(f));
    if f.Some? {
      DigitsHaveNoSeparators(f.value);
      assert ',' !in PointSuffix(f);
    }
    StripCommasWithoutCommas(PointSuffix(f));
  }

  /** Localising an acceptable ASCII text gives display text, and
      delocalising gives the text back. */
  lemma LocalisedShape(a: string)
    requires Acceptable(a)
    ensures IsDisplayText(ToPersian(a))
    ensures ToEnglish(ToPersian(a)) == a
  {
    assert Occurrences(a, DecimalSeparator) == 0 by {
      OccurrencesPositive(a, DecimalSeparator);
      assert DecimalSeparator !in a by {
        forall i | 0 <= i < |a| ensures a[i] != DecimalSeparator {
          assert IsAsciiNumeral(a[i]);
        }
      }
    }
    ToPersianPoints(a);
    ToPersianRoundTrip(a);
  }

  /** The shown rendering of a typed number: display text whose integer part
      is grouped by thousands and which, delocalised and without commas, is
      the canonical integer followed by the fraction as typed. */
  lemma RenderedShape(ip: string, f: Option<string>)
    requires IsDigits(ip) && (f.Some? ==> IsDigits(f.value))
    ensures var r := ToPersian(Render(ip, f));
      IsDisplayText(r) &&
      StripCommas(ToEnglish(r)) == CanonicalInteger(ip) + PointSuffix(f) &&
      WellGrouped(Split(ToEnglish(r), '.')[0])
  {
    RenderAcceptable(ip, f);
    LocalisedShape(Render(ip, f));
    RenderStripped(ip, f);
    RenderSplit(ip, f);
    GroupedIsWellGrouped(CanonicalInteger(ip));
  }

  /** Every accepted change that leaves a number shows display text which
      keeps the number's value: delocalised and without commas it is the
      integer part without leading zeros, then the fraction as typed, and
      its integer part is grouped by thousands. */
  lemma AcceptedOutput(prev: string, raw: string)
    requires Acceptable(ToEnglish(raw)) && StripCommas(ToEnglish(raw)) != []
    ensures IsPlainNumber(StripCommas(ToEnglish(raw)))
    ensures var v := StripCommas(ToEnglish(raw)); var r := Format(prev, raw);
      IsDisplayText(r) &&
      StripCommas(ToEnglish(r)) == CanonicalInteger(IntegerPart(v)) + PointSuffix(FractionPart(v)) &&
      Value(CanonicalInteger(IntegerPart(v))) == Value(IntegerPart(v)) &&
      WellGrouped(Split(ToEnglish(r), '.')[0])
  {
    FormatAccepted(prev, raw);
    var v := StripCommas(ToEnglish(raw));
    RenderedShape(IntegerPart(v), FractionPart(v));
  }

  // ----- re-entering what is shown -----

  /** Feeding the shown rendering back to the handler shows it again. */
  lemma FormatOfRendered(prev: string, ip: string, f: Option<string>)
    requires IsDigits(ip) && (f.Some? ==> IsDigits(f.value))
    ensures Acceptable(ToEnglish(ToPersian(Render(ip, f))))
    ensures Format(prev, ToPersian(Render(ip, f))) == ToPersian(Render(ip, f))
  {
    var r := Render(ip, f);
    var c := CanonicalInteger(ip);
    RenderAcceptable(ip, f);
    LocalisedShape(r);
    RenderStripped(ip, f);
    SplitTyped(c, f);
    CanonicalIntegerIdempotent(ip);
    assert Render(c, f) == r;
    assert c + PointSuffix(f) != [];
    FormatAccepted(prev, ToPersian(r));
  }

  lemma FormatOfEmpty(prev: string)
    ensures Format(prev, []) == []
  {
    assert ToEnglish([]) == [];
    assert StripCommas([]) == [];
  }

  /** Formatting is idempotent: whatever an accepted change shows, entered
      again, is shown unchanged. */
  lemma FormatIdempotent(prev: string, prev2: string, raw: string)
    requires Acceptable(ToEnglish(raw))
    ensures Format(prev2, Format(prev, raw)) == Format(prev, raw)
  {
    var v := StripCommas(ToEnglish(raw));
    if v == [] {
      FormatClears(prev, raw);
      FormatOfEmpty(prev2);
    } else {
      FormatAccepted(prev, raw);
      FormatOfRendered(prev2, IntegerPart(v), FractionPart(v));
    }
  }

  /** A text the field can show: one the handler accepts and shows as it
      is. The empty field is one. */
  predicate Stable(d: string) {
    Acceptable(ToEnglish(d)) && Format(d, d) == d
  }

  /** The handler only ever shows stable text, so the field keeps holding
      what it would show again. */
  lemma FormatKeepsStable(prev: string, raw: string)
    requires Stable(prev)
    ensures Stable(Format(prev, raw))
  {
    if Acceptable(ToEnglish(raw)) {
      var d := Format(prev, raw);
      var v := StripCommas(ToEnglish(raw));
      if v == [] {
        FormatClears(prev, raw);
        FormatOfEmpty(d);
      } else {
        FormatAccepted(prev, raw);
        FormatOfRendered(d, IntegerPart(v), FractionPart(v));
      }
    }
  }

  /** 1228000 is shown as ۱٬۲۲۸٬۰۰۰, and entering that again keeps it. */
  lemma GroupingExample(prev: string)
    ensures Format(prev, "1228000") == "\U{06F1}\U{066C}\U{06F2}\U{06F2}\U{06F8}\U{066C}\U{06F0}\U{06F0}\U{06F0}"
    ensures Format(prev, "\U{06F1}\U{066C}\U{06F2}\U{06F2}\U{06F8}\U{066C}\U{06F0}\U{06F0}\U{06F0}") ==
      "\U{06F1}\U{066C}\U{06F2}\U{06F2}\U{06F8}\U{066C}\U{06F0}\U{06F0}\U{06F0}"
  {
    var d := "1228000";
    ExampleRender();
    ExampleShown();
    assert d + PointSuffix(None) == d;
    FormatTyped(prev, d, None);
    FormatOfRendered(prev, d, None);
  }

  lemma ExampleRender()
    ensures IsDigits("1228000") && Render("1228000", None) == "1,228,000"
  {
    var d := "1228000";
    assert IsDigits(d);
    assert CanonicalInteger(d) == d by {
      assert TrimLeadingZeros(d) == d;
    }
    assert Grouped("1228") == "1,228" by {
      assert "1228"[..1] == "1" && "1228"[1..] == "228";
    }
    assert Grouped(d) == "1,228,000" by {
      assert d[..4] == "1228" && d[4..] == "000";
    }
  }

  lemma ExampleShown()
    ensures ToPersian("1,228,000") ==
      "\U{06F1}\U{066C}\U{06F2}\U{06F2}\U{06F8}\U{066C}\U{06F0}\U{06F0}\U{06F0}"
  {
  }
}
