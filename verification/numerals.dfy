/** Conversion between the ASCII numerals typed or computed by the widget and
    the Persian numerals it shows: the Extended Arabic-Indic digits
    U+06F0..U+06F9, the Arabic decimal separator U+066B and the Arabic
    thousands separator U+066C. */
module Numerals {
  import opened Text

  const PersianZero: char := '\U{06F0}'          // ۰
  const PersianNine: char := '\U{06F9}'          // ۹
  const DecimalSeparator: char := '\U{066B}'     // ٫
  const ThousandsSeparator: char := '\U{066C}'   // ٬

  predicate IsPersianDigit(c: char) {
    PersianZero <= c <= PersianNine
  }

  /** The characters toEnglishNumerals rewrites: the class [۰-۹٫٬]. */
  predicate IsPersianNumeral(c: char) {
    IsPersianDigit(c) || c == DecimalSeparator || c == ThousandsSeparator
  }

  /** The characters toPersianNumerals rewrites: the class [0-9.,]. */
  predicate IsAsciiNumeral(c: char) {
    IsDigit(c) || c == '.' || c == ','
  }

  /** The lookup table of toPersianNumerals: a digit keeps its value, the
      point and the comma become their Arabic counterparts, anything else is
      returned as it is. */
  function PersianOf(c: char): (p: char)
    ensures IsDigit(c) ==> IsPersianDigit(p) && p as int - PersianZero as int == c as int - '0' as int
    ensures c == '.' ==> p == DecimalSeparator
    ensures c == ',' ==> p == ThousandsSeparator
    ensures !IsAsciiNumeral(c) ==> p == c
  {
    match c
    case '0' => '\U{06F0}'
    case '1' => '\U{06F1}'
    case '2' => '\U{06F2}'
    case '3' => '\U{06F3}'
    case '4' => '\U{06F4}'
    case '5' => '\U{06F5}'
    case '6' => '\U{06F6}'
    case '7' => '\U{06F7}'
    case '8' => '\U{06F8}'
    case '9' => '\U{06F9}'
    case '.' => '\U{066B}'
    case ',' => '\U{066C}'
    case _ => c
  }

  /** The lookup table of toEnglishNumerals, the reverse of PersianOf. Other
      scripts' digits (the Arabic-Indic U+0660..U+0669, for one) are not in it. */
  function EnglishOf(c: char): (a: char)
    ensures IsPersianDigit(c) ==> IsDigit(a) && a as int - '0' as int == c as int - PersianZero as int
    ensures c == DecimalSeparator ==> a == '.'
    ensures c == ThousandsSeparator ==> a == ','
    ensures !IsPersianNumeral(c) ==> a == c
  {
    match c
    case '\U{06F0}' => '0'
    case '\U{06F1}' => '1'
    case '\U{06F2}' => '2'
    case '\U{06F3}' => '3'
    case '\U{06F4}' => '4'
    case '\U{06F5}' => '5'
    case '\U{06F6}' => '6'
    case '\U{06F7}' => '7'
    case '\U{06F8}' => '8'
    case '\U{06F9}' => '9'
    case '\U{066B}' => '.'
    case '\U{066C}' => ','
    case _ => c
  }

  /** toPersianNumerals on a string: every character goes through the table,
      in place, so the length is kept. */
  function ToPersian(s: string): (r: string)
    ensures |r| == |s|
    ensures forall i :: 0 <= i < |s| ==> r[i] == PersianOf(s[i])
  {
    if s == [] then [] else [PersianOf(s[0])] + ToPersian(s[1..])
  }

  /** toEnglishNumerals on a string. */
  function ToEnglish(s: string): (r: string)
    ensures |r| == |s|
    ensures forall i :: 0 <= i < |s| ==> r[i] == EnglishOf(s[i])
  {
    if s == [] then [] else [EnglishOf(s[0])] + ToEnglish(s[1..])
  }

  /** Delocalising a localised string is delocalising the string itself. */
  lemma {:induction false} ToEnglishToPersian(s: string)
    ensures ToEnglish(ToPersian(s)) == ToEnglish(s)
  {
    if s != [] {
      ToEnglishToPersian(s[1..]);
      assert ToPersian(s)[1..] == ToPersian(s[1..]);
    }
  }

  /** Delocalising twice is delocalising once. */
  lemma {:induction false} ToEnglishIdempotent(s: string)
    ensures ToEnglish(ToEnglish(s)) == ToEnglish(s)
  {
    if s != [] {
      ToEnglishIdempotent(s[1..]);
      assert ToEnglish(s)[1..] == ToEnglish(s[1..]);
    }
  }

  /** On text without Persian numerals, delocalisation undoes localisation. */
  lemma {:induction false} ToPersianRoundTrip(s: string)
    requires forall i :: 0 <= i < |s| ==> !IsPersianNumeral(s[i])
    ensures ToEnglish(ToPersian(s)) == s
  {
    if s != [] {
      ToPersianRoundTrip(s[1..]);
      assert ToPersian(s)[1..] == ToPersian(s[1..]);
    }
  }

  /** On text without ASCII numerals, localisation undoes delocalisation. */
  lemma {:induction false} ToEnglishRoundTrip(s: string)
    requires forall i :: 0 <= i < |s| ==> !IsAsciiNumeral(s[i])
    ensures ToPersian(ToEnglish(s)) == s
  {
    if s != [] {
      ToEnglishRoundTrip(s[1..]);
      assert ToEnglish(s)[1..] == ToEnglish(s[1..]);
    }
  }

  /** Every decimal point of the delocalised text was either an ASCII point
      or an Arabic decimal separator in the original. */
  lemma {:induction false} ToEnglishPoints(s: string)
    ensures Occurrences(ToEnglish(s), '.') == Occurrences(s, '.') + Occurrences(s, DecimalSeparator)
  {
    if s != [] {
      ToEnglishPoints(s[1..]);
      assert ToEnglish(s)[1..] == ToEnglish(s[1..]);
      PointsOf(s[0]);
    }
  }

  /** Every Arabic decimal separator of the localised text comes from an ASCII
      point or was already there. */
  lemma {:induction false} ToPersianPoints(s: string)
    ensures Occurrences(ToPersian(s), DecimalSeparator) == Occurrences(s, '.') + Occurrences(s, DecimalSeparator)
  {
    if s != [] {
      ToPersianPoints(s[1..]);
      assert ToPersian(s)[1..] == ToPersian(s[1..]);
      PointsOf(s[0]);
    }
  }

  /** The characters that either table maps to, or from, a decimal point,
      and those that toEnglishNumerals turns into a comma. */
  lemma PointsOf(c: char)
    ensures EnglishOf(c) == '.' <==> c == '.' || c == DecimalSeparator
    ensures PersianOf(c) == DecimalSeparator <==> c == '.' || c == DecimalSeparator
    ensures EnglishOf(c) == ',' <==> c == ',' || c == ThousandsSeparator
  {
  }

  /** Text without Persian numerals is already delocalised. */
  lemma ToEnglishKeeps(s: string)
    requires forall i :: 0 <= i < |s| ==> !IsPersianNumeral(s[i])
    ensures ToEnglish(s) == s
  {
  }
}
