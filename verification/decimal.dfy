/** Whole numbers written in decimal: the value of a digit string (what
    BigInt makes of one), the shortest digit string of a value (its decimal
    rendering) and the en-US thousands grouping that toLocaleString('en-US')
    applies to a BigInt. */
module Decimal {
  import opened Text

  function DigitValue(c: char): nat
    requires IsDigit(c)
  {
    c as int - '0' as int
  }

  function DigitChar(d: nat): (c: char)
    requires d < 10
    ensures IsDigit(c) && DigitValue(c) == d
  {
    (d + '0' as int) as char
  }

  /** The number a string of decimal digits denotes, most significant digit
      first; the empty string denotes 0, as BigInt('') is 0n. */
  function Value(s: string): nat
    requires IsDigits(s)
  {
    if s == [] then 0 else Value(s[..|s| - 1]) * 10 + DigitValue(s[|s| - 1])
  }

  /** The decimal rendering of n: digits only, never empty, and no leading
      zero unless n is 0. */
  function Decimal(n: nat): (r: string)
    ensures IsDigits(r) && r != []
    ensures r[0] == '0' ==> r == "0"
    ensures Value(r) == n
  {
    if n < 10 then [DigitChar(n)]
    else
      var prefix := Decimal(n / 10);
      var r := prefix + [DigitChar(n % 10)];
      assert r[..|r| - 1] == prefix;
      r
  }

  /** s without its leading zeros: what is dropped is all '0', what is kept
      is the rest of s and does not start with '0'. */
  function TrimLeadingZeros(s: string): (r: string)
    ensures |r| <= |s| && r == s[|s| - |r|..]
    ensures forall i :: 0 <= i < |s| - |r| ==> s[i] == '0'
    ensures r == [] || r[0] != '0'
  {
    if s != [] && s[0] == '0' then TrimLeadingZeros(s[1..]) else s
  }

  /** The integer part as BigInt renders it back: leading zeros dropped,
      and "0" for a part that was empty or all zeros. */
  function CanonicalInteger(s: string): (r: string)
    requires IsDigits(s)
    ensures IsDigits(r) && r != []
    ensures r[0] == '0' ==> r == "0"
    ensures Value(r) == Value(s)
  {
    var t := TrimLeadingZeros(s);
    TrimKeepsValue(s);
    if t == [] then "0" else t
  }

  /** BigInt(s) for a string of decimal digits: its value. Other strings are
      outside the model (None). The value renders back as the canonical form
      of s, so leading zeros are the only thing lost. */
  function ParseBigInt(s: string): (r: Option<nat>)
    ensures r.Some? <==> IsDigits(s)
    ensures r.Some? ==> Decimal(r.value) == CanonicalInteger(s)
  {
    if IsDigits(s) then
      DecimalOfValue(s);
      Some(Value(s))
    else None
  }

  lemma {:induction false} ValueLeadingZero(t: string)
    requires IsDigits(t)
    ensures IsDigits(['0'] + t) && Value(['0'] + t) == Value(t)
  {
    var s := ['0'] + t;
    if t != [] {
      var p := t[..|t| - 1];
      assert s[..|s| - 1] == ['0'] + p;
      ValueLeadingZero(p);
    }
  }

  lemma {:induction false} TrimKeepsValue(s: string)
    requires IsDigits(s)
    ensures IsDigits(TrimLeadingZeros(s)) && Value(TrimLeadingZeros(s)) == Value(s)
  {
    if s != [] && s[0] == '0' {
      TrimKeepsValue(s[1..]);
      ValueLeadingZero(s[1..]);
      assert ['0'] + s[1..] == s;
    }
  }

  lemma {:induction false} ValuePositive(t: string)
    requires IsDigits(t) && t != [] && t[0] != '0'
    ensures Value(t) >= 1
  {
    if |t| > 1 {
      ValuePositive(t[..|t| - 1]);
    }
  }

  /** A digit string without a leading zero is the decimal rendering of its
      own value. */
  lemma {:induction false} DecimalOfCanonical(t: string)
    requires IsDigits(t) && t != [] && t[0] != '0'
    ensures Decimal(Value(t)) == t
  {
    var last := t[|t| - 1];
    if |t| == 1 {
      assert t == [last];
    } else {
      var p := t[..|t| - 1];
      DecimalOfCanonical(p);
      ValuePositive(p);
      var v := Value(t);
      assert v == Value(p) * 10 + DigitValue(last);
      assert v / 10 == Value(p) && v % 10 == DigitValue(last);
      assert p + [last] == t;
    }
  }

  /** Parsing a digit string and rendering the value gives its canonical
      form: BigInt drops leading zeros and turns '' into "0". */
  lemma DecimalOfValue(s: string)
    requires IsDigits(s)
    ensures Decimal(Value(s)) == CanonicalInteger(s)
  {
    var t := TrimLeadingZeros(s);
    TrimKeepsValue(s);
    if t != [] {
      DecimalOfCanonical(t);
    }
  }

  /** The canonical form is a fixed point. */
  lemma CanonicalIntegerIdempotent(s: string)
    requires IsDigits(s)
    ensures CanonicalInteger(CanonicalInteger(s)) == CanonicalInteger(s)
  {
  }

  /** en-US grouping of a digit string: a ',' before every block of three
      digits counted from the right, except at the very front. */
  function Grouped(d: string): string
  {
    if |d| <= 3 then d else Grouped(d[..|d| - 3]) + "," + d[|d| - 3..]
  }

  /** The shape of an en-US grouped integer, stated by position: the
      characters at distance 4, 8, 12, ... from the end are ',' and all
      others are digits, and the length is not a multiple of 4, so the first
      group has one to three digits and every later group exactly three. */
  predicate WellGrouped(g: string) {
    |g| % 4 != 0 &&
    forall i :: 0 <= i < |g| ==> if (|g| - i) % 4 == 0 then g[i] == ',' else IsDigit(g[i])
  }

  /** Grouping a non-empty digit string gives a well-grouped string. */
  lemma {:induction false} GroupedIsWellGrouped(d: string)
    requires IsDigits(d) && d != []
    ensures WellGrouped(Grouped(d))
  {
    if |d| <= 3 {
      WellGroupedShort(d);
    } else {
      var p, t := d[..|d| - 3], d[|d| - 3..];
      GroupedIsWellGrouped(p);
      WellGroupedExtend(Grouped(p), t);
    }
  }

  /** Removing the separators from a grouped digit string gives the digits
      back. */
  lemma {:induction false} GroupedStripped(d: string)
    requires IsDigits(d)
    ensures StripCommas(Grouped(d)) == d
  {
    if |d| <= 3 {
      StripCommasAroundNothing(d);
    } else {
      var p, t := d[..|d| - 3], d[|d| - 3..];
      GroupedStripped(p);
      StripCommasAroundComma(Grouped(p), t);
      assert p + t == d;
    }
  }

  /** Removing separators from a + "," + t with a comma-free tail t. */
  lemma StripCommasAroundComma(a: string, t: string)
    requires IsDigits(t)
    ensures StripCommas(a + [','] + t) == StripCommas(a) + t
  {
    var x, y := StripCommas(a), StripCommas(a + [',']);
    assert y == x by {
      StripCommasAppend(a, [',']);
      assert StripCommas([',']) == [];
    }
    assert StripCommas(a + [','] + t) == y + t by {
      StripCommasAppend(a + [','], t);
      StripCommasAroundNothing(t);
    }
  }

  /** One to three digits form a single group. */
  lemma WellGroupedShort(d: string)
    requires IsDigits(d) && 1 <= |d| <= 3
    ensures WellGrouped(d)
  {
    forall i | 0 <= i < |d|
      ensures if (|d| - i) % 4 == 0 then d[i] == ',' else IsDigit(d[i])
    {
      var k := |d| - i;
      assert 1 <= k <= 3;
    }
  }

  /** A solver hint for the modular arithmetic of group positions. */
  lemma Mod4Shift(x: int)
    ensures (x + 4) % 4 == x % 4
  {
  }

  /** One more group of three digits keeps a string well grouped. */
  lemma WellGroupedExtend(h: string, t: string)
    requires WellGrouped(h) && IsDigits(t) && |t| == 3
    ensures WellGrouped(h + [','] + t)
  {
    var g := h + [','] + t;
    Mod4Shift(|h|);
    forall i | 0 <= i < |g|
      ensures if (|g| - i) % 4 == 0 then g[i] == ',' else IsDigit(g[i])
    {
      if i < |h| {
        Mod4Shift(|h| - i);
        assert g[i] == h[i];
      } else if i > |h| {
        assert g[i] == t[i - |h| - 1];
      }
    }
  }

  /** A well-grouped string longer than one group is a shorter well-grouped
      string, a separator and three digits. */
  lemma WellGroupedSplit(g: string)
    requires WellGrouped(g) && |g| > 3
    ensures |g| > 4
    ensures g == g[..|g| - 4] + [','] + g[|g| - 3..]
    ensures WellGrouped(g[..|g| - 4])
    ensures IsDigits(g[|g| - 3..])
  {
    var n := |g|;
    var h, t := g[..n - 4], g[n - 3..];
    assert g[n - 4] == ',';
    Mod4Shift(|h|);
    forall i | 0 <= i < |h|
      ensures if (|h| - i) % 4 == 0 then h[i] == ',' else IsDigit(h[i])
    {
      Mod4Shift(|h| - i);
      assert h[i] == g[i];
    }
    forall i | 0 <= i < 3 ensures IsDigit(t[i]) {
      assert t[i] == g[n - 3 + i];
    }
    assert g == h + [','] + t;
  }

  /** Regrouping the digits of a well-grouped string gives it back: the
      grouped form of a digit string is unique. */
  lemma {:induction false} GroupedStripCommas(g: string)
    requires WellGrouped(g)
    ensures IsDigits(StripCommas(g)) && StripCommas(g) != []
    ensures Grouped(StripCommas(g)) == g
  {
    if |g| <= 3 {
      WellGroupedShortDigits(g);
      StripCommasAroundNothing(g);
    } else {
      WellGroupedSplit(g);
      var h, t := g[..|g| - 4], g[|g| - 3..];
      GroupedStripCommas(h);
      StripCommasAroundComma(h, t);
      RegroupStep(StripCommas(h), t);
    }
  }

  /** A well-grouped string of at most three characters is all digits. */
  lemma WellGroupedShortDigits(g: string)
    requires WellGrouped(g) && |g| <= 3
    ensures IsDigits(g) && g != []
  {
    forall i | 0 <= i < |g| ensures IsDigit(g[i]) {
      var k := |g| - i;
      assert 1 <= k <= 3;
    }
  }

  /** Grouping digits followed by three more digits adds one group. */
  lemma RegroupStep(x: string, t: string)
    requires IsDigits(x) && x != [] && IsDigits(t) && |t| == 3
    ensures IsDigits(x + t) && x + t != []
    ensures Grouped(x + t) == Grouped(x) + [','] + t
  {
    var d := x + t;
    assert d[..|d| - 3] == x && d[|d| - 3..] == t;
  }

  lemma StripCommasAroundNothing(d: string)
    requires IsDigits(d)
    ensures StripCommas(d) == d
  {
    assert ',' !in d by {
      forall i | 0 <= i < |d| ensures d[i] != ',' {
        assert IsDigit(d[i]);
      }
    }
    StripCommasWithoutCommas(d);
  }

  /** BigInt.prototype.toLocaleString('en-US') of n: a well-grouped string
      whose digits, once the separators are removed, are the decimal
      rendering of n, so "0" for 0 and no leading zero otherwise. */
  function GroupThousands(n: nat): (g: string)
    ensures WellGrouped(g)
    ensures IsDigits(StripCommas(g)) && Value(StripCommas(g)) == n
    ensures StripCommas(g) == Decimal(n)
  {
    var d := Decimal(n);
    GroupedIsWellGrouped(d);
    GroupedStripped(d);
    Grouped(d)
  }
}
