/**
 * Decimal text as Python produces and reads it: `str(n)` of an int,
 * zero-padded fields (`"{:0>2d}"`, `%m`, `%d`), and `int(s)` of a string.
 */
module Text {
  import opened Dates

  predicate IsDigit(c: char) {
    '0' <= c <= '9'
  }

  predicate AllDigits(s: string) {
    forall i :: 0 <= i < |s| ==> IsDigit(s[i])
  }

  function DigitChar(n: int): (c: char)
    requires 0 <= n < 10
    ensures IsDigit(c)
  {
    ['0', '1', '2', '3', '4', '5', '6', '7', '8', '9'][n]
  }

  function DigitValue(c: char): int
    requires IsDigit(c)
  {
    (c as int) - ('0' as int)
  }

  /** The number a string of decimal digits denotes, most significant first. */
  function DigitsValue(s: string): nat
    requires AllDigits(s)
  {
    if s == [] then 0 else DigitsValue(s[..|s| - 1]) * 10 + DigitValue(s[|s| - 1])
  }

  /** `str(n)` for a non-negative int. */
  function NatToString(n: nat): string
  {
    if n < 10 then [DigitChar(n)] else NatToString(n / 10) + [DigitChar(n % 10)]
  }

  /** `str(n)` for any int. */
  function IntToString(n: int): string {
    if n < 0 then "-" + NatToString(-n) else NatToString(n)
  }

  /** A fixed-width field of exactly `width` decimal digits, as `strptime` reads `%Y`, `%m`, `%d`. */
  function ParseField(s: string, width: nat): Option<nat> {
    if |s| == width && AllDigits(s) then Some(DigitsValue(s)) else None
  }

  /**
   * `int(s)` of a string: an optional sign followed by ASCII digits; None
   * where Python raises ValueError.
   */
  function ParseInt(s: string): (r: Option<int>)
    ensures r.Some? ==> |s| > 0
  {
    if |s| > 0 && (s[0] == '-' || s[0] == '+') then
      (if |s| > 1 && AllDigits(s[1..]) then
         var v: int := DigitsValue(s[1..]);
         Some(if s[0] == '-' then -v else v)
       else None)
    else if |s| > 0 && AllDigits(s) then Some(DigitsValue(s))
    else None
  }

  /** `"{:0>w}".format(str(n))`: left-padded with zeros to at least `width` characters. */
  function PadLeft(s: string, width: nat): (r: string)
    ensures |r| == if |s| < width then width else |s|
    decreases width - |s|
  {
    if |s| < width then PadLeft("0" + s, width) else s
  }

  /** `"{:0>2d}".format(n)`, and `%m` / `%d` of `strftime`. */
  function Pad2(n: int): string {
    PadLeft(IntToString(n), 2)
  }

  // ---------------------------------------------------------------------
  // Properties

  lemma {:induction false} NatToStringDigits(n: nat)
    ensures |NatToString(n)| > 0 && AllDigits(NatToString(n))
    ensures DigitsValue(NatToString(n)) == n
  {
    if n >= 10 {
      var q, r := n / 10, n % 10;
      NatToStringDigits(q);
      DigitCharValue(r);
      AppendDigit(NatToString(q), DigitChar(r));
      assert NatToString(n) == NatToString(q) + [DigitChar(r)];
      assert n == q * 10 + r;
    } else {
      DigitCharValue(n);
    }
  }

  lemma DigitCharValue(n: int)
    requires 0 <= n < 10
    ensures DigitValue(DigitChar(n)) == n
  {
  }

  /** One more digit at the end multiplies the value by ten and adds the digit. */
  lemma AppendDigit(p: string, c: char)
    requires AllDigits(p) && IsDigit(c)
    ensures AllDigits(p + [c]) && DigitsValue(p + [c]) == DigitsValue(p) * 10 + DigitValue(c)
  {
    var s := p + [c];
    assert s[..|s| - 1] == p;
  }

  /** The number of digits of `str(n)`, as far as the date fields need it. */
  lemma {:induction false} NatToStringLength(n: nat)
    ensures n < 10 ==> |NatToString(n)| == 1
    ensures n < 100 ==> |NatToString(n)| <= 2
    ensures n < 1000 ==> |NatToString(n)| <= 3
    ensures n < 10000 ==> |NatToString(n)| <= 4
    ensures 10 <= n ==> |NatToString(n)| >= 2
    ensures 100 <= n ==> |NatToString(n)| >= 3
    ensures 1000 <= n ==> |NatToString(n)| >= 4
  {
    if n >= 10 {
      NatToStringLength(n / 10);
    }
  }

  /** `int(str(n)) == n`. */
  lemma IntToStringRoundTrip(n: int)
    ensures ParseInt(IntToString(n)) == Some(n)
  {
    if n < 0 {
      var m: nat := -n;
      NegativeRoundTrip(m);
      assert IntToString(n) == "-" + NatToString(m);
    } else {
      NaturalRoundTrip(n);
    }
  }

  lemma NaturalRoundTrip(n: nat)
    ensures ParseInt(NatToString(n)) == Some(n)
  {
    var s := NatToString(n);
    NatToStringDigits(n);
    assert IsDigit(s[0]);
    assert s[0] != '-' && s[0] != '+';
  }

  lemma NegativeRoundTrip(m: nat)
    requires m > 0
    ensures ParseInt("-" + NatToString(m)) == Some(-(m as int))
  {
    var digits := NatToString(m);
    var s := "-" + digits;
    NatToStringDigits(m);
    assert s[1..] == digits;
    assert |s| > 1 && AllDigits(s[1..]) && DigitsValue(s[1..]) == m;
  }

  /** `str` is injective, so a year string names exactly one year. */
  lemma IntToStringInjective(a: int, b: int)
    requires IntToString(a) == IntToString(b)
    ensures a == b
  {
    IntToStringRoundTrip(a);
    IntToStringRoundTrip(b);
  }

  lemma {:induction false} PadLeftDigits(s: string, width: nat)
    requires AllDigits(s)
    ensures AllDigits(PadLeft(s, width)) && DigitsValue(PadLeft(s, width)) == DigitsValue(s)
    decreases width - |s|
  {
    if |s| < width {
      ZeroPrefixValue(s);
      PadLeftDigits("0" + s, width);
    }
  }

  lemma {:induction false} ZeroPrefixValue(s: string)
    requires AllDigits(s)
    ensures AllDigits("0" + s) && DigitsValue("0" + s) == DigitsValue(s)
    decreases |s|
  {
    var t := "0" + s;
    if s != [] {
      assert t[..|t| - 1] == "0" + s[..|s| - 1];
      ZeroPrefixValue(s[..|s| - 1]);
    } else {
      assert t[..|t| - 1] == [];
    }
  }

  /** A zero-padded field of a small non-negative number reads back as that number. */
  lemma PaddedFieldRoundTrip(n: int, width: nat)
    requires 0 <= n
    requires |NatToString(n)| <= width
    ensures ParseField(PadLeft(IntToString(n), width), width) == Some(n)
  {
    NatToStringDigits(n);
    PadLeftDigits(NatToString(n), width);
  }

  lemma Pad2Shape(n: int)
    requires 0 <= n < 100
    ensures |Pad2(n)| == 2 && ParseField(Pad2(n), 2) == Some(n)
  {
    NatToStringLength(n);
    PaddedFieldRoundTrip(n, 2);
  }

  lemma DigitRoundTrip(c: char)
    requires IsDigit(c)
    ensures DigitChar(DigitValue(c)) == c
  {
    var n := DigitValue(c);
    assert c == (n + '0' as int) as char;
  }

  /** A two-digit field is the zero-padded form of the number it denotes. */
  lemma TwoDigitsCanonical(s: string)
    requires |s| == 2 && AllDigits(s)
    ensures Pad2(DigitsValue(s)) == s
  {
    var v := DigitsValue(s);
    assert s[..1] == [s[0]];
    var a, b := DigitValue(s[0]), DigitValue(s[1]);
    assert DigitsValue(s[..1]) == a by {
      assert s[..1][..0] == [];
    }
    assert v == a * 10 + b;
    DigitRoundTrip(s[0]);
    DigitRoundTrip(s[1]);
    if v < 10 {
      assert a == 0;
      assert NatToString(v) == [DigitChar(b)];
      assert PadLeft("0" + [DigitChar(b)], 2) == "0" + [DigitChar(b)];
      assert s == [s[0], s[1]];
    } else {
      assert v / 10 == a && v % 10 == b;
      assert NatToString(v) == [DigitChar(a)] + [DigitChar(b)];
      assert s == [s[0], s[1]];
    }
  }

  /** A field read from `str(n)` recovers n. */
  lemma FieldOfIntText(n: int, width: nat)
    requires 0 <= n
    ensures ParseField(IntToString(n), width).Some? ==> ParseField(IntToString(n), width) == Some(n)
  {
    NatToStringDigits(n);
  }
}
