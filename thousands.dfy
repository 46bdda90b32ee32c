/** Python's `"{:,}".format(x)` for an integer `x`: an optional minus sign, then
    the decimal digits of |x| with a comma between every group of three,
    counted from the right. Also the plain decimal form `str(x)` and its parse
    `int(s)`, which the grouped form reduces to once its commas are deleted. */
module Thousands {
  import opened Wrappers

  predicate IsDigit(c: char) {
    '0' <= c <= '9'
  }

  predicate AllDigits(s: string) {
    forall i :: 0 <= i < |s| ==> IsDigit(s[i])
  }

  function DigitChar(d: nat): (c: char)
    requires d < 10
    ensures IsDigit(c)
    ensures c == '0' <==> d == 0
  {
    ('0' as int + d) as char
  }

  function DigitValue(c: char): (d: nat)
    requires IsDigit(c)
    ensures d < 10 && DigitChar(d) == c
  {
    c as int - '0' as int
  }

  /** The decimal digits of `n`, most significant first: never empty, and
      without a leading zero unless `n` is zero. */
  function Digits(n: nat): (s: string)
    ensures |s| > 0 && AllDigits(s)
    ensures s[0] == '0' <==> n == 0
    ensures n == 0 ==> s == "0"
    decreases n
  {
    if n < 10 then [DigitChar(n)] else Digits(n / 10) + [DigitChar(n % 10)]
  }

  /** The number a string of decimal digits denotes. */
  function ValueOf(s: string): nat
    requires AllDigits(s)
  {
    if s == [] then 0 else ValueOf(s[..|s| - 1]) * 10 + DigitValue(s[|s| - 1])
  }

  /** Python's `str(x)`. */
  function Decimal(x: int): string {
    if x < 0 then "-" + Digits(-x) else Digits(x)
  }

  /** Python's `int(s)` restricted to plain decimal strings: an optional minus
      sign followed by at least one digit; anything else is refused. */
  function ParseDecimal(s: string): Option<int> {
    if |s| > 0 && s[0] == '-' then
      if |s| > 1 && AllDigits(s[1..]) then Some(0 - ValueOf(s[1..])) else None
    else if |s| > 0 && AllDigits(s) then Some(ValueOf(s))
    else None
  }

  /** Inserts a comma before every complete group of three digits that has
      digits to its left. */
  function Group(d: string): string
    requires |d| > 0 && AllDigits(d)
    decreases |d|
  {
    if |d| <= 3 then d else Group(d[..|d| - 3]) + "," + d[|d| - 3..]
  }

  /** `"{:,}".format(x)`. */
  function FormatThousands(x: int): string {
    if x < 0 then "-" + Group(Digits(-x)) else Group(Digits(x))
  }

  /** The string with every comma deleted. */
  function StripCommas(s: string): (r: string)
    ensures ',' !in r
    ensures |r| <= |s|
  {
    if s == [] then [] else (if s[0] == ',' then [] else [s[0]]) + StripCommas(s[1..])
  }

  /** A grouped digit string: counted from its right end, every fourth
      character is a comma and every other one a digit, and its first
      character is not a comma. So it is a first group of one to three digits
      followed by groups of exactly three digits, each preceded by a comma. */
  predicate WellGrouped(g: string) {
    && |g| > 0
    && |g| % 4 != 0
    && forall i :: 0 <= i < |g| ==> if (|g| - i) % 4 == 0 then g[i] == ',' else IsDigit(g[i])
  }

  // ---------------------------------------------------------------------------
  // Decimal digits and their value

  lemma {:induction false} ValueOfDigits(n: nat)
    ensures ValueOf(Digits(n)) == n
    decreases n
  {
    if n >= 10 {
      var p := Digits(n / 10);
      var s := p + [DigitChar(n % 10)];
      assert s[..|s| - 1] == p;
      ValueOfDigits(n / 10);
    }
  }

  lemma {:induction false} ValueOfPositive(s: string)
    requires |s| > 0 && AllDigits(s) && s[0] != '0'
    ensures ValueOf(s) > 0
    decreases |s|
  {
    if |s| == 1 {
      assert DigitValue(s[0]) != 0;
    } else {
      ValueOfPositive(s[..|s| - 1]);
    }
  }

  /** The digit form is canonical: a digit string without a leading zero is
      exactly the digit form of its value. */
  lemma {:induction false} DigitsOfValue(s: string)
    requires |s| > 0 && AllDigits(s)
    requires s[0] == '0' ==> |s| == 1
    ensures Digits(ValueOf(s)) == s
    decreases |s|
  {
    if |s| > 1 {
      var p := s[..|s| - 1];
      ValueOfPositive(p);
      DigitsOfValue(p);
      var n := ValueOf(s);
      assert n / 10 == ValueOf(p) && n % 10 == DigitValue(s[|s| - 1]);
      assert s == p + [s[|s| - 1]];
    }
  }

  /** `int(str(x)) == x`. */
  lemma DecimalRoundTrip(x: int)
    ensures ParseDecimal(Decimal(x)) == Some(x)
  {
    var d := Digits(if x < 0 then -x else x);
    ValueOfDigits(if x < 0 then -x else x);
    if x < 0 {
      assert Decimal(x)[1..] == d;
    }
  }

  // ---------------------------------------------------------------------------
  // Grouping

  lemma {:induction false} StripCommasAppend(a: string, b: string)
    ensures StripCommas(a + b) == StripCommas(a) + StripCommas(b)
    decreases |a|
  {
    if a == [] {
      assert a + b == b;
    } else {
      var c := a[0];
      var head: string := if c == ',' then [] else [c];
      calc {
        StripCommas(a + b);
        { assert (a + b)[0] == c && (a + b)[1..] == a[1..] + b; }
        head + StripCommas(a[1..] + b);
        { StripCommasAppend(a[1..], b); }
        head + (StripCommas(a[1..]) + StripCommas(b));
        (head + StripCommas(a[1..])) + StripCommas(b);
      }
    }
  }

  lemma {:induction false} StripCommasNoComma(s: string)
    requires ',' !in s
    ensures StripCommas(s) == s
    decreases |s|
  {
    if s != [] {
      StripCommasNoComma(s[1..]);
    }
  }

  /** Grouping only inserts commas: deleting them gives the digits back. */
  lemma {:induction false} StripGroup(d: string)
    requires |d| > 0 && AllDigits(d)
    ensures StripCommas(Group(d)) == d
    decreases |d|
  {
    if |d| <= 3 {
      StripCommasNoComma(d);
    } else {
      var p, t := d[..|d| - 3], d[|d| - 3..];
      calc {
        StripCommas(Group(d));
        { assert Group(d) == Group(p) + ("," + t); }
        StripCommas(Group(p) + ("," + t));
        { StripCommasAppend(Group(p), "," + t); }
        StripCommas(Group(p)) + StripCommas("," + t);
        { StripGroup(p); assert ("," + t)[1..] == t; }
        p + StripCommas(t);
        { StripCommasNoComma(t); }
        p + t;
      }
      assert d == p + t;
    }
  }

  lemma ShiftByFour(k: int)
    ensures (k + 4) % 4 == k % 4
  {
  }

  /** The grouped form has the comma layout of WellGrouped, one comma per
      complete group of three below the first, and keeps the first digit. */
  lemma {:induction false} GroupShape(d: string)
    requires |d| > 0 && AllDigits(d)
    ensures WellGrouped(Group(d))
    ensures |Group(d)| == |d| + (|d| - 1) / 3
    ensures Group(d)[0] == d[0]
    decreases |d|
  {
    if |d| > 3 {
      var p, t := d[..|d| - 3], d[|d| - 3..];
      GroupShape(p);
      var gp := Group(p);
      var g := gp + "," + t;
      assert |g| == |gp| + 4;
      forall i | 0 <= i < |g|
        ensures if (|g| - i) % 4 == 0 then g[i] == ',' else IsDigit(g[i])
      {
        if i < |gp| {
          ShiftByFour(|gp| - i);
          assert g[i] == gp[i];
        } else if i > |gp| {
          assert g[i] == t[i - |gp| - 1];
        }
      }
      assert |g| % 4 == |gp| % 4 by { ShiftByFour(|gp|); }
    }
  }

  // ---------------------------------------------------------------------------
  // The formatted integer

  /** The shape of `"{:,}".format(x)`: a leading '-' exactly when `x` is
      negative, then a well-grouped body whose first digit is '0' only for
      zero, and zero itself is written "0". */
  lemma FormatThousandsShape(x: int)
    ensures var s := FormatThousands(x);
      && (|s| > 0 && s[0] == '-' <==> x < 0)
      && var body := if x < 0 then s[1..] else s;
      && WellGrouped(body)
      && (body[0] == '0' <==> x == 0)
      && (x == 0 ==> s == "0")
  {
    var d := Digits(if x < 0 then -x else x);
    GroupShape(d);
    if x < 0 {
      assert FormatThousands(x)[1..] == Group(d);
    }
  }

  /** Deleting the commas from `"{:,}".format(x)` gives `str(x)`. */
  lemma FormatThousandsStrip(x: int)
    ensures StripCommas(FormatThousands(x)) == Decimal(x)
  {
    var d := Digits(if x < 0 then -x else x);
    StripGroup(d);
    if x < 0 {
      StripCommasAppend("-", Group(d));
    }
  }

  /** The round trip: deleting the commas and parsing gives `x` back. */
  lemma FormatThousandsRoundTrip(x: int)
    ensures ParseDecimal(StripCommas(FormatThousands(x))) == Some(x)
  {
    FormatThousandsStrip(x);
    DecimalRoundTrip(x);
  }

  // ---------------------------------------------------------------------------
  // Instances

  lemma DigitsFiveMillion()
    ensures Digits(5000000) == "5000000"
  {
    assert Digits(5) == "5";
    assert Digits(50) == "50";
    assert Digits(500) == "500";
    assert Digits(5000) == "5000";
    assert Digits(50000) == "50000";
    assert Digits(500000) == "500000";
  }

  lemma GroupFiveMillion()
    ensures Group("5000000") == "5,000,000"
  {
    assert Group("5") == "5";
    assert Group("5000") == "5,000";
  }

  /** `"{:,}".format(5000000) == "5,000,000"`. */
  lemma FormatThousandsMillions()
    ensures FormatThousands(5000000) == "5,000,000"
  {
    DigitsFiveMillion();
    GroupFiveMillion();
  }

  /** `"{:,}".format(-1234) == "-1,234"`, `"{:,}".format(999) == "999"` and
      `"{:,}".format(0) == "0"`. */
  lemma FormatThousandsSmall()
    ensures FormatThousands(-1234) == "-1,234"
    ensures FormatThousands(999) == "999"
    ensures FormatThousands(0) == "0"
  {
    assert Digits(12) == "12";
    assert Digits(1234) == "1234";
    assert Group("1234") == "1,234";
    assert Digits(99) == "99";
    assert Digits(999) == "999";
  }
}
