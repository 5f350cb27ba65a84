/** Spreadsheet cells as the rating tool receives them from pandas, with the
    two conversions the tool applies to them: `str(cell)` (used to compare
    the `unique_set_index` key) and `int(cell)` (used to read back a saved
    rating). */
module Cells {

  datatype Option<T> = None | Some(value: T)

  /** One cell of a table.
      - Missing: NaN, an empty cell or a column that a row does not have;
      - Text: a string cell;
      - Int: an integer cell;
      - Other: any other value (a float, a date, ...), kept opaque: `shown`
        is its `str()` rendering and `truncated` is what `int()` makes of it
        (None when `int()` raises). */
  datatype Cell =
    | Missing
    | Text(s: string)
    | Int(n: int)
    | Other(shown: string, truncated: Option<int>)

  predicate IsDigit(c: char) { '0' <= c <= '9' }

  predicate AllDigits(s: string) { forall i :: 0 <= i < |s| ==> IsDigit(s[i]) }

  /** The ASCII characters that Python's `str.strip()` and `int()` treat as
      whitespace: space, tab, line feed, vertical tab, form feed, carriage
      return and the four separators 0x1C to 0x1F. */
  predicate IsSpace(c: char)
  {
    c == ' ' || c == '\t' || c == '\n' || c == '\r' || c as int == 11 || c as int == 12 || 28 <= c as int <= 31
  }

  function DigitChar(d: nat): (c: char)
    requires d < 10
    ensures IsDigit(c) && c as int - '0' as int == d
  {
    ('0' as int + d) as char
  }

  /** Decimal rendering of a natural number, most significant digit first. */
  function NatToString(n: nat): (s: string)
    ensures 1 <= |s| && AllDigits(s)
    ensures |s| == 1 <==> n < 10
  {
    if n < 10 then [DigitChar(n)] else NatToString(n / 10) + [DigitChar(n % 10)]
  }

  /** Python's `str()` of an int: a minus sign for negative numbers, then the digits. */
  function IntToString(n: int): (s: string)
    ensures 1 <= |s|
    ensures IsDigit(s[|s| - 1])
    ensures (s[0] == '-') == (n < 0)
  {
    if n < 0 then "-" + NatToString(-n) else NatToString(n)
  }

  /** The value of a string of decimal digits (0 for the empty string). */
  function DigitsValue(s: string): nat
    requires AllDigits(s)
  {
    if s == [] then 0 else DigitsValue(s[..|s| - 1]) * 10 + (s[|s| - 1] as int - '0' as int)
  }

  function TrimLeft(s: string): (t: string)
    ensures |t| <= |s|
    ensures t == s[|s| - |t|..]
    ensures forall i :: 0 <= i < |s| - |t| ==> IsSpace(s[i])
    ensures t != [] ==> !IsSpace(t[0])
  {
    if s != [] && IsSpace(s[0]) then TrimLeft(s[1..]) else s
  }

  function TrimRight(s: string): (t: string)
    ensures |t| <= |s|
    ensures t == s[..|t|]
    ensures forall i :: |t| <= i < |s| ==> IsSpace(s[i])
    ensures t != [] ==> !IsSpace(t[|t| - 1])
  {
    if s != [] && IsSpace(s[|s| - 1]) then TrimRight(s[..|s| - 1]) else s
  }

  /** t is s with the whitespace around it removed, t starting at offset a of
      s: only whitespace lies outside t, and t neither starts nor ends with it. */
  ghost predicate StrippedAt(t: string, s: string, a: nat)
  {
    && a + |t| <= |s| && t == s[a..a + |t|]
    && (forall i :: 0 <= i < a ==> IsSpace(s[i]))
    && (forall i :: a + |t| <= i < |s| ==> IsSpace(s[i]))
    && (t != [] ==> !IsSpace(t[0]) && !IsSpace(t[|t| - 1]))
  }

  /** `str.strip()`. */
  function Trim(s: string): (t: string)
    ensures StrippedAt(t, s, |s| - |TrimLeft(s)|)
  {
    var l := TrimLeft(s);
    var t := TrimRight(l);
    StrippedFromParts(s, l, t);
    t
  }

  /** Stripping the left end, then the right end, strips both. */
  lemma StrippedFromParts(s: string, l: string, t: string)
    requires |l| <= |s| && l == s[|s| - |l|..] && forall i :: 0 <= i < |s| - |l| ==> IsSpace(s[i])
    requires l != [] ==> !IsSpace(l[0])
    requires |t| <= |l| && t == l[..|t|] && forall i :: |t| <= i < |l| ==> IsSpace(l[i])
    requires t != [] ==> !IsSpace(t[|t| - 1])
    ensures StrippedAt(t, s, |s| - |l|)
  {
    var a := |s| - |l|;
    assert forall i :: a <= i < |s| ==> s[i] == l[i - a];
    assert t == s[a..a + |t|];
    if t != [] {
      assert t[0] == l[0];
    }
  }

  /** There is only one way to strip a string. */
  lemma StrippedUnique(s: string, t1: string, a1: nat, t2: string, a2: nat)
    requires StrippedAt(t1, s, a1) && StrippedAt(t2, s, a2)
    ensures t1 == t2
  {
    if t1 != [] && t2 != [] {
      assert s[a1] == t1[0] && s[a2] == t2[0];
      assert a1 == a2;
      var e1, e2 := a1 + |t1|, a2 + |t2|;
      assert s[e1 - 1] == t1[|t1| - 1] && s[e2 - 1] == t2[|t2| - 1];
      assert e1 == e2;
    }
  }

  /** Python's `int()` of a string: surrounding whitespace is ignored, then an
      optional sign and at least one digit must make up the whole text. */
  function ParseInt(s: string): (r: Option<int>)
    ensures r.Some? <==>
      var t := Trim(s);
      (|t| >= 1 && AllDigits(t)) || (|t| >= 2 && (t[0] == '-' || t[0] == '+') && AllDigits(t[1..]))
  {
    var t := Trim(s);
    if |t| >= 1 && AllDigits(t) then Some(DigitsValue(t))
    else if |t| >= 2 && (t[0] == '-' || t[0] == '+') && AllDigits(t[1..]) then
      var v: int := DigitsValue(t[1..]);
      Some(if t[0] == '-' then -v else v)
    else None
  }

  /** `str(cell)`: NaN renders as "nan". The rendering of an integer cell
      reads back as that integer, and that of NaN as no integer. */
  function Str(c: Cell): (s: string)
    ensures c.Int? ==> ParseInt(s) == Some(c.n)
    ensures c.Missing? ==> ParseInt(s) == None
  {
    match c
    case Missing =>
      assert Trim("nan") == "nan" by {
        TrimOfNumber("nan");
      }
      assert !IsDigit('n');
      "nan"
    case Text(s) => s
    case Int(n) =>
      ParseIntOfIntToString(n);
      IntToString(n)
    case Other(shown, _) => shown
  }

  /** `int(cell)`, None where Python raises. On a text or integer cell it
      agrees with `int(str(cell))`; `int()` of NaN raises. */
  function ToInt(c: Cell): (r: Option<int>)
    ensures c.Int? || c.Text? ==> r == ParseInt(Str(c))
    ensures c.Missing? ==> r.None?
  {
    match c
    case Missing => None
    case Text(s) => ParseInt(s)
    case Int(n) => Some(n)
    case Other(_, t) => t
  }

  lemma {:induction false} DigitsValueOfNatToString(n: nat)
    ensures DigitsValue(NatToString(n)) == n
  {
    if n >= 10 {
      var s := NatToString(n / 10);
      DigitsValueOfNatToString(n / 10);
      assert (s + [DigitChar(n % 10)])[..|s|] == s;
    }
  }

  lemma TrimOfNumber(s: string)
    requires |s| >= 1 && !IsSpace(s[0]) && !IsSpace(s[|s| - 1])
    ensures Trim(s) == s
  {
  }

  /** Reading back the rendering of an integer gives the integer: `int(str(n)) == n`. */
  lemma ParseIntOfIntToString(n: int)
    ensures ParseInt(IntToString(n)) == Some(n)
  {
    if n < 0 {
      ParseIntOfNegative(n);
    } else {
      ParseIntOfNatural(n);
    }
  }

  lemma ParseIntOfNatural(n: nat)
    ensures ParseInt(IntToString(n)) == Some(n)
  {
    var s := NatToString(n);
    TrimOfNumber(s);
    DigitsValueOfNatToString(n);
  }

  lemma ParseIntOfNegative(n: int)
    requires n < 0
    ensures ParseInt(IntToString(n)) == Some(n)
  {
    var m: nat := -n;
    var d := NatToString(m);
    var s := "-" + d;
    assert IntToString(n) == s;
    assert s[1..] == d;
    assert |s| >= 2 && s[0] == '-' by {
      assert 1 <= |d|;
    }
    assert IsDigit(s[|s| - 1]) by {
      assert s[|s| - 1] == d[|d| - 1];
    }
    assert AllDigits(s[1..]);
    DigitsValueOfNatToString(m);
    assert DigitsValue(s[1..]) == m;
    ParseIntOfSigned(s, m);
  }

  lemma ParseIntOfSigned(t: string, m: nat)
    requires |t| >= 2 && t[0] == '-' && IsDigit(t[|t| - 1]) && AllDigits(t[1..]) && DigitsValue(t[1..]) == m
    ensures ParseInt(t) == Some(-(m as int))
  {
    TrimOfNumber(t);
    assert !AllDigits(t) by {
      assert !IsDigit(t[0]);
    }
  }

  lemma {:induction false} NatToStringInjective(a: nat, b: nat)
    requires NatToString(a) == NatToString(b)
    ensures a == b
  {
    var sa, sb := NatToString(a), NatToString(b);
    if a >= 10 && b >= 10 {
      assert sa[..|sa| - 1] == NatToString(a / 10);
      assert sb[..|sb| - 1] == NatToString(b / 10);
      NatToStringInjective(a / 10, b / 10);
      assert DigitChar(a % 10) == sa[|sa| - 1] == DigitChar(b % 10);
    } else if a < 10 && b < 10 {
      assert DigitChar(a) == sa[0] == DigitChar(b);
    }
  }

  /** Distinct integers render differently, so comparing `str()` of an Int
      cell with `str(u)` is comparing the integers. */
  lemma IntToStringInjective(a: int, b: int)
    requires IntToString(a) == IntToString(b)
    ensures a == b
  {
    var s := IntToString(a);
    if a < 0 {
      assert b < 0;
      assert s[1..] == NatToString(-a) && s[1..] == NatToString(-b);
      NatToStringInjective(-a, -b);
    } else {
      NatToStringInjective(a, b);
    }
  }

  /** The rendering key compares a cell with an integer exactly when the cell
      is that integer, or renders like one: a float cell shown as "3.0" does
      NOT match the index 3. */
  lemma StrOfIntCell(n: int, m: int)
    ensures Str(Int(n)) == IntToString(m) <==> n == m
  {
    if Str(Int(n)) == IntToString(m) { IntToStringInjective(n, m); }
  }

  lemma FloatRenderingDiffers()
    ensures Str(Other("3.0", Some(3))) != IntToString(3)
    ensures ToInt(Other("3.0", Some(3))) == ToInt(Int(3))
  {
    assert IntToString(3) == "3";
  }
}
