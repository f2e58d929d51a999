/** Python's `int(s)` on a string and `str(n)` on an int, for base 10 and
    ASCII digits: surrounding white space is ignored, one sign is allowed,
    and single underscores may separate digits. */
module PyInt {
  import opened Wrappers
  import opened PyStr

  predicate IsDigit(c: char) {
    '0' <= c <= '9'
  }

  function DigitValue(c: char): (d: nat)
    ensures d < 10
  {
    if IsDigit(c) then (c as int) - ('0' as int) else 0
  }

  /** The body of a decimal literal as `int()` accepts it: digits, with single
      underscores allowed only between two digits. */
  predicate IsDecimal(d: string) {
    && |d| > 0
    && IsDigit(d[0])
    && IsDigit(d[|d| - 1])
    && (forall i :: 0 <= i < |d| ==> IsDigit(d[i]) || d[i] == '_')
    && (forall i :: 0 <= i < |d| - 1 ==> SingleUnderscore(d, i))
  }

  /** The character after an underscore at `i` is not another underscore. */
  predicate SingleUnderscore(d: string, i: int)
    requires 0 <= i < |d| - 1
  {
    d[i] == '_' ==> d[i + 1] != '_'
  }

  /** The number a decimal body denotes; underscores are skipped. */
  function DecimalValue(d: string): nat {
    if |d| == 0 then 0
    else if d[|d| - 1] == '_' then DecimalValue(d[..|d| - 1])
    else DecimalValue(d[..|d| - 1]) * 10 + DigitValue(d[|d| - 1])
  }

  /** `int(s)`; `None` stands for the `ValueError` Python raises. */
  function ParseInt(s: string): Option<int> {
    ParseStripped(Strip(s))
  }

  /** `int()` on text without surrounding white space. */
  function ParseStripped(t: string): Option<int> {
    if |t| > 0 && (t[0] == '+' || t[0] == '-') then
      var d := t[1..];
      if IsDecimal(d) then Some(if t[0] == '-' then 0 - DecimalValue(d) else DecimalValue(d))
      else None
    else if IsDecimal(t) then Some(DecimalValue(t))
    else None
  }

  /** `str(n)` for a non-negative `n`. */
  function NatToString(n: nat): (s: string)
    ensures IsDecimal(s)
    ensures forall i :: 0 <= i < |s| ==> IsDigit(s[i])
  {
    var last := ['0' + ((n % 10) as char)];
    if n < 10 then last else NatToString(n / 10) + last
  }

  /** `str(n)` */
  function IntToString(n: int): (s: string)
    ensures |s| > 0
  {
    if n < 0 then "-" + NatToString(-n) else NatToString(n)
  }

  lemma {:induction false} DecimalValueOfNatToString(n: nat)
    ensures DecimalValue(NatToString(n)) == n
    decreases n
  {
    var s := NatToString(n);
    if n >= 10 {
      DecimalValueOfNatToString(n / 10);
      assert s[..|s| - 1] == NatToString(n / 10);
    }
  }

  lemma StripOfIntToString(n: int)
    ensures Strip(IntToString(n)) == IntToString(n)
  {
    var s := IntToString(n);
    assert s[0] == '-' || IsDigit(s[0]);
    assert IsDigit(s[|s| - 1]);
    LStripNoLeadingSpace(s);
    RStripNoTrailingSpace(s);
  }

  lemma ParseNatText(n: nat)
    ensures ParseStripped(NatToString(n)) == Some(n)
  {
    var s := NatToString(n);
    DecimalValueOfNatToString(n);
    assert IsDigit(s[0]);
  }

  lemma ParseNegativeText(n: nat)
    requires n > 0
    ensures ParseStripped("-" + NatToString(n)) == Some(-(n as int))
  {
    var s := "-" + NatToString(n);
    DecimalValueOfNatToString(n);
    assert s[1..] == NatToString(n);
  }

  /** `int(str(n)) == n` */
  lemma ParseIntOfIntToString(n: int)
    ensures ParseInt(IntToString(n)) == Some(n)
  {
    var s := IntToString(n);
    if n < 0 {
      var m: nat := -n;
      assert s == "-" + NatToString(m);
      ParseNegativeText(m);
    } else {
      assert s == NatToString(n);
      ParseNatText(n);
    }
    assert Strip(s) == s by {
      StripOfIntToString(n);
    }
  }
}
