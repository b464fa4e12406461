/**
 * The string operations the pipeline applies to keys: Python's `str.strip`,
 * `str.upper`, `str.lower`, `str.startswith`, `str.zfill`, `str(int)` and `int(str)`.
 */
module Text {
  import opened Options

  /** Python's `str.isspace` for one character. */
  predicate IsSpace(c: char) {
    var n := c as int;
    (9 <= n <= 13) || (28 <= n <= 32) || n == 0x85 || n == 0xA0 || n == 0x1680
    || (0x2000 <= n <= 0x200A) || n == 0x2028 || n == 0x2029 || n == 0x202F
    || n == 0x205F || n == 0x3000
  }

  predicate IsDigit(c: char) { '0' <= c <= '9' }

  function UpperChar(c: char): (u: char)
    ensures IsSpace(u) <==> IsSpace(c)
    ensures 'a' <= c <= 'z' ==> 'A' <= u <= 'Z'
    ensures !('a' <= c <= 'z') ==> u == c
  {
    if 'a' <= c <= 'z' then (c as int - 32) as char else c
  }

  function LowerChar(c: char): (l: char)
    ensures 'A' <= c <= 'Z' ==> 'a' <= l <= 'z'
    ensures !('A' <= c <= 'Z') ==> l == c
  {
    if 'A' <= c <= 'Z' then (c as int + 32) as char else c
  }

  /** `str.upper`, on the ASCII letters. */
  function Upper(s: string): (r: string)
    ensures |r| == |s|
    ensures forall i :: 0 <= i < |s| ==> r[i] == UpperChar(s[i])
  {
    seq(|s|, i requires 0 <= i < |s| => UpperChar(s[i]))
  }

  /** `str.lower`, on the ASCII letters. */
  function Lower(s: string): (r: string)
    ensures |r| == |s|
    ensures forall i :: 0 <= i < |s| ==> r[i] == LowerChar(s[i])
  {
    seq(|s|, i requires 0 <= i < |s| => LowerChar(s[i]))
  }

  /** `str.lstrip()`: drops exactly the leading whitespace. */
  function TrimLeft(s: string): (r: string)
    ensures |r| <= |s| && r == s[|s| - |r|..]
    ensures forall i :: 0 <= i < |s| - |r| ==> IsSpace(s[i])
    ensures r != [] ==> !IsSpace(r[0])
  {
    if s != [] && IsSpace(s[0]) then TrimLeft(s[1..]) else s
  }

  /** `str.rstrip()`: drops exactly the trailing whitespace. */
  function TrimRight(s: string): (r: string)
    ensures |r| <= |s| && r == s[..|r|]
    ensures forall i :: |r| <= i < |s| ==> IsSpace(s[i])
    ensures r != [] ==> !IsSpace(r[|r| - 1])
  {
    if s != [] && IsSpace(s[|s| - 1]) then TrimRight(s[..|s| - 1]) else s
  }

  /** `str.strip()`. */
  function Strip(s: string): string {
    TrimRight(TrimLeft(s))
  }

  /** `str.strip().upper()`, the code normalisation of the pipeline. */
  function Normalize(s: string): string {
    Upper(Strip(s))
  }

  /** A string whose two ends are not whitespace is left alone by `strip`. */
  lemma StripKeepsTrimmed(s: string)
    requires s != [] ==> !IsSpace(s[0]) && !IsSpace(s[|s| - 1])
    ensures Strip(s) == s
  {
    assert TrimLeft(s) == s;
  }

  /** Normalising a code twice gives the same code as normalising it once. */
  lemma NormalizeIdempotent(s: string)
    ensures Normalize(Normalize(s)) == Normalize(s)
  {
    var t := Strip(s);
    var u := Upper(t);
    StripEnds(s);
    UpperKeepsEnds(t);
    StripKeepsTrimmed(u);
    UpperIdempotent(t);
  }

  /** The text `strip` returns neither starts nor ends with whitespace. */
  lemma StripEnds(s: string)
    ensures var t := Strip(s);
      t != [] ==> !IsSpace(t[0]) && !IsSpace(t[|t| - 1])
  {
    var l := TrimLeft(s);
    var t := TrimRight(l);
    if t != [] {
      assert t == l[..|t|];
      assert t[0] == l[0];
    }
  }

  /** Upper-casing keeps whitespace and non-whitespace at both ends. */
  lemma UpperKeepsEnds(t: string)
    requires t != [] ==> !IsSpace(t[0]) && !IsSpace(t[|t| - 1])
    ensures var u := Upper(t);
      u != [] ==> !IsSpace(u[0]) && !IsSpace(u[|u| - 1])
  {
  }

  /** Upper-casing an upper-cased text changes nothing. */
  lemma UpperIdempotent(t: string)
    ensures Upper(Upper(t)) == Upper(t)
  {
    var u := Upper(t);
    forall i | 0 <= i < |u| ensures Upper(u)[i] == u[i] {
      assert u[i] == UpperChar(t[i]);
    }
  }

  /** `s.startswith(p)`. */
  predicate StartsWith(s: string, p: string) {
    |p| <= |s| && s[..|p|] == p
  }

  function DigitChar(d: nat): (c: char)
    requires d < 10
    ensures IsDigit(c) && c as int - '0' as int == d
  {
    ('0' as int + d) as char
  }

  /** `str(n)` for a non-negative integer: decimal digits, no leading zero. */
  function NatToString(n: nat): (r: string)
    ensures r != []
    ensures forall i :: 0 <= i < |r| ==> IsDigit(r[i])
    ensures |r| == 1 <==> n < 10
    ensures |r| > 1 ==> r[0] != '0'
  {
    if n < 10 then [DigitChar(n)] else NatToString(n / 10) + [DigitChar(n % 10)]
  }

  predicate AllDigits(s: string) {
    forall i :: 0 <= i < |s| ==> IsDigit(s[i])
  }

  /** The value of a string of decimal digits. */
  function DigitsValue(s: string): nat
    requires AllDigits(s)
  {
    if s == [] then 0
    else DigitsValue(s[..|s| - 1]) * 10 + (s[|s| - 1] as int - '0' as int)
  }

  /** `int(s)` on a non-empty string of decimal digits; `None` where Python would raise. */
  function ParseNat(s: string): (r: Option<nat>)
    ensures r.Some? <==> s != [] && AllDigits(s)
  {
    if s != [] && AllDigits(s) then Some(DigitsValue(s)) else None
  }

  /** `str` and `int` are inverse on non-negative integers. */
  lemma {:induction false} ParseNatToString(n: nat)
    ensures ParseNat(NatToString(n)) == Some(n)
  {
    var s := NatToString(n);
    if n < 10 {
      assert s[..0] == [];
    } else {
      ParseNatToString(n / 10);
      assert s[..|s| - 1] == NatToString(n / 10);
      assert DigitsValue(s) == DigitsValue(NatToString(n / 10)) * 10 + n % 10;
    }
  }

  /** A leading zero does not change the value of a digit string. */
  lemma {:induction false} LeadingZero(s: string)
    requires AllDigits(s)
    ensures AllDigits("0" + s) && DigitsValue("0" + s) == DigitsValue(s)
  {
    if s != [] {
      var t := "0" + s;
      assert t[..|t| - 1] == "0" + s[..|s| - 1];
      LeadingZero(s[..|s| - 1]);
    }
  }

  function Zeros(n: nat): (r: string)
    ensures |r| == n && forall i :: 0 <= i < n ==> r[i] == '0'
  {
    if n == 0 then [] else Zeros(n - 1) + "0"
  }

  /** `s.zfill(width)`: pads with zeros on the left, after a leading sign. */
  function ZFill(s: string, width: nat): (r: string)
    ensures |r| == if |s| >= width then |s| else width
  {
    if |s| >= width then s
    else if s != [] && (s[0] == '+' || s[0] == '-') then [s[0]] + Zeros(width - |s|) + s[1..]
    else Zeros(width - |s|) + s
  }

  /** `str(n).zfill(2)`: the two-character department key of a department code. */
  function DeptLabel(n: nat): string {
    ZFill(NatToString(n), 2)
  }

  /** The key has exactly two digits for every code below 100, and reads back as the code. */
  lemma DeptLabelRoundTrip(n: nat)
    ensures AllDigits(DeptLabel(n)) && ParseNat(DeptLabel(n)) == Some(n)
    ensures n < 100 ==> |DeptLabel(n)| == 2
    ensures n < 10 ==> DeptLabel(n) == "0" + NatToString(n)
  {
    ParseNatToString(n);
    var s := NatToString(n);
    if n < 10 {
      assert Zeros(1) == "0";
      assert DeptLabel(n) == "0" + s;
      LeadingZero(s);
    }
  }

  /** Different department codes never share a key. */
  lemma DeptLabelInjective(m: nat, n: nat)
    ensures DeptLabel(m) == DeptLabel(n) <==> m == n
  {
    DeptLabelRoundTrip(m);
    DeptLabelRoundTrip(n);
  }
}
