/** The parts of JavaScript's string built-ins the dashboard relies on: the white-space set that
    `trim` and `parseInt` skip, `trim`, `includes`, `parseInt` without a radix, and the decimal
    text a template literal prints for an integer. */
module JsStrings {
  import opened ColorModel

  /** White space and line terminators, the characters `trim` and `parseInt` skip. */
  predicate IsJsSpace(c: char)
  {
    || ('\U{0009}' <= c <= '\U{000D}')
    || c == ' ' || c == '\U{00A0}' || c == '\U{1680}'
    || ('\U{2000}' <= c <= '\U{200A}')
    || c == '\U{2028}' || c == '\U{2029}' || c == '\U{202F}' || c == '\U{205F}'
    || c == '\U{3000}' || c == '\U{FEFF}'
  }

  /** `s` with its leading white space removed. */
  function TrimStart(s: string): (r: string)
    ensures |r| <= |s| && r == s[|s| - |r|..]
    ensures r == [] || !IsJsSpace(r[0])
    ensures forall i :: 0 <= i < |s| - |r| ==> IsJsSpace(s[i])
  {
    if s != [] && IsJsSpace(s[0]) then TrimStart(s[1..]) else s
  }

  /** `s` with its trailing white space removed. */
  function TrimEnd(s: string): (r: string)
    ensures |r| <= |s| && r == s[..|r|]
    ensures r == [] || !IsJsSpace(r[|r| - 1])
    ensures forall i :: |r| <= i < |s| ==> IsJsSpace(s[i])
  {
    if s != [] && IsJsSpace(s[|s| - 1]) then TrimEnd(s[..|s| - 1]) else s
  }

  /** `s.trim()`. */
  function Trim(s: string): (r: string)
    ensures |r| <= |s|
    ensures r != [] ==> !IsJsSpace(r[0]) && !IsJsSpace(r[|r| - 1])
  {
    TrimEnd(TrimStart(s))
  }

  /** `!s.trim()` holds exactly for the strings made of white space only (the empty one included). */
  lemma TrimEmpty(s: string)
    ensures Trim(s) == [] <==> forall i :: 0 <= i < |s| ==> IsJsSpace(s[i])
  {
    var r := TrimStart(s);
    if r != [] {
      TrimEndKeeps(r);
      assert r[0] == s[|s| - |r|];
    }
  }

  /** A string that starts with a non-space character keeps something after `trimEnd`. */
  lemma TrimEndKeeps(r: string)
    requires r != [] && !IsJsSpace(r[0])
    ensures TrimEnd(r) != []
  {
  }

  /** `s.includes(t)`. */
  predicate Contains(s: string, t: string)
    decreases |s|
  {
    |t| <= |s| && (s[..|t|] == t || Contains(s[1..], t))
  }

  /** `t` occurs in `s` starting at index `i`. */
  predicate OccursAt(s: string, t: string, i: int)
  {
    0 <= i <= |s| - |t| && s[i..i + |t|] == t
  }

  /** `includes` finds `t` exactly when `t` occurs at some position of `s`. */
  lemma {:induction false} ContainsAt(s: string, t: string)
    ensures Contains(s, t) <==> exists i :: OccursAt(s, t, i)
    decreases |s|
  {
    if |t| <= |s| && s[..|t|] != t {
      ContainsAt(s[1..], t);
      if Contains(s[1..], t) {
        var j :| OccursAt(s[1..], t, j);
        assert s[j + 1..j + 1 + |t|] == s[1..][j..j + |t|];
        assert OccursAt(s, t, j + 1);
      }
      if exists i :: OccursAt(s, t, i) {
        var i :| OccursAt(s, t, i);
        assert i != 0;
        assert s[1..][i - 1..i - 1 + |t|] == s[i..i + |t|];
        assert OccursAt(s[1..], t, i - 1);
      }
    } else if |t| <= |s| {
      assert OccursAt(s, t, 0);
    }
  }

  /** A string includes each of its suffixes. */
  lemma ContainsSuffix(s: string, t: string)
    ensures Contains(s + t, t)
  {
    ContainsAt(s + t, t);
    assert (s + t)[|s|..|s| + |t|] == t;
    assert OccursAt(s + t, t, |s|);
  }

  /** A non-empty pattern whose first character never occurs in `s` is not included in it. */
  lemma NotContains(s: string, t: string)
    requires |t| > 0 && forall i :: 0 <= i < |s| ==> s[i] != t[0]
    ensures !Contains(s, t)
  {
    ContainsAt(s, t);
  }

  // ----- integers as text -----

  /** A digit in base `radix` (10 or 16, the two bases `parseInt` picks without a radix). */
  predicate IsDigit(c: char, radix: nat)
  {
    if radix == 16 then IsHexDigit(c) else '0' <= c <= '9'
  }

  function DigitValue(c: char, radix: nat): (v: nat)
    requires IsDigit(c, radix)
    ensures v < if radix == 16 then 16 else 10
  {
    if radix == 16 then HexValue(c) else c as int - '0' as int
  }

  predicate AllDigits(s: string, radix: nat)
  {
    forall i :: 0 <= i < |s| ==> IsDigit(s[i], radix)
  }

  /** The number a string of digits denotes, most significant digit first. */
  function DigitsValue(s: string, radix: nat): (v: nat)
    requires AllDigits(s, radix)
  {
    if s == [] then 0 else DigitsValue(s[..|s| - 1], radix) * radix + DigitValue(s[|s| - 1], radix)
  }

  /** The length of the longest prefix of `s` made of digits in base `radix`. */
  function DigitRun(s: string, radix: nat): (k: nat)
    ensures k <= |s| && AllDigits(s[..k], radix)
    ensures k == |s| || !IsDigit(s[k], radix)
  {
    if s == [] || !IsDigit(s[0], radix) then 0
    else
      var k := 1 + DigitRun(s[1..], radix);
      assert forall i :: 1 <= i < k ==> s[..k][i] == s[1..][..k - 1][i - 1];
      k
  }

  /** What `parseInt` returns: a number, or `NaN` when no digit follows the optional sign. */
  datatype Parsed = NaN | Num(n: int)

  /** `parseInt(s)` with no radix: leading white space is skipped, then an optional sign is read,
      and the rest is read as an unsigned number. */
  function ParseInt(s: string): Parsed
  {
    var t := TrimStart(s);
    if t != [] && t[0] == '-' then Negate(ParseUnsigned(t[1..]))
    else if t != [] && t[0] == '+' then ParseUnsigned(t[1..])
    else ParseUnsigned(t)
  }

  /** The minus sign: negates a number and leaves `NaN` as it is. */
  function Negate(p: Parsed): (r: Parsed)
    ensures r.NaN? <==> p.NaN?
    ensures p.Num? ==> r.n + p.n == 0
  {
    if p.Num? then Num(-p.n) else NaN
  }

  /** After the sign, a `0x`/`0X` prefix selects base 16; otherwise the base is 10. */
  /** A second sign flip undoes the first. */
  lemma NegateTwice(p: Parsed)
    ensures Negate(Negate(p)) == p
  {
  }

  function ParseUnsigned(u: string): Parsed
  {
    if |u| >= 2 && u[0] == '0' && (u[1] == 'x' || u[1] == 'X') then ParseRun(u[2..], 16)
    else ParseRun(u, 10)
  }

  /** The longest run of digits at the start of `body` is read and the rest is ignored; without
      a digit the result is `NaN`. */
  function ParseRun(body: string, radix: nat): (r: Parsed)
    ensures r.NaN? <==> body == [] || !IsDigit(body[0], radix)
  {
    var k := DigitRun(body, radix);
    if k == 0 then NaN else Num(DigitsValue(body[..k], radix))
  }

  /** A run made only of digits is read whole. */
  lemma ParseRunAll(body: string, radix: nat)
    requires |body| > 0 && AllDigits(body, radix)
    ensures ParseRun(body, radix) == Num(DigitsValue(body, radix))
  {
    assert DigitRun(body, radix) == |body|;
    assert body[..|body|] == body;
  }

  /** A string that starts with a decimal digit has no white space to skip, no sign and no
      `0x` prefix, so only its digit run is read. */
  lemma ParseFromDigit(s: string)
    requires |s| > 0 && IsDigit(s[0], 10) && (|s| > 1 ==> IsDigit(s[1], 10))
    ensures ParseInt(s) == ParseRun(s, 10)
  {
    assert !IsJsSpace(s[0]);
    assert TrimStart(s) == s;
  }

  function DecimalChar(d: nat): (c: char)
    requires d < 10
    ensures IsDigit(c, 10) && DigitValue(c, 10) == d
  {
    ('0' as int + d) as char
  }

  /** The decimal digits of `n`, without leading zeros. */
  function NatDigits(n: nat): (s: string)
    ensures |s| > 0 && AllDigits(s, 10)
    ensures DigitsValue(s, 10) == n
    ensures n > 0 ==> s[0] != '0'
    ensures n == 0 ==> s == "0"
  {
    if n < 10 then [DecimalChar(n)]
    else
      var s := NatDigits(n / 10) + [DecimalChar(n % 10)];
      assert s[..|s| - 1] == NatDigits(n / 10);
      s
  }

  /** The text a template literal prints for the integer `n`. */
  function ToDecimal(n: int): string
  {
    if n < 0 then "-" + NatDigits(-n) else NatDigits(n)
  }

  /** A minus sign followed by a digit: the digit run is read and negated. */
  lemma ParseMinus(digits: string)
    requires |digits| > 0 && IsDigit(digits[0], 10) && (|digits| > 1 ==> IsDigit(digits[1], 10))
    ensures ParseInt("-" + digits) == Negate(ParseRun(digits, 10))
  {
    var s := "-" + digits;
    assert s[0] == '-' && !IsJsSpace(s[0]);
    assert TrimStart(s) == s;
    assert s[1..] == digits;
  }

  /** `parseInt` reads back the text of every integer. */
  lemma ParseDecimal(n: int)
    ensures ParseInt(ToDecimal(n)) == Num(n)
  {
    var digits := NatDigits(if n < 0 then -n else n);
    assert IsDigit(digits[0], 10) && (|digits| > 1 ==> IsDigit(digits[1], 10));
    ParseRunAll(digits, 10);
    if n < 0 {
      ParseMinus(digits);
    } else {
      ParseFromDigit(digits);
    }
  }
}
