/**
 * Python's integer literals as `int(text, 0)` reads them, the decimal text
 * `str(n)` prints, and the decimal floating-point literals `float(text)`
 * accepts. Only ASCII digits are modelled. Decimal conversions between `int`
 * and `str` are refused beyond Python's default digit limit.
 */
module Numerals {
  import opened Wrappers
  import opened Text

  /** `c.isdigit()` for ASCII text. */
  predicate IsDigit(c: char)
  {
    '0' <= c <= '9'
  }

  /** `s.isdigit()`: non-empty and made of digits only. */
  predicate IsDigits(s: string)
  {
    s != [] && forall i :: 0 <= i < |s| ==> IsDigit(s[i])
  }

  /** Value of an alphanumeric character as a digit (letters count from ten, in either case); 36 for anything else. */
  function DigitValue(c: char): (d: nat)
    ensures d <= 36
    ensures IsDigit(c) ==> d == c as int - '0' as int
  {
    if '0' <= c <= '9' then c as int - '0' as int
    else if 'a' <= c <= 'z' then c as int - 'a' as int + 10
    else if 'A' <= c <= 'Z' then c as int - 'A' as int + 10
    else 36
  }

  /** `c` is a digit of `base` (bases up to 36). */
  predicate DigitIn(c: char, base: nat)
  {
    DigitValue(c) < 36 && DigitValue(c) < base
  }

  /** The digit grammar `digit ("_"? digit)*` over the digits of `base`. */
  predicate Underscored(s: string, base: nat)
    decreases |s|
  {
    |s| > 0 && DigitIn(s[0], base) &&
    (|s| == 1 || if s[1] == '_' then Underscored(s[2..], base) else Underscored(s[1..], base))
  }

  /** Value of a digit string in `base`, underscores ignored. */
  function ValueOf(s: string, base: nat): nat
    decreases |s|
  {
    if s == [] then 0
    else if s[|s| - 1] == '_' then ValueOf(s[..|s| - 1], base)
    else ValueOf(s[..|s| - 1], base) * base + DigitValue(s[|s| - 1])
  }

  /** The base a prefix letter after a leading `0` selects, or 0 when it selects none. */
  function PrefixBase(c: char): (base: nat)
    ensures base in {0, 2, 8, 16}
  {
    if c == 'x' || c == 'X' then 16
    else if c == 'o' || c == 'O' then 8
    else if c == 'b' || c == 'B' then 2
    else 0
  }

  /**
   * The default of `sys.get_int_max_str_digits()` since Python 3.11: a
   * decimal conversion between `int` and `str` with more digits than this
   * raises `ValueError`. Binary, octal and hexadecimal ones are not limited.
   */
  const MaxStrDigits := 4300

  /** The number of digits of a literal, underscores not counted. */
  function DigitCount(s: string): (n: nat)
    ensures n <= |s|
    decreases |s|
  {
    if s == [] then 0 else DigitCount(s[..|s| - 1]) + (if s[|s| - 1] == '_' then 0 else 1)
  }

  /** Every character of a text without underscores counts as a digit. */
  lemma {:induction false} DigitCountPlain(s: string)
    requires '_' !in s
    ensures DigitCount(s) == |s|
    decreases |s|
  {
    if s != [] {
      var ini := s[..|s| - 1];
      assert '_' !in ini by {
        forall i | 0 <= i < |ini| ensures ini[i] != '_' {
          assert ini[i] == s[i];
        }
      }
      DigitCountPlain(ini);
    }
  }

  /**
   * An unsigned literal: prefixed binary, octal or hexadecimal, or decimal
   * without leading zeros unless it is all zeros and with no more than
   * `MaxStrDigits` digits.
   */
  function ParseUnsigned(b: string): (r: Option<nat>)
    ensures r.Some? && |b| >= 2 && b[0] == '0' && PrefixBase(b[1]) != 0 ==>
      var rest := if |b| > 2 && b[2] == '_' then b[3..] else b[2..];
      Underscored(rest, PrefixBase(b[1]))
    ensures r.Some? && !(|b| >= 2 && b[0] == '0' && PrefixBase(b[1]) != 0) ==>
      Underscored(b, 10) && (b[0] == '0' ==> r.value == 0) && DigitCount(b) <= MaxStrDigits
  {
    if |b| >= 2 && b[0] == '0' && PrefixBase(b[1]) != 0 then
      var base := PrefixBase(b[1]);
      var rest := if |b| > 2 && b[2] == '_' then b[3..] else b[2..];
      if Underscored(rest, base) then Some(ValueOf(rest, base)) else None
    else if Underscored(b, 10) && (b[0] != '0' || ValueOf(b, 10) == 0) && DigitCount(b) <= MaxStrDigits then Some(ValueOf(b, 10))
    else None
  }

  /** `int(s, 0)`, or `None` where it raises `ValueError`; `s` has no surrounding whitespace. */
  function ParseIntLiteral(s: string): (r: Option<int>)
    ensures s == [] ==> r == None
  {
    if s == [] then None
    else if s[0] == '-' then
      (match ParseUnsigned(s[1..]) case Some(n) => Some(-(n as int)) case None => None)
    else if s[0] == '+' then
      (match ParseUnsigned(s[1..]) case Some(n) => Some(n) case None => None)
    else
      (match ParseUnsigned(s) case Some(n) => Some(n) case None => None)
  }

  /** The text of one decimal digit. */
  function DigitChar(d: nat): (c: char)
    requires d < 10
    ensures IsDigit(c) && DigitValue(c) == d
  {
    ('0' as int + d) as char
  }

  /** `str(n)` for a natural number. */
  function DecimalText(n: nat): (s: string)
    decreases n
  {
    if n < 10 then [DigitChar(n)] else DecimalText(n / 10) + [DigitChar(n % 10)]
  }

  /** `abs(n)`. */
  function Abs(n: int): nat
  {
    if n < 0 then -n else n
  }

  /** The decimal text of any integer: a minus sign before the digits of a negative one. */
  function IntText(n: int): (s: string)
  {
    if n < 0 then "-" + DecimalText(-n) else DecimalText(n)
  }

  /** `str(n)`, or `None` where it raises `ValueError`: `n` has more than `MaxStrDigits` decimal digits. */
  function IntStr(n: int): (r: Option<string>)
    ensures r.Some? <==> |DecimalText(Abs(n))| <= MaxStrDigits
    ensures r.Some? ==> r.value == IntText(n)
  {
    if |DecimalText(Abs(n))| <= MaxStrDigits then Some(IntText(n)) else None
  }

  /** The digits of `str(n)` spell `n`, start with a non-zero digit unless `n` is 0, and satisfy `isdigit`. */
  lemma {:induction false} DecimalTextValue(n: nat)
    ensures IsDigits(DecimalText(n)) && Underscored(DecimalText(n), 10)
    ensures ValueOf(DecimalText(n), 10) == n
    ensures DecimalText(n)[0] == '0' <==> n == 0
    decreases n
  {
    var s := DecimalText(n);
    if n >= 10 {
      var p := DecimalText(n / 10);
      DecimalTextValue(n / 10);
      assert s[..|s| - 1] == p;
      assert s[0] == p[0];
      UnderscoredSnoc(p, DigitChar(n % 10), 10);
    }
  }

  /** A digit may be appended to a digit string of the grammar. */
  lemma {:induction false} UnderscoredSnoc(s: string, c: char, base: nat)
    requires Underscored(s, base) && DigitIn(c, base) && s[|s| - 1] != '_'
    ensures Underscored(s + [c], base)
    decreases |s|
  {
    var t := s + [c];
    if |s| == 1 {
      assert t[1..] == [c];
    } else if s[1] == '_' {
      UnderscoredSnoc(s[2..], c, base);
      assert t[2..] == s[2..] + [c];
    } else {
      UnderscoredSnoc(s[1..], c, base);
      assert t[1..] == s[1..] + [c];
    }
  }

  /** A grammar string ends in a digit. */
  lemma {:induction false} UnderscoredLast(s: string, base: nat)
    requires Underscored(s, base)
    ensures s[|s| - 1] != '_'
    decreases |s|
  {
    if |s| > 1 {
      if s[1] == '_' { UnderscoredLast(s[2..], base); } else { UnderscoredLast(s[1..], base); }
    }
  }

  /**
   * `int(str(n), 0) == n` whenever `str(n)` succeeds, and the decimal text of
   * a number too long for `str` is refused by `int` as well.
   */
  lemma IntTextRoundTrip(n: int)
    ensures IntStr(n).Some? ==> ParseIntLiteral(IntStr(n).value) == Some(n)
    ensures ParseIntLiteral(IntText(n)).Some? <==> IntStr(n).Some?
  {
    var m := Abs(n);
    DecimalTextValue(m);
    var d := DecimalText(m);
    DigitCountPlain(d);
    if n < 0 {
      assert IntText(n)[1..] == d;
    }
  }

  /** A decimal literal of more than `MaxStrDigits` digits is refused, whatever its value. */
  lemma LongDecimalRejected(s: string)
    requires IsDigits(s) && |s| > MaxStrDigits
    ensures ParseIntLiteral(s) == None
  {
    assert '_' !in s by {
      forall i | 0 <= i < |s| ensures s[i] != '_' {
        assert IsDigit(s[i]);
      }
    }
    DigitCountPlain(s);
    assert IsDigit(s[0]) && IsDigit(s[1]);
  }

  /**
   * A literal with a base prefix: after `0x`, `0o` or `0b` (in either case)
   * and one optional underscore, the digits of that base with single
   * underscores between them read as their value, signed or not; any other
   * text after the prefix is rejected.
   */
  lemma PrefixedLiteral(c: char, d: string)
    requires PrefixBase(c) != 0
    ensures var base := PrefixBase(c);
      var digits := if d != [] && d[0] == '_' then d[1..] else d;
      ParseIntLiteral("0" + [c] + d) == (if Underscored(digits, base) then Some(ValueOf(digits, base) as int) else None) &&
      ParseIntLiteral("-0" + [c] + d) == (if Underscored(digits, base) then Some(-(ValueOf(digits, base) as int)) else None)
  {
    var b := "0" + [c] + d;
    assert b[0] == '0' && b[1] == c && b[2..] == d;
    if d != [] {
      assert b[2] == d[0] && b[3..] == d[1..];
    }
    assert ("-0" + [c] + d)[1..] == b;
  }

  /** A digit of a base up to 16, lower-case letters past 9 as `hex()` and `oct()` print them. */
  function BaseDigit(d: nat): (c: char)
    requires d < 16
    ensures DigitValue(c) == d
  {
    if d < 10 then DigitChar(d) else ('a' as int + d - 10) as char
  }

  /** The digits of `n` in `base`, most significant first, without leading zeros. */
  function BaseText(n: nat, base: nat): (s: string)
    requires 2 <= base <= 16
    decreases n
  {
    if n < base then [BaseDigit(n)] else BaseText(n / base, base) + [BaseDigit(n % base)]
  }

  /** The digits of `n` in `base` are a digit string of that base, and their value is `n`. */
  lemma {:induction false} BaseTextValue(n: nat, base: nat)
    requires 2 <= base <= 16
    ensures Underscored(BaseText(n, base), base) && ValueOf(BaseText(n, base), base) == n
    ensures BaseText(n, base)[0] != '_'
    decreases n
  {
    var s := BaseText(n, base);
    if n < base {
      assert s == [BaseDigit(n)];
      assert s[..0] == [];
    } else {
      var p := BaseText(n / base, base);
      var c := BaseDigit(n % base);
      DivShrinks(n, base);
      BaseTextValue(n / base, base);
      assert s == p + [c];
      assert s[..|s| - 1] == p && s[|s| - 1] == c;
      assert s[0] == p[0];
      UnderscoredLast(p, base);
      UnderscoredSnoc(p, c, base);
      SnocValue(p, c, base, n);
    }
  }

  /** Appending the digit `n % base` to the digits of `n / base` gives the value `n`. */
  lemma SnocValue(p: string, c: char, base: nat, n: nat)
    requires 2 <= base && n % base < 16 && c == BaseDigit(n % base)
    requires ValueOf(p, base) == n / base
    ensures ValueOf(p + [c], base) == n
  {
    var s := p + [c];
    assert s[..|s| - 1] == p && s[|s| - 1] == c;
    assert c != '_';
    assert ValueOf(s, base) == ValueOf(p, base) * base + DigitValue(c);
    assert (n / base) * base + n % base == n;
  }

  lemma DivShrinks(n: nat, base: nat)
    requires 2 <= base && 1 <= n
    ensures n / base < n
  {
  }

  /** `int("0x" + format(n, "x"), 0) == n`, and likewise for octal and binary digits after their prefixes. */
  lemma PrefixedRoundTrip(c: char, n: nat)
    requires PrefixBase(c) != 0
    ensures ParseIntLiteral("0" + [c] + BaseText(n, PrefixBase(c))) == Some(n)
  {
    BaseTextValue(n, PrefixBase(c));
    PrefixedLiteral(c, BaseText(n, PrefixBase(c)));
  }

  /** `s.isdigit()` holds and `int(s)` succeeds: no more than `MaxStrDigits` digits. */
  predicate IntReadable(s: string)
  {
    IsDigits(s) && |s| <= MaxStrDigits
  }

  /** `int(s)` for a text that satisfies `isdigit`: decimal, leading zeros allowed. */
  function DigitsValue(s: string): (n: nat)
    requires IsDigits(s)
  {
    ValueOf(s, 10)
  }

  /** `int(str(n))` reads a natural number back, exactly when `str(n)` succeeds. */
  lemma DigitsValueOfText(n: nat)
    ensures IsDigits(DecimalText(n)) && DigitsValue(DecimalText(n)) == n
    ensures IntReadable(DecimalText(n)) <==> IntStr(n).Some?
  {
    DecimalTextValue(n);
  }

  /** A hexadecimal cell value, as device-tree sources write them. */
  lemma HexLiteralExample()
    ensures ParseIntLiteral("0x10") == Some(16)
  {
    assert "0x10"[2..] == "10";
    assert "10"[1..] == "0";
    assert "10"[..1] == "1" && "1"[..0] == "";
    assert Underscored("10", 16);
    assert ValueOf("10", 16) == 16;
    assert ParseUnsigned("0x10") == Some(16);
  }

  /** A signed binary literal with an underscore between digits. */
  lemma BinaryLiteralExample()
    ensures ParseIntLiteral("-0b1_0") == Some(-2)
  {
    assert "-0b1_0"[1..] == "0b1_0";
    assert "0b1_0"[2..] == "1_0";
    assert "1_0"[2..] == "0";
    assert "1_0"[..2] == "1_" && "1_"[..1] == "1" && "1"[..0] == "";
    assert Underscored("1_0", 2);
    assert ValueOf("1_0", 2) == 2;
    assert ParseUnsigned("0b1_0") == Some(2);
  }

  /** A decimal literal with a leading zero is rejected; one made of zeros only is accepted. */
  lemma LeadingZeroExample()
    ensures ParseIntLiteral("010") == None
    ensures ParseIntLiteral("0_0") == Some(0)
  {
    assert "010"[1..] == "10" && "10"[1..] == "0";
    assert "010"[..2] == "01" && "01"[..1] == "0";
    assert "0_0"[2..] == "0";
    assert "0_0"[..2] == "0_" && "0_"[..1] == "0";
  }

  /** `c` is a decimal point. */
  predicate IsPoint(c: char)
  {
    c == '.'
  }

  /** `c` is an exponent mark. */
  predicate IsExponentMark(c: char)
  {
    c == 'e' || c == 'E'
  }

  /** The text after an optional leading sign. */
  function Unsigned(s: string): (b: string)
    ensures |b| <= |s|
  {
    if s != [] && (s[0] == '+' || s[0] == '-') then s[1..] else s
  }

  /**
   * A decimal floating-point literal with a point, as `float(s)` accepts it:
   * an optional sign, digits around one `.` (at least one side non-empty),
   * and an optional exponent with its own optional sign.
   */
  predicate IsFloatLiteral(s: string)
  {
    var b := Unsigned(s);
    var m := FirstWhere(b, IsExponentMark);
    var mantissa := b[..m];
    var d := FirstWhere(mantissa, IsPoint);
    d < |mantissa| &&
    (d == 0 || Underscored(mantissa[..d], 10)) &&
    (d + 1 == |mantissa| || Underscored(mantissa[d + 1..], 10)) &&
    (d > 0 || d + 1 < |mantissa|) &&
    (m == |b| || Underscored(Unsigned(b[m + 1..]), 10))
  }

  /** A number with a fractional part is a floating-point literal. */
  lemma FloatLiteralExample()
    ensures IsFloatLiteral("3.5")
  {
    FirstWhereAt("3.5", IsExponentMark, 3);
    assert "3.5"[..3] == "3.5";
    FirstWhereAt("3.5", IsPoint, 1);
    assert "3.5"[..1] == "3" && "3.5"[2..] == "5";
  }

  /** A version-like text with two points is not. */
  lemma NotFloatLiteralExample()
    ensures !IsFloatLiteral("1.2.3")
  {
    FirstWhereAt("1.2.3", IsExponentMark, 5);
    assert "1.2.3"[..5] == "1.2.3";
    FirstWhereAt("1.2.3", IsPoint, 1);
    assert "1.2.3"[2..] == "2.3";
    assert "2.3"[1..] == ".3";
  }
}
