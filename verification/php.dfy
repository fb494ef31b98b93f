/**
  The slice of PHP's value semantics the cache library relies on: the values it
  stores, PHP truthiness (`if ($data)`), string conversion (`.`, `implode`) and the
  integer coercion applied by `+=`.
 */
module Php {
  import opened Wrappers

  /** A PHP value as far as the library looks at it. Floats and objects other than
      cache entries are not modelled. */
  datatype PhpValue =
    | Null
    | Bool(b: bool)
    | Int(i: int)
    | Str(s: string)
    | Arr(items: seq<PhpValue>)

  /** PHP's boolean conversion: `null`, `false`, `0`, `''`, `'0'` and the empty array are falsy. */
  predicate Truthy(v: PhpValue) {
    match v
    case Null => false
    case Bool(b) => b
    case Int(i) => i != 0
    case Str(s) => s != "" && s != "0"
    case Arr(items) => |items| > 0
  }

  predicate IsDigit(c: char) {
    '0' <= c <= '9'
  }

  predicate AllDigits(s: string) {
    forall i :: 0 <= i < |s| ==> IsDigit(s[i])
  }

  function DigitChar(d: nat): (c: char)
    requires d < 10
    ensures IsDigit(c)
    ensures c as int - '0' as int == d
  {
    "0123456789"[d]
  }

  function DigitValue(c: char): nat
    requires IsDigit(c)
  {
    c as int - '0' as int
  }

  /** The decimal digits of `n`, most significant first, without leading zeros. */
  function NatDigits(n: nat): (s: string)
    ensures |s| > 0
    ensures AllDigits(s)
    decreases n
  {
    if n < 10 then [DigitChar(n)] else NatDigits(n / 10) + [DigitChar(n % 10)]
  }

  /** The string PHP prints for an integer. */
  function Decimal(i: int): string {
    if i < 0 then "-" + NatDigits(-i) else NatDigits(i)
  }

  /** The value of a string of decimal digits. */
  function DigitsValue(s: string): nat
    requires AllDigits(s)
  {
    if |s| == 0 then 0 else DigitsValue(s[..|s| - 1]) * 10 + DigitValue(s[|s| - 1])
  }

  /** The longest prefix of `s` made of decimal digits. */
  function DigitRun(s: string): (p: string)
    ensures AllDigits(p)
    ensures |p| <= |s| && p == s[..|p|]
    ensures |p| < |s| ==> !IsDigit(s[|p|])
  {
    if |s| > 0 && IsDigit(s[0]) then [s[0]] + DigitRun(s[1..]) else ""
  }

  /** The integer PHP 7 reads from the front of a string in arithmetic: an optional
      sign followed by digits; a string without a leading number counts as 0. */
  function IntPrefix(s: string): int {
    if |s| > 0 && s[0] == '-' then 0 - DigitsValue(DigitRun(s[1..])) as int
    else if |s| > 0 && s[0] == '+' then DigitsValue(DigitRun(s[1..]))
    else DigitsValue(DigitRun(s))
  }

  /** `(string)$v`, as used by `.` and `implode`. */
  function ToStr(v: PhpValue): string {
    match v
    case Null => ""
    case Bool(b) => if b then "1" else ""
    case Int(i) => Decimal(i)
    case Str(s) => s
    case Arr(_) => "Array"
  }

  /** The integer a value stands for as the left operand of `+= $int`. */
  function ToNumber(v: PhpValue): Result<int> {
    match v
    case Null => Ok(0)
    case Bool(b) => Ok(if b then 1 else 0)
    case Int(i) => Ok(i)
    case Str(s) => Ok(IntPrefix(s))
    case Arr(_) => Err(Fatal(UnsupportedOperand))
  }

  lemma {:induction false} DigitRunOfDigits(s: string)
    requires AllDigits(s)
    ensures DigitRun(s) == s
  {
    if |s| > 0 {
      DigitRunOfDigits(s[1..]);
      assert [s[0]] + s[1..] == s;
    }
  }

  lemma {:induction false} NatDigitsValue(n: nat)
    ensures DigitsValue(NatDigits(n)) == n
    decreases n
  {
    if n >= 10 {
      var s := NatDigits(n);
      assert s[..|s| - 1] == NatDigits(n / 10);
      NatDigitsValue(n / 10);
    }
  }

  /** Reading back the decimal rendering of an integer gives the integer. */
  lemma IntPrefixOfDecimal(i: int)
    ensures IntPrefix(Decimal(i)) == i
  {
    if i < 0 {
      IntPrefixOfNegative(-i);
    } else {
      IntPrefixOfDigits(i);
    }
  }

  /** Reading back the digits of a natural number gives the number. */
  lemma IntPrefixOfDigits(n: nat)
    ensures IntPrefix(NatDigits(n)) == n
  {
    var s := NatDigits(n);
    assert IsDigit(s[0]);
    DigitRunOfDigits(s);
    NatDigitsValue(n);
  }

  /** Reading back a minus sign and the digits of `n` gives `-n`. */
  lemma IntPrefixOfNegative(n: nat)
    ensures IntPrefix("-" + NatDigits(n)) == -(n as int)
  {
    var d := NatDigits(n);
    var s := "-" + d;
    assert s[0] == '-' && s[1..] == d;
    DigitRunOfDigits(d);
    NatDigitsValue(n);
  }

  /** Distinct integers print differently. */
  lemma DecimalInjective(a: int, b: int)
    ensures Decimal(a) == Decimal(b) ==> a == b
  {
    IntPrefixOfDecimal(a);
    IntPrefixOfDecimal(b);
  }

  /** A printed integer never starts with a letter. */
  lemma DecimalStart(i: int)
    ensures Decimal(i)[0] == '-' || IsDigit(Decimal(i)[0])
  {
  }
}
