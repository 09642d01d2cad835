/**
 * JavaScript's `parseInt(s)` with no radix, on the integers it can produce:
 * leading whitespace, an optional sign, an optional `0x`/`0X` prefix that
 * switches to base 16, then the longest run of digits of the base.  No digit
 * at all gives `NaN`.
 */
module JsNumber {
  import opened Text

  /** The result of `parseInt`: `NaN` or an integer (`-0` is folded into `0`). */
  datatype JsInt = NaN | Int(value: int)

  /** The value of `c` as a digit in base `radix` (10 or 16), if it is one. */
  function DigitValue(c: char, radix: nat): (v: int)
    ensures -1 <= v < 16 && (v >= 0 ==> v < radix)
    ensures 0 <= v < 10 <==> IsDigit(c) && (radix == 10 || radix == 16)
  {
    if radix != 10 && radix != 16 then -1
    else if '0' <= c <= '9' then c as int - '0' as int
    else if radix == 16 && 'a' <= c <= 'f' then c as int - 'a' as int + 10
    else if radix == 16 && 'A' <= c <= 'F' then c as int - 'A' as int + 10
    else -1
  }

  predicate IsRadixDigit(radix: nat, c: char) {
    DigitValue(c, radix) >= 0
  }

  /** The value of a run of digits in base `radix`, most significant first. */
  function DigitsValue(ds: string, radix: nat): nat
    requires forall k :: 0 <= k < |ds| ==> IsRadixDigit(radix, ds[k])
  {
    if |ds| == 0 then 0
    else
      var high := DigitsValue(ds[..|ds| - 1], radix);
      assert IsRadixDigit(radix, ds[|ds| - 1]);
      assert high * radix >= 0 by { NatProduct(high, radix); }
      high * radix + DigitValue(ds[|ds| - 1], radix)
  }

  lemma NatProduct(a: nat, b: nat)
    ensures a * b >= 0
  {
  }

  /** `parseInt(s)`. */
  function ParseInt(s: string): (r: JsInt)
    ensures r.NaN? <==> var j := SignEnd(s); var k := PrefixEnd(s, j);
      k == |s| || !IsRadixDigit(Radix(s, j), s[k])
    ensures r.Int? ==> var j := SignEnd(s); var k := PrefixEnd(s, j);
      var e := SkipWhile(s, k, c => IsRadixDigit(Radix(s, j), c));
      k < e && r.value == Sign(s) * DigitsValue(s[k..e], Radix(s, j))
  {
    var j := SignEnd(s);
    var radix := Radix(s, j);
    var k := PrefixEnd(s, j);
    var e := SkipWhile(s, k, c => IsRadixDigit(radix, c));
    if e == k then NaN
    else
      assert forall t :: 0 <= t < |s[k..e]| ==> IsRadixDigit(radix, s[k..e][t]) by {
        forall t | 0 <= t < |s[k..e]| ensures IsRadixDigit(radix, s[k..e][t]) { assert s[k..e][t] == s[k + t]; }
      }
      Int(Sign(s) * DigitsValue(s[k..e], radix))
  }

  /** The position after leading whitespace. */
  function SignStart(s: string): nat
    ensures SignStart(s) <= |s|
  {
    SkipWhile(s, 0, JsSpace)
  }

  /** `-1` when a `-` follows the leading whitespace, `1` otherwise. */
  function Sign(s: string): int {
    var i := SignStart(s);
    if i < |s| && s[i] == '-' then -1 else 1
  }

  /** The position after leading whitespace and an optional sign. */
  function SignEnd(s: string): (j: nat)
    ensures j <= |s|
  {
    var i := SignStart(s);
    if i < |s| && (s[i] == '-' || s[i] == '+') then i + 1 else i
  }

  predicate HexPrefixAt(s: string, j: nat) {
    j + 2 <= |s| && s[j] == '0' && (s[j + 1] == 'x' || s[j + 1] == 'X')
  }

  function Radix(s: string, j: nat): nat {
    if HexPrefixAt(s, j) then 16 else 10
  }

  function PrefixEnd(s: string, j: nat): (k: nat)
    requires j <= |s|
    ensures k <= |s|
  {
    if HexPrefixAt(s, j) then j + 2 else j
  }

  // ------------------------------------------------------------- decimal text

  /** The decimal digits of `n`, without leading zeros. */
  function NatToDecimal(n: nat): (ds: string)
    ensures |ds| > 0 && forall k :: 0 <= k < |ds| ==> IsDigit(ds[k])
    ensures ds[0] == '0' ==> n == 0
  {
    var d := ['0' + (n % 10) as char];
    if n < 10 then d else NatToDecimal(n / 10) + d
  }

  /** How `String(n)` writes an integer. */
  function ToDecimal(n: int): (s: string)
    ensures |s| > 0
  {
    if n < 0 then "-" + NatToDecimal(-n) else NatToDecimal(n)
  }

  /** The digits `NatToDecimal` writes are read back as `n`. */
  lemma {:induction false} DecimalValue(n: nat)
    ensures forall k :: 0 <= k < |NatToDecimal(n)| ==> IsRadixDigit(10, NatToDecimal(n)[k])
    ensures DigitsValue(NatToDecimal(n), 10) == n
  {
    var ds := NatToDecimal(n);
    if n >= 10 {
      DecimalValue(n / 10);
      assert ds[..|ds| - 1] == NatToDecimal(n / 10);
    }
  }

  /**
   * `parseInt` reads back what `String(n)` wrote, whatever non-digit text
   * follows, e.g. the `%` of a percentage.  (After a lone `0`, an `x` would
   * start a hexadecimal number instead.)
   */
  lemma ParseIntOfDecimal(n: int, suffix: string)
    requires |suffix| > 0 ==> !IsDigit(suffix[0]) && suffix[0] != 'x' && suffix[0] != 'X'
    ensures ParseInt(ToDecimal(n) + suffix) == Int(n)
  {
    var m: nat := if n < 0 then -n else n;
    var ds := NatToDecimal(m);
    var s := ToDecimal(n) + suffix;
    var k := if n < 0 then 1 else 0;
    assert s[k..k + |ds|] == ds;
    assert SignStart(s) == 0 by {
      assert !JsSpace(s[0]);
    }
    assert SignEnd(s) == k;
    DecimalValue(m);
    assert !HexPrefixAt(s, k) by {
      if |ds| == 1 {
        assert s[k + 1..] == suffix;
      } else {
        assert s[k + 1] == ds[1];
      }
    }
    assert PrefixEnd(s, k) == k;
    var e := k + |ds|;
    SkipWhileIs(s, k, c => IsRadixDigit(10, c), e);
    assert s[k..e] == ds;
  }

  /** `parseInt(s) || 0`: `NaN` and `0` both count as zero. */
  function RateKey(s: string): (n: int)
    ensures ParseInt(s).NaN? ==> n == 0
    ensures ParseInt(s).Int? ==> n == ParseInt(s).value
  {
    match ParseInt(s)
    case NaN => 0
    case Int(v) => v
  }
}
