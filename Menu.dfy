/**
 * The menu choice in `main`: the typed answer read with the global
 * `parseInt` (section 19.2.5 of ECMA-262, radix left undefined) and tested
 * against the number of listings shown.
 */
module Menu {
  import opened Common
  import opened JsStrings

  /** A `parseInt` result: `NaN`, or an integer (`-0` is folded into 0, which `=== 0` cannot tell apart). */
  datatype ParsedInt = NaN | Int(value: int)

  /** The value of a character read as a digit in radix 36; 36 for anything that is not an ASCII letter or digit. */
  function DigitValue(c: char): (d: nat)
    ensures d <= 36
    ensures d < 10 <==> '0' <= c <= '9'
  {
    if '0' <= c <= '9' then c as int - '0' as int
    else if 'a' <= c <= 'z' then c as int - 'a' as int + 10
    else if 'A' <= c <= 'Z' then c as int - 'A' as int + 10
    else 36
  }

  /** The end of the run of radix-`radix` digits starting at `i`. */
  function DigitRunEnd(s: string, radix: nat, i: nat): (e: nat)
    requires i <= |s|
    ensures i <= e <= |s|
    ensures e == |s| || DigitValue(s[e]) >= radix
    decreases |s| - i
  {
    if i < |s| && DigitValue(s[i]) < radix then DigitRunEnd(s, radix, i + 1) else i
  }

  /** The number the digits `s[lo..hi]` denote in radix `radix`, most significant digit first. */
  function DigitsValue(s: string, lo: nat, hi: nat, radix: nat): nat
    requires lo <= hi <= |s|
    decreases hi
  {
    if hi == lo then 0
    else DigitsValue(s, lo, hi - 1, radix) * radix + DigitValue(s[hi - 1])
  }

  /** The position of the first decimal digit of `s` at or after `i`; `|s|` when there is none. */
  function FirstDigit(s: string, i: nat): (k: nat)
    requires i <= |s|
    ensures i <= k <= |s|
    decreases |s| - i
  {
    if i == |s| || '0' <= s[i] <= '9' then i else FirstDigit(s, i + 1)
  }

  /** A digit at `m` bounds the first one. */
  lemma {:induction false} FirstDigitAtMost(s: string, i: nat, m: nat)
    requires i <= m < |s| && '0' <= s[m] <= '9'
    ensures FirstDigit(s, i) <= m
    decreases m - i
  {
    if i < m && !('0' <= s[i] <= '9') {
      FirstDigitAtMost(s, i + 1, m);
    }
  }

  /** Without a digit from `i` on, the search runs to the end. */
  lemma {:induction false} FirstDigitNone(s: string, i: nat)
    requires i <= |s|
    requires forall p :: i <= p < |s| ==> !('0' <= s[p] <= '9')
    ensures FirstDigit(s, i) == |s|
    decreases |s| - i
  {
    if i < |s| {
      FirstDigitNone(s, i + 1);
    }
  }

  /**
   * `parseInt(input)`: skip leading whitespace, read an optional sign, and
   * read the magnitude that follows; no digit at all gives `NaN`.
   */
  function ParseInt(input: string): (r: ParsedInt)
    ensures r.Int? ==> FirstDigit(input, 0) < |input|
  {
    var k := SkipWhitespace(input, 0);
    NumberHasDigit(input, k);
    SignedValueAt(input[k..], 0)
  }

  /** The value of the text from `i` on: an optional sign, then the magnitude. */
  function SignedValueAt(s: string, i: nat): (r: ParsedInt)
    requires i <= |s|
  {
    var negative := i < |s| && s[i] == '-';
    var j := if i < |s| && (s[i] == '-' || s[i] == '+') then i + 1 else i;
    match MagnitudeAt(s, j)
    case None => NaN
    case Some(m) => if negative then Int(0 - m) else Int(m)
  }

  /**
   * The magnitude from `j` on: radix 16 after a `0x` or `0X` prefix, radix
   * 10 otherwise, read over the longest run of digits; nothing when that
   * run is empty.
   */
  function MagnitudeAt(s: string, j: nat): (r: Option<nat>)
    requires j <= |s|
  {
    var hex := j + 2 <= |s| && s[j] == '0' && (s[j + 1] == 'x' || s[j + 1] == 'X');
    var radix := if hex then 16 else 10;
    var start := if hex then j + 2 else j;
    var end := DigitRunEnd(s, radix, start);
    if end == start then None else Some(DigitsValue(s, start, end, radix))
  }

  /** A number is read only where a decimal digit follows the sign, if any (the `0` of `0x` included). */
  lemma NumberHasDigit(input: string, k: nat)
    requires k <= |input|
    ensures SignedValueAt(input[k..], 0).Int? ==> FirstDigit(input, 0) < |input|
  {
    var s := input[k..];
    if SignedValueAt(s, 0).Int? {
      var j := if 0 < |s| && (s[0] == '-' || s[0] == '+') then 1 else 0;
      assert MagnitudeAt(s, j).Some?;
      if !HexPrefixAt(s, j) {
        assert DigitRunEnd(s, 10, j) > j;
      }
      assert input[k + j] == s[j];
      FirstDigitAtMost(input, 0, k + j);
    }
  }

  /** What `main` does with the parsed answer when `count` listings are shown. */
  datatype Choice =
    | Exit               // "Exiting...": 0, NaN, or a number past the end
    | Select(index: nat) // `results[choiceNum - 1]`
    | OutOfRange         // a negative number: `results[choiceNum - 1]` is undefined

  /**
   * `choiceNum === 0 || isNaN(choiceNum) || choiceNum > results.length`
   * exits; anything else indexes the listings with `choiceNum - 1`.
   */
  function Decide(count: nat, parsed: ParsedInt): (c: Choice)
    ensures c.Exit? <==> parsed.NaN? || parsed.value == 0 || parsed.value > count
    ensures c.Select? <==> parsed.Int? && 1 <= parsed.value <= count
    ensures c.Select? ==> c.index < count && c.index + 1 == parsed.value
    ensures c.OutOfRange? <==> parsed.Int? && parsed.value < 0
  {
    if parsed.NaN? || parsed.value == 0 || parsed.value > count then Exit
    else if parsed.value >= 1 then Select(parsed.value - 1)
    else OutOfRange
  }

  // ------------------------------------------------------------ numerals

  /** The digit character for a value below 16, lower-case as `Number.prototype.toString` writes it. */
  function DigitChar(d: nat): (c: char)
    requires d < 16
    ensures DigitValue(c) == d
  {
    if d < 10 then ('0' as int + d) as char else ('a' as int + d - 10) as char
  }

  /** The facts about `n / radix` and `n % radix` that writing a numeral relies on. */
  lemma DivModRadix(n: nat, radix: nat)
    requires 2 <= radix <= 16
    ensures n % radix < radix
    ensures n >= radix ==> 1 <= n / radix < n
    ensures n < radix ==> n % radix == n
    ensures (n / radix) * radix + n % radix == n
  {
  }

  /** The numeral of `n` in radix `radix`, without leading zeros. */
  function Numeral(n: nat, radix: nat): (s: string)
    requires 2 <= radix <= 16
    ensures s != []
    ensures forall i :: 0 <= i < |s| ==> DigitValue(s[i]) < radix
    decreases n
  {
    DivModRadix(n, radix);
    var d := [DigitChar(n % radix)];
    if n < radix then d else Numeral(n / radix, radix) + d
  }

  /** Digits read at an offset of a longer text have the value they have on their own. */
  lemma {:induction false} DigitsValueAt(s: string, off: nat, ds: string, i: nat, radix: nat)
    requires i <= |ds| && off + |ds| <= |s|
    requires forall k :: 0 <= k < |ds| ==> s[off + k] == ds[k]
    ensures DigitsValue(s, off, off + i, radix) == DigitsValue(ds, 0, i, radix)
  {
    if i > 0 {
      DigitsValueAt(s, off, ds, i - 1, radix);
      assert s[off + i - 1] == ds[i - 1];
    }
  }

  /** The numeral of `n` denotes `n`. */
  lemma {:induction false} NumeralValue(n: nat, radix: nat)
    requires 2 <= radix <= 16
    ensures DigitsValue(Numeral(n, radix), 0, |Numeral(n, radix)|, radix) == n
    decreases n
  {
    var s := Numeral(n, radix);
    DivModRadix(n, radix);
    if n >= radix {
      var h := Numeral(n / radix, radix);
      var q := DigitsValue(s, 0, |h|, radix);
      assert q == n / radix by {
        NumeralValue(n / radix, radix);
        DigitsValueAt(s, 0, h, |h|, radix);
      }
      assert DigitsValue(s, 0, |s|, radix) == q * radix + n % radix by {
        assert s[|s| - 1] == DigitChar(n % radix);
      }
    }
  }

  /** A run of digits ending at `e` is read up to `e`. */
  lemma {:induction false} DigitRunTo(s: string, radix: nat, i: nat, e: nat)
    requires i <= e <= |s|
    requires forall k :: i <= k < e ==> DigitValue(s[k]) < radix
    requires e == |s| || DigitValue(s[e]) >= radix
    ensures DigitRunEnd(s, radix, i) == e
    decreases e - i
  {
    if i < e {
      DigitRunTo(s, radix, i + 1, e);
    }
  }

  /** Over a whitespace prefix, skipping goes on to the same place. */
  lemma {:induction false} SkipWhitespaceOverPrefix(w: string, t: string, i: nat)
    requires AllWhitespace(w) && i <= |w|
    ensures SkipWhitespace(w + t, i) == SkipWhitespace(w + t, |w|)
    decreases |w| - i
  {
    if i < |w| {
      assert (w + t)[i] == w[i];
      SkipWhitespaceOverPrefix(w, t, i + 1);
    }
  }

  /** Skipping inside the second part of a concatenation is skipping in that part, shifted. */
  lemma {:induction false} SkipWhitespaceShift(w: string, t: string, i: nat)
    requires i <= |t|
    ensures SkipWhitespace(w + t, |w| + i) == |w| + SkipWhitespace(t, i)
    decreases |t| - i
  {
    if i < |t| {
      assert (w + t)[|w| + i] == t[i];
      SkipWhitespaceShift(w, t, i + 1);
    }
  }

  /** Proof step: slicing past a prefix `w` of a concatenation is slicing its second part. */
  lemma DropPrefix(w: string, t: string, k: nat)
    requires k <= |t|
    ensures (w + t)[|w| + k..] == t[k..]
  {
  }

  /** Leading whitespace never changes what `parseInt` reads. */
  lemma ParseIntSkipsWhitespace(w: string, t: string)
    requires AllWhitespace(w)
    ensures ParseInt(w + t) == ParseInt(t)
  {
    SkipWhitespaceOverPrefix(w, t, 0);
    SkipWhitespaceShift(w, t, 0);
    var k := SkipWhitespace(t, 0);
    DropPrefix(w, t, k);
  }

  /** Proof step: regrouping a concatenation of four parts behind its first one. */
  lemma Regroup(w: string, a: string, b: string, c: string)
    ensures w + a + b + c == w + (a + b + c)
  {
  }

  /** Proof step: the same for five parts. */
  lemma RegroupHex(w: string, a: string, p: string, b: string, c: string)
    ensures w + a + p + b + c == w + (a + p + b + c)
  {
  }

  /** Whether `MagnitudeAt(s, j)` sees a `0x` or `0X` prefix. */
  predicate HexPrefixAt(s: string, j: nat) {
    j + 2 <= |s| && s[j] == '0' && (s[j + 1] == 'x' || s[j + 1] == 'X')
  }

  /** The longest run of radix-`radix` digits from `start` to `e`, read as their value. */
  lemma MagnitudeOfRun(s: string, j: nat, radix: nat, start: nat, e: nat)
    requires HexPrefixAt(s, j) <==> radix == 16
    requires radix == 10 || radix == 16
    requires start == if radix == 16 then j + 2 else j
    requires start < e <= |s|
    requires forall k :: start <= k < e ==> DigitValue(s[k]) < radix
    requires e == |s| || DigitValue(s[e]) >= radix
    ensures MagnitudeAt(s, j) == Some(DigitsValue(s, start, e, radix))
  {
    DigitRunTo(s, radix, start, e);
  }

  /** A numeral form: an optional sign, the radix prefix (none for decimal, `0x` or `0X` for hexadecimal) and digits. */
  predicate IsNumeralForm(sign: string, prefix: string, ds: string, radix: nat) {
    && (sign == [] || sign == "+" || sign == "-")
    && ((radix == 10 && prefix == []) || (radix == 16 && (prefix == "0x" || prefix == "0X")))
    && ds != [] && forall k :: 0 <= k < |ds| ==> DigitValue(ds[k]) < radix
  }

  /** The first character of `sign + prefix + ds + rest` is the sign, if any, and never whitespace. */
  lemma LayoutSign(sign: string, prefix: string, ds: string, rest: string, radix: nat)
    requires IsNumeralForm(sign, prefix, ds, radix)
    ensures var s := sign + prefix + ds + rest;
      && s != [] && !IsJsWhitespace(s[0])
      && |sign| == (if s[0] == '-' || s[0] == '+' then 1 else 0)
      && (s[0] == '-' <==> sign == "-")
  {
    var s := sign + prefix + ds + rest;
    if sign != [] {
      assert s[0] == sign[0];
    } else if prefix != [] {
      assert s[0] == prefix[0];
    } else {
      assert s[0] == ds[0];
      assert DigitValue(ds[0]) < radix;
    }
  }

  /** `MagnitudeAt` sees a hexadecimal prefix after the sign exactly when there is one. */
  lemma LayoutPrefix(sign: string, prefix: string, ds: string, rest: string, radix: nat)
    requires IsNumeralForm(sign, prefix, ds, radix)
    requires radix == 10 && ds == "0" && rest != [] ==> rest[0] != 'x' && rest[0] != 'X'
    ensures HexPrefixAt(sign + prefix + ds + rest, |sign|) <==> radix == 16
  {
    var s := sign + prefix + ds + rest;
    var j := |sign|;
    if radix == 16 {
      assert s[j] == prefix[0] && s[j + 1] == prefix[1];
    } else if |ds| >= 2 {
      assert s[j + 1] == ds[1];
      assert DigitValue(ds[1]) < 10;
    } else if j + 1 < |s| {
      assert s[j] == ds[0] && s[j + 1] == rest[0];
      if s[j] == '0' {
        assert ds == "0";
      }
    }
  }

  /** The digits of `pre + ds + rest` are those of `ds`, and the run ends where `rest` starts. */
  lemma LayoutDigits(pre: string, ds: string, rest: string, radix: nat)
    requires forall k :: 0 <= k < |ds| ==> DigitValue(ds[k]) < radix
    requires rest == [] || DigitValue(rest[0]) >= radix
    ensures var s := pre + ds + rest;
      var e := |pre| + |ds|;
      && (forall k :: |pre| <= k < e ==> DigitValue(s[k]) < radix)
      && (e == |s| || DigitValue(s[e]) >= radix)
      && DigitsValue(s, |pre|, e, radix) == DigitsValue(ds, 0, |ds|, radix)
  {
    var s := pre + ds + rest;
    var e := |pre| + |ds|;
    forall k | 0 <= k < |ds| ensures s[|pre| + k] == ds[k] {
    }
    forall k | |pre| <= k < e ensures DigitValue(s[k]) < radix {
      assert s[k] == ds[k - |pre|];
    }
    if e < |s| {
      assert s[e] == rest[0];
    }
    DigitsValueAt(s, |pre|, ds, |ds|, radix);
  }

  /**
   * A numeral form followed by `rest` reads as the value of its digits,
   * signed. The digits need not be canonical: leading zeros (`02` reads as
   * 2) and upper-case hexadecimal digits (`0xFF`) are read too. A lone
   * decimal `0` followed by `x` or `X` is left out: that is the
   * hexadecimal prefix instead.
   */
  lemma ParseIntOfForm(sign: string, prefix: string, ds: string, rest: string, radix: nat)
    requires IsNumeralForm(sign, prefix, ds, radix)
    requires rest == [] || DigitValue(rest[0]) >= radix
    requires radix == 10 && ds == "0" && rest != [] ==> rest[0] != 'x' && rest[0] != 'X'
    ensures var m := DigitsValue(ds, 0, |ds|, radix);
      ParseInt(sign + prefix + ds + rest) == Int(if sign == "-" then 0 - m else m)
  {
    var s := sign + prefix + ds + rest;
    var start := |sign| + |prefix|;
    var m := DigitsValue(ds, 0, |ds|, radix);
    assert MagnitudeAt(s, |sign|) == Some(m) by {
      LayoutPrefix(sign, prefix, ds, rest, radix);
      LayoutDigits(sign + prefix, ds, rest, radix);
      MagnitudeOfRun(s, |sign|, radix, start, start + |ds|);
    }
    LayoutSign(sign, prefix, ds, rest, radix);
    ParseIntOfMagnitude(s, |sign|, m);
  }

  /** With no whitespace in front, the sign applies to the magnitude after it. */
  lemma ParseIntOfMagnitude(s: string, j: nat, m: nat)
    requires s != [] && !IsJsWhitespace(s[0])
    requires j == (if s[0] == '-' || s[0] == '+' then 1 else 0)
    requires MagnitudeAt(s, j) == Some(m)
    ensures ParseInt(s) == Int(if s[0] == '-' then 0 - m else m)
  {
    assert SkipWhitespace(s, 0) == 0;
    assert s[0..] == s;
  }

  /**
   * What may follow the decimal numeral of `n` without being read as part of
   * it: nothing, or a character that is not a decimal digit and, after the
   * numeral `0`, not the `x` or `X` of a hexadecimal prefix.
   */
  predicate EndsDecimal(n: nat, rest: string) {
    rest == [] || (DigitValue(rest[0]) >= 10 && !(n == 0 && (rest[0] == 'x' || rest[0] == 'X')))
  }

  /**
   * An answer typed as optional whitespace, an optional sign, a decimal
   * numeral and then anything `parseInt` does not read as part of it (so
   * `2nd` as well as `2`) parses to that signed number.
   */
  lemma ParseIntDecimal(w: string, sign: string, n: nat, rest: string)
    requires AllWhitespace(w)
    requires sign == [] || sign == "+" || sign == "-"
    requires EndsDecimal(n, rest)
    ensures ParseInt(w + sign + Numeral(n, 10) + rest) == Int(if sign == "-" then 0 - n else n)
  {
    var t := sign + Numeral(n, 10) + rest;
    Regroup(w, sign, Numeral(n, 10), rest);
    ParseIntSkipsWhitespace(w, t);
    ParseIntNumeral(sign, n, rest);
  }

  /** The same without leading whitespace. */
  lemma ParseIntNumeral(sign: string, n: nat, rest: string)
    requires sign == [] || sign == "+" || sign == "-"
    requires EndsDecimal(n, rest)
    ensures ParseInt(sign + Numeral(n, 10) + rest) == Int(if sign == "-" then 0 - n else n)
  {
    var ds := Numeral(n, 10);
    NumeralValue(n, 10);
    assert ds == "0" ==> n == 0;
    ParseIntOfForm(sign, [], ds, rest, 10);
    assert sign + [] == sign;
  }

  /**
   * An answer typed as optional whitespace, an optional sign, `0x` or `0X`
   * and a hexadecimal numeral, then anything that is not a hexadecimal
   * digit, parses to that signed number.
   */
  lemma ParseIntHex(w: string, sign: string, prefix: string, n: nat, rest: string)
    requires AllWhitespace(w)
    requires sign == [] || sign == "+" || sign == "-"
    requires prefix == "0x" || prefix == "0X"
    requires rest == [] || DigitValue(rest[0]) >= 16
    ensures ParseInt(w + sign + prefix + Numeral(n, 16) + rest) == Int(if sign == "-" then 0 - n else n)
  {
    var t := sign + prefix + Numeral(n, 16) + rest;
    RegroupHex(w, sign, prefix, Numeral(n, 16), rest);
    ParseIntSkipsWhitespace(w, t);
    ParseIntHexNumeral(sign, prefix, n, rest);
  }

  /** The same without leading whitespace. */
  lemma ParseIntHexNumeral(sign: string, prefix: string, n: nat, rest: string)
    requires sign == [] || sign == "+" || sign == "-"
    requires prefix == "0x" || prefix == "0X"
    requires rest == [] || DigitValue(rest[0]) >= 16
    ensures ParseInt(sign + prefix + Numeral(n, 16) + rest) == Int(if sign == "-" then 0 - n else n)
  {
    NumeralValue(n, 16);
    ParseIntOfForm(sign, prefix, Numeral(n, 16), rest, 16);
  }

  /** An answer typed as the decimal numeral of `n`, after any whitespace, parses to `n`. */
  lemma ParseIntOfNumber(w: string, n: nat)
    requires AllWhitespace(w)
    ensures ParseInt(w + Numeral(n, 10)) == Int(n)
  {
    var d := Numeral(n, 10);
    assert [] + d + [] == d;
    ParseIntNumeral([], n, []);
    ParseIntSkipsWhitespace(w, d);
  }

  /**
   * An answer whose first character after the whitespace and an optional
   * sign is not a decimal digit parses to `NaN`, whatever digits come later
   * (`a1`, `-x2`, `Item 2`). Without a sign, that character is itself no
   * whitespace and no sign, since those would be skipped or read as one.
   */
  lemma ParseIntNoLeadingDigit(w: string, sign: string, rest: string)
    requires AllWhitespace(w)
    requires sign == [] || sign == "+" || sign == "-"
    requires rest == [] || !('0' <= rest[0] <= '9')
    requires sign == [] && rest != [] ==> !IsJsWhitespace(rest[0]) && rest[0] != '+' && rest[0] != '-'
    ensures ParseInt(w + sign + rest) == NaN
  {
    RegroupSign(w, sign, rest);
    ParseIntSkipsWhitespace(w, sign + rest);
    NoLeadingDigitAtStart(sign, rest);
  }

  /** The same without leading whitespace. */
  lemma NoLeadingDigitAtStart(sign: string, rest: string)
    requires sign == [] || sign == "+" || sign == "-"
    requires rest == [] || !('0' <= rest[0] <= '9')
    requires sign == [] && rest != [] ==> !IsJsWhitespace(rest[0]) && rest[0] != '+' && rest[0] != '-'
    ensures ParseInt(sign + rest) == NaN
  {
    var t := sign + rest;
    var j := |sign|;
    if t != [] {
      assert t[0] == if sign != [] then sign[0] else rest[0];
    }
    assert SkipWhitespace(t, 0) == 0;
    assert t[0..] == t;
    if j < |t| {
      assert t[j] == rest[0];
    }
    assert !HexPrefixAt(t, j);
    assert DigitRunEnd(t, 10, j) == j;
  }

  /**
   * `0x` or `0X` followed by no hexadecimal digit (`0xg`, a bare `0x`)
   * parses to `NaN`: once the prefix is seen, only hexadecimal digits count.
   */
  lemma ParseIntEmptyHex(w: string, sign: string, prefix: string, rest: string)
    requires AllWhitespace(w)
    requires sign == [] || sign == "+" || sign == "-"
    requires prefix == "0x" || prefix == "0X"
    requires rest == [] || DigitValue(rest[0]) >= 16
    ensures ParseInt(w + sign + prefix + rest) == NaN
  {
    RegroupSign(w, sign + prefix, rest);
    assert w + sign + prefix + rest == w + (sign + prefix) + rest;
    ParseIntSkipsWhitespace(w, sign + prefix + rest);
    EmptyHexAtStart(sign, prefix, rest);
  }

  /** The same without leading whitespace. */
  lemma EmptyHexAtStart(sign: string, prefix: string, rest: string)
    requires sign == [] || sign == "+" || sign == "-"
    requires prefix == "0x" || prefix == "0X"
    requires rest == [] || DigitValue(rest[0]) >= 16
    ensures ParseInt(sign + prefix + rest) == NaN
  {
    var t := sign + prefix + rest;
    var j := |sign|;
    assert t[0] == if sign != [] then sign[0] else prefix[0];
    assert SkipWhitespace(t, 0) == 0;
    assert t[0..] == t;
    assert t[j] == prefix[0] && t[j + 1] == prefix[1];
    assert HexPrefixAt(t, j);
    if j + 2 < |t| {
      assert t[j + 2] == rest[0];
    }
    assert DigitRunEnd(t, 16, j + 2) == j + 2;
  }

  /** Proof step: regrouping a concatenation of three parts behind its first one. */
  lemma RegroupSign(w: string, a: string, b: string)
    ensures w + a + b == w + (a + b)
  {
  }

  /** An answer holding no decimal digit at all parses to `NaN`. */
  lemma ParseIntWithoutDigits(input: string)
    requires forall i :: 0 <= i < |input| ==> !('0' <= input[i] <= '9')
    ensures ParseInt(input) == NaN
  {
    FirstDigitNone(input, 0);
  }

  /**
   * Typing the number of a listing (with any whitespace before it and
   * anything `parseInt` stops at after it) selects that listing; typing 0
   * or a number past the end exits; typing a negative number reaches the
   * out-of-range access.
   */
  lemma ChoiceOfTypedNumber(count: nat, w: string, sign: string, n: nat, rest: string)
    requires AllWhitespace(w)
    requires sign == [] || sign == "+" || sign == "-"
    requires EndsDecimal(n, rest)
    ensures sign != "-" && 1 <= n <= count ==>
      Decide(count, ParseInt(w + sign + Numeral(n, 10) + rest)) == Select(n - 1)
    ensures n == 0 || (sign != "-" && n > count) ==>
      Decide(count, ParseInt(w + sign + Numeral(n, 10) + rest)) == Exit
    ensures sign == "-" && n > 0 ==>
      Decide(count, ParseInt(w + sign + Numeral(n, 10) + rest)) == OutOfRange
  {
    ParseIntDecimal(w, sign, n, rest);
  }
}
