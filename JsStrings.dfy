/**
 * The few ECMAScript string built-ins the program relies on:
 * `String.prototype.trim`, `startsWith` and (restricted to ASCII)
 * `toLowerCase`. It also holds `split` with a one-character separator,
 * which the program never calls: the properties below use it to state how
 * a magnet link breaks into its `&`-separated fields.
 */
module JsStrings {

  /**
   * ECMAScript WhiteSpace and LineTerminator code points. `trim`, `parseInt`
   * and the regular expression class `\s` all use exactly this set.
   */
  predicate IsJsWhitespace(c: char) {
    // WhiteSpace: TAB, VT, FF, ZWNBSP and the Space_Separator category
    || c == '\t' || c == '\U{B}' || c == '\U{C}' || c == '\U{FEFF}'
    || c == ' ' || c == '\U{A0}' || c == '\U{1680}'
    || ('\U{2000}' <= c <= '\U{200A}')
    || c == '\U{202F}' || c == '\U{205F}' || c == '\U{3000}'
    // LineTerminator: LF, CR, LS, PS
    || c == '\n' || c == '\r' || c == '\U{2028}' || c == '\U{2029}'
  }

  predicate AllWhitespace(s: string) {
    forall i :: 0 <= i < |s| ==> IsJsWhitespace(s[i])
  }

  predicate StartsWith(s: string, prefix: string) {
    |prefix| <= |s| && s[..|prefix|] == prefix
  }

  /** The first position at or after `i` that does not hold whitespace, or the end. */
  function SkipWhitespace(s: string, i: nat): (k: nat)
    requires i <= |s|
    ensures i <= k <= |s|
    ensures forall p :: i <= p < k ==> IsJsWhitespace(s[p])
    ensures k == |s| || !IsJsWhitespace(s[k])
    decreases |s| - i
  {
    if i < |s| && IsJsWhitespace(s[i]) then SkipWhitespace(s, i + 1) else i
  }

  /** The position just after the last non-whitespace character of `s[lo..e]`, or `lo`. */
  function SkipWhitespaceBack(s: string, lo: nat, e: nat): (k: nat)
    requires lo <= e <= |s|
    ensures lo <= k <= e
    ensures forall p :: k <= p < e ==> IsJsWhitespace(s[p])
    ensures k == lo || !IsJsWhitespace(s[k - 1])
    decreases e - lo
  {
    if lo < e && IsJsWhitespace(s[e - 1]) then SkipWhitespaceBack(s, lo, e - 1) else e
  }

  /**
   * `String.prototype.trim`: neither end of the result is whitespace, and the
   * result is empty exactly when `s` is all whitespace.
   */
  function Trim(s: string): (r: string)
    ensures |r| <= |s|
    ensures r == [] || (!IsJsWhitespace(r[0]) && !IsJsWhitespace(r[|r| - 1]))
    ensures r == [] <==> AllWhitespace(s)
  {
    var a := SkipWhitespace(s, 0);
    var b := SkipWhitespaceBack(s, a, |s|);
    assert a < b ==> !AllWhitespace(s);
    s[a..b]
  }

  /**
   * `trim` is determined by where it cuts: any slice of `s` between an
   * all-whitespace prefix and an all-whitespace suffix whose own ends are not
   * whitespace is the trimmed string.
   */
  lemma TrimIsSliceBetween(s: string, a: nat, b: nat)
    requires a <= b <= |s|
    requires forall p :: 0 <= p < a ==> IsJsWhitespace(s[p])
    requires forall p :: b <= p < |s| ==> IsJsWhitespace(s[p])
    requires a < b ==> !IsJsWhitespace(s[a]) && !IsJsWhitespace(s[b - 1])
    ensures Trim(s) == s[a..b]
  {
    var start := SkipWhitespace(s, 0);
    if a < b {
      assert start == a;
      assert SkipWhitespaceBack(s, a, |s|) == b;
    } else {
      assert start == |s|;
    }
  }

  /** Trimming never introduces a character that was not there. */
  lemma TrimKeepsAbsent(s: string, ch: char)
    requires ch !in s
    ensures ch !in Trim(s)
  {
    var a := SkipWhitespace(s, 0);
    forall i | 0 <= i < |Trim(s)| ensures Trim(s)[i] != ch {
      assert Trim(s)[i] == s[a + i];
    }
  }

  /** Trimming a string with no whitespace at either end changes nothing. */
  lemma TrimUnchanged(s: string)
    requires s == [] || (!IsJsWhitespace(s[0]) && !IsJsWhitespace(s[|s| - 1]))
    ensures Trim(s) == s
  {
    TrimIsSliceBetween(s, 0, |s|);
  }

  /** `trim` is idempotent. */
  lemma TrimIdempotent(s: string)
    ensures Trim(Trim(s)) == Trim(s)
  {
    TrimUnchanged(Trim(s));
  }

  /** Trimming ignores a whitespace prefix. */
  lemma TrimDropsWhitespacePrefix(s: string, d: nat)
    requires d <= |s| && AllWhitespace(s[..d])
    ensures Trim(s) == Trim(s[d..])
  {
    var t := s[d..];
    var a := SkipWhitespace(t, 0);
    var b := SkipWhitespaceBack(t, a, |t|);
    forall p | 0 <= p < d + a ensures IsJsWhitespace(s[p]) {
      if p < d {
        assert s[..d][p] == s[p];
      } else {
        assert t[p - d] == s[p];
      }
    }
    forall p | d + b <= p < |s| ensures IsJsWhitespace(s[p]) {
      assert t[p - d] == s[p];
    }
    assert a < b ==> t[a] == s[d + a] && t[b - 1] == s[d + b - 1];
    TrimIsSliceBetween(s, d + a, d + b);
    assert s[d + a..d + b] == t[a..b];
  }

  /** `toLowerCase` on the ASCII range; every other character is kept. */
  function AsciiLower(c: char): (r: char)
    ensures 'A' <= c <= 'Z' ==> 'a' <= r <= 'z' && r as int - c as int == 32
    ensures !('A' <= c <= 'Z') ==> r == c
  {
    if 'A' <= c <= 'Z' then (c as int + 32) as char else c
  }

  function ToLowerCase(s: string): (r: string)
    ensures |r| == |s|
    ensures forall i :: 0 <= i < |s| ==> r[i] == AsciiLower(s[i])
  {
    if s == [] then [] else [AsciiLower(s[0])] + ToLowerCase(s[1..])
  }

  /** Lower-casing leaves no ASCII capital behind and is idempotent. */
  lemma ToLowerCaseIdempotent(s: string)
    ensures forall i :: 0 <= i < |s| ==> !('A' <= ToLowerCase(s)[i] <= 'Z')
    ensures ToLowerCase(ToLowerCase(s)) == ToLowerCase(s)
  {
  }

  /** `String.prototype.split` with a one-character separator. */
  function Split(s: string, sep: char): (r: seq<string>)
    ensures |r| >= 1
  {
    if s == [] then [""]
    else
      var rest := Split(s[1..], sep);
      if s[0] == sep then [""] + rest else [[s[0]] + rest[0]] + rest[1..]
  }

  /** A string without the separator splits into itself. */
  lemma {:induction false} SplitNoSeparator(s: string, sep: char)
    requires sep !in s
    ensures Split(s, sep) == [s]
  {
    if s != [] {
      SplitNoSeparator(s[1..], sep);
      assert [s[0]] + s[1..] == s;
    }
  }

  /** The first separator ends the first field. */
  lemma {:induction false} SplitAtFirst(a: string, sep: char, b: string)
    requires sep !in a
    ensures Split(a + [sep] + b, sep) == [a] + Split(b, sep)
  {
    if a != [] {
      assert (a + [sep] + b)[1..] == a[1..] + [sep] + b;
      SplitAtFirst(a[1..], sep, b);
      assert [a[0]] + a[1..] == a;
    } else {
      assert (a + [sep] + b)[1..] == b;
    }
  }
}
