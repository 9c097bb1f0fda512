/**
 * The `Label: value` extractor used for every listing and detail field: the
 * regular expression `Label:\s*([^\n]+)` matched against a text block with
 * `String.prototype.match`, its capture trimmed, and `'Unknown'` standing in
 * for a missing match or an empty capture.
 */
module LabelField {
  import opened Common
  import opened JsStrings

  const Unknown: string := "Unknown"

  const LanguageLabel: string := "Language:"
  const CategoryLabel: string := "Category:"
  const FormatLabel: string := "Format:"
  const SizeLabel: string := "Size:"
  const AuthorLabel: string := "Author:"
  const NarratorLabel: string := "Read by:"
  const BitrateLabel: string := "Bitrate:"

  /** A literal label the pattern starts with: non-empty and on one line. */
  predicate IsLabel(key: string) {
    key != [] && '\n' !in key
  }

  predicate OccursAt(key: string, s: string, i: nat) {
    i + |key| <= |s| && s[i..i + |key|] == key
  }

  /** A field value as the program stores it: `'Unknown'`, or a non-empty single line trimmed at both ends. */
  predicate IsFieldValue(r: string) {
    || r == Unknown
    || (r != [] && '\n' !in r && !IsJsWhitespace(r[0]) && !IsJsWhitespace(r[|r| - 1]))
  }

  /** Where the greedy `[^\n]+` starting at `m` stops: the next line feed, or the end. */
  function LineEnd(s: string, m: nat): (e: nat)
    requires m <= |s|
    ensures m <= e <= |s|
    ensures forall p :: m <= p < e ==> s[p] != '\n'
    ensures e == |s| || s[e] == '\n'
    decreases |s| - m
  {
    if m < |s| && s[m] != '\n' then LineEnd(s, m + 1) else m
  }

  /**
   * Backtracking `\s*` from its greedy end `m` down to `j`: the first
   * position, counting down, at which `[^\n]+` can match one character.
   */
  function CaptureStart(s: string, j: nat, m: nat): (r: Option<nat>)
    requires j <= m <= |s|
    ensures r.Some? ==> j <= r.value <= m && r.value < |s| && s[r.value] != '\n'
    ensures r.Some? ==> forall p :: r.value < p <= m ==> p == |s| || s[p] == '\n'
    ensures r.None? ==> forall p :: j <= p <= m ==> p == |s| || s[p] == '\n'
    decreases m - j
  {
    if m < |s| && s[m] != '\n' then Some(m)
    else if m == j then None
    else CaptureStart(s, j, m - 1)
  }

  /** The capture of `\s*([^\n]+)` matched at position `j`, if it matches there. */
  function CaptureAfter(s: string, j: nat): (r: Option<string>)
    requires j <= |s|
    ensures r.Some? ==> r.value != [] && '\n' !in r.value
  {
    match CaptureStart(s, j, SkipWhitespace(s, j))
    case None => None
    case Some(m) => Some(s[m..LineEnd(s, m)])
  }

  /** The capture of `label\s*([^\n]+)` matched at position `i`, if it matches there. */
  function MatchAt(key: string, s: string, i: nat): (r: Option<string>)
    requires i <= |s|
    ensures r.Some? ==> r.value != [] && '\n' !in r.value
  {
    if OccursAt(key, s, i) then CaptureAfter(s, i + |key|) else None
  }

  /** The leftmost match at or after `i`: the regular expression engine tries each start in turn. */
  function FirstMatchFrom(key: string, s: string, i: nat): (r: Option<string>)
    requires i <= |s|
    ensures r.Some? ==> r.value != [] && '\n' !in r.value
    decreases |s| - i
  {
    match MatchAt(key, s, i)
    case Some(c) => Some(c)
    case None => if i == |s| then None else FirstMatchFrom(key, s, i + 1)
  }

  /**
   * `(text.match(/label\s*([^\n]+)/) || [])[1]`: the capture group, or
   * `undefined`; what `([^\n]+)` captures is never empty and never spans a
   * line feed.
   */
  function Capture(key: string, s: string): (r: Option<string>)
    ensures r.Some? ==> r.value != [] && '\n' !in r.value
  {
    FirstMatchFrom(key, s, 0)
  }

  /** `capture?.trim() || 'Unknown'` for a capture on one line. */
  function FieldOf(capture: Option<string>): (r: string)
    requires capture.Some? ==> '\n' !in capture.value
    ensures IsFieldValue(r)
  {
    if capture.None? then Unknown
    else
      var t := Trim(capture.value);
      TrimKeepsAbsent(capture.value, '\n');
      if t == [] then Unknown
      else
        assert !IsJsWhitespace(t[0]) && !IsJsWhitespace(t[|t| - 1]);
        t
  }

  /** The field the program stores for a label: the trimmed capture, or `'Unknown'`. */
  function LabelValue(key: string, s: string): (r: string)
    ensures IsFieldValue(r)
  {
    FieldOf(Capture(key, s))
  }

  // -------------------------------------------------------------- reference

  /**
   * The reading of the pattern without backtracking: skip the whitespace
   * (line feeds included) after the label, then take the rest of that line,
   * trimmed; nothing but whitespace up to the end gives `'Unknown'`.
   */
  function ValueAfter(s: string, j: nat): string
    requires j <= |s|
  {
    var k := SkipWhitespace(s, j);
    if k == |s| then Unknown else Trim(s[k..LineEnd(s, k)])
  }

  lemma {:induction false} SkipNonOccurrences(key: string, s: string, p: nat, i: nat)
    requires p <= i <= |s|
    requires forall q :: p <= q < i ==> !OccursAt(key, s, q)
    ensures FirstMatchFrom(key, s, p) == FirstMatchFrom(key, s, i)
    decreases i - p
  {
    if p < i {
      SkipNonOccurrences(key, s, p + 1, i);
    }
  }

  lemma NoMatchWithoutOccurrence(key: string, s: string, p: nat)
    requires p <= |s|
    requires forall q :: p <= q <= |s| ==> !OccursAt(key, s, q)
    ensures FirstMatchFrom(key, s, p) == None
  {
    SkipNonOccurrences(key, s, p, |s|);
  }

  /** A label cannot end inside a run of line feeds that closes the text. */
  lemma NoOccurrenceAmongLineFeeds(key: string, s: string, j: nat, from: nat)
    requires IsLabel(key) && j <= |s|
    requires forall p :: j <= p < |s| ==> s[p] == '\n'
    requires j < from + |key|
    ensures forall q :: from <= q <= |s| ==> !OccursAt(key, s, q)
  {
    forall q | from <= q <= |s| ensures !OccursAt(key, s, q) {
      if q + |key| <= |s| {
        var last := q + |key| - 1;
        assert s[q..q + |key|][|key| - 1] == s[last] == '\n';
        assert key[|key| - 1] != '\n';
      }
    }
  }

  /** Where the pattern matches after the label, the stored field is the reference reading. */
  lemma CaptureAfterFound(s: string, j: nat)
    requires j <= |s| && CaptureAfter(s, j).Some?
    ensures FieldOf(CaptureAfter(s, j)) == ValueAfter(s, j)
  {
    var k := SkipWhitespace(s, j);
    var m := CaptureStart(s, j, k).value;
    var c := s[m..LineEnd(s, m)];
    if m < k {
      assert k == |s|;
      assert LineEnd(s, m) == m + 1;
      assert AllWhitespace(c);
    } else {
      assert !AllWhitespace(c) by { assert c[0] == s[k]; }
    }
  }

  /** Either way, the stored field of the capture after `j` is the reference reading. */
  lemma FieldOfCaptureAfter(s: string, j: nat)
    requires j <= |s|
    ensures FieldOf(CaptureAfter(s, j)) == ValueAfter(s, j)
  {
    if CaptureAfter(s, j).Some? {
      CaptureAfterFound(s, j);
    } else {
      CaptureAfterMissing(s, j);
    }
  }

  /** Where it does not, the rest of the text is line feeds only. */
  lemma CaptureAfterMissing(s: string, j: nat)
    requires j <= |s| && CaptureAfter(s, j).None?
    ensures SkipWhitespace(s, j) == |s|
    ensures forall p :: j <= p < |s| ==> s[p] == '\n'
  {
  }

  /**
   * The regular expression captures at the FIRST occurrence of the label,
   * wherever it sits (mid-line, or inside a longer word): when the pattern
   * fails there, no later occurrence exists either.
   */
  lemma CaptureAtFirstOccurrence(key: string, s: string, i: nat)
    requires IsLabel(key)
    requires OccursAt(key, s, i)
    requires forall p :: 0 <= p < i ==> !OccursAt(key, s, p)
    ensures Capture(key, s) == CaptureAfter(s, i + |key|)
  {
    SkipNonOccurrences(key, s, 0, i);
    var j := i + |key|;
    if CaptureAfter(s, j).None? {
      CaptureAfterMissing(s, j);
      NoOccurrenceAmongLineFeeds(key, s, j, i + 1);
      NoMatchWithoutOccurrence(key, s, i + 1);
    }
  }

  /** The stored field is the reference reading of the text after the first occurrence of the label. */
  lemma LabelValueFirstOccurrence(key: string, s: string, i: nat)
    requires IsLabel(key)
    requires OccursAt(key, s, i)
    requires forall p :: 0 <= p < i ==> !OccursAt(key, s, p)
    ensures LabelValue(key, s) == ValueAfter(s, i + |key|)
  {
    var j := i + |key|;
    var c := Capture(key, s);
    CaptureAtFirstOccurrence(key, s, i);
    assert c == CaptureAfter(s, j);
    FieldOfCaptureAfter(s, j);
    assert LabelValue(key, s) == FieldOf(c);
  }

  /** Without an occurrence of the label the field is `'Unknown'`. */
  lemma LabelValueAbsent(key: string, s: string)
    requires forall p :: 0 <= p <= |s| ==> !OccursAt(key, s, p)
    ensures LabelValue(key, s) == Unknown
  {
    NoMatchWithoutOccurrence(key, s, 0);
  }

  lemma {:induction false} LineEndAt(s: string, m: nat, e: nat)
    requires m <= e <= |s|
    requires forall p :: m <= p < e ==> s[p] != '\n'
    requires e == |s| || s[e] == '\n'
    ensures LineEnd(s, m) == e
    decreases e - m
  {
    if m < e {
      LineEndAt(s, m + 1, e);
    }
  }

  /** Where `\s*` stops inside a stretch of text `v` that is not all whitespace. */
  lemma LeadingWhitespaceOf(s: string, j: nat, v: string) returns (d: nat)
    requires j + |v| <= |s| && s[j..j + |v|] == v
    requires !AllWhitespace(v)
    ensures d < |v| && SkipWhitespace(s, j) == j + d
    ensures AllWhitespace(v[..d])
  {
    var k := SkipWhitespace(s, j);
    var i :| 0 <= i < |v| && !IsJsWhitespace(v[i]);
    assert s[j + i] == v[i];
    d := k - j;
    forall p | 0 <= p < d ensures IsJsWhitespace(v[..d][p]) {
      assert v[..d][p] == s[j + p];
    }
  }

  /** The reference reading once the ends of the whitespace and of the line are known. */
  lemma ValueAfterAt(s: string, j: nat, v: string, d: nat)
    requires d < |v| && j + |v| <= |s|
    requires SkipWhitespace(s, j) == j + d && LineEnd(s, j + d) == j + |v|
    requires s[j + d..j + |v|] == v[d..] && AllWhitespace(v[..d])
    ensures ValueAfter(s, j) == Trim(v)
  {
    assert ValueAfter(s, j) == Trim(v[d..]);
    TrimDropsWhitespacePrefix(v, d);
  }

  /** The reference reading of a line holding `v`, ended by a line feed or the end of the text. */
  lemma ValueAfterLine(s: string, j: nat, v: string)
    requires j + |v| <= |s| && s[j..j + |v|] == v
    requires '\n' !in v && !AllWhitespace(v)
    requires j + |v| == |s| || s[j + |v|] == '\n'
    ensures ValueAfter(s, j) == Trim(v)
  {
    var d := LeadingWhitespaceOf(s, j, v);
    var k := j + d;
    forall p | k <= p < j + |v| ensures s[p] != '\n' {
      assert s[p] == v[p - j];
    }
    LineEndAt(s, k, j + |v|);
    assert s[k..j + |v|] == v[d..];
    ValueAfterAt(s, j, v, d);
  }

  /**
   * Reading back a field written as `key value` at the start of the text
   * and ended by a line feed (or the end) gives the trimmed value.
   */
  lemma LabelValueRoundTrip(key: string, v: string, rest: string)
    requires IsLabel(key)
    requires '\n' !in v && !AllWhitespace(v)
    requires rest == [] || rest[0] == '\n'
    ensures LabelValue(key, key + v + rest) == Trim(v)
  {
    var s := key + v + rest;
    assert OccursAt(key, s, 0) by { assert s[..|key|] == key; }
    LabelValueFirstOccurrence(key, s, 0);
    assert s[|key|..|key| + |v|] == v;
    ValueAfterLine(s, |key|, v);
  }
}
