/** String operations the source takes from Rust's standard library:
    anchored matching (`^X` / `X$` patterns), `trim`, `trim_start`,
    `split_whitespace`, `trim_end_matches` and the ordering of `str`. */
module Text {

  /** `p` is a prefix of `s` (the pattern `^p` for a literal `p`). */
  predicate IsPrefix(p: string, s: string) {
    |p| <= |s| && s[..|p|] == p
  }

  /** `p` is a suffix of `s` (the pattern `p$` for a literal `p`). */
  predicate IsSuffix(p: string, s: string) {
    |p| <= |s| && s[|s| - |p|..] == p
  }

  /** Rust's `char::is_whitespace`: the Unicode White_Space property. */
  predicate IsWhitespace(c: char) {
    ('\U{9}' <= c <= '\U{D}') || c == '\U{20}' || c == '\U{85}' || c == '\U{A0}'
    || c == '\U{1680}' || ('\U{2000}' <= c <= '\U{200A}') || c == '\U{2028}'
    || c == '\U{2029}' || c == '\U{202F}' || c == '\U{205F}' || c == '\U{3000}'
  }

  predicate NoWhitespace(s: string) {
    forall i :: 0 <= i < |s| ==> !IsWhitespace(s[i])
  }

  predicate AllWhitespace(s: string) {
    forall i :: 0 <= i < |s| ==> IsWhitespace(s[i])
  }

  /** The position of the first non-whitespace character of `s` at or
      after `i` (`|s|` when there is none). */
  function SkipWhitespace(s: string, i: nat): (k: nat)
    requires i <= |s|
    ensures i <= k <= |s| && (k == |s| || !IsWhitespace(s[k]))
    ensures forall m :: i <= m < k ==> IsWhitespace(s[m])
    decreases |s| - i
  {
    if i < |s| && IsWhitespace(s[i]) then SkipWhitespace(s, i + 1) else i
  }

  /** The position of the first whitespace character of `s` at or after
      `i` (`|s|` when there is none). */
  function SkipWord(s: string, i: nat): (k: nat)
    requires i <= |s|
    ensures i <= k <= |s| && (k == |s| || IsWhitespace(s[k]))
    ensures forall m :: i <= m < k ==> !IsWhitespace(s[m])
    decreases |s| - i
  {
    if i < |s| && !IsWhitespace(s[i]) then SkipWord(s, i + 1) else i
  }

  /** The length of `s[..j]` once its trailing whitespace is dropped. */
  function SkipWhitespaceBack(s: string, j: nat): (k: nat)
    requires j <= |s|
    ensures k <= j && (k == 0 || !IsWhitespace(s[k - 1]))
    ensures forall m :: k <= m < j ==> IsWhitespace(s[m])
  {
    if j > 0 && IsWhitespace(s[j - 1]) then SkipWhitespaceBack(s, j - 1) else j
  }

  /** `str::trim_start`. */
  function TrimStart(s: string): string {
    s[SkipWhitespace(s, 0)..]
  }

  /** `str::trim_end`. */
  function TrimEnd(s: string): string {
    s[..SkipWhitespaceBack(s, |s|)]
  }

  /** `str::trim`. */
  function Trim(s: string): string {
    TrimEnd(TrimStart(s))
  }

  /** `trim_start` drops the leading whitespace and nothing else. */
  lemma TrimStartSpec(s: string)
    ensures IsSuffix(TrimStart(s), s)
    ensures AllWhitespace(s[..|s| - |TrimStart(s)|])
    ensures TrimStart(s) == [] || !IsWhitespace(TrimStart(s)[0])
  {
  }

  /** `trim_end` drops the trailing whitespace and nothing else. */
  lemma TrimEndSpec(s: string)
    ensures IsPrefix(TrimEnd(s), s)
    ensures AllWhitespace(s[|TrimEnd(s)|..])
    ensures TrimEnd(s) == [] || !IsWhitespace(TrimEnd(s)[|TrimEnd(s)| - 1])
  {
  }

  /** The whitespace-separated fields of `s` from position `i` on. */
  function SplitFrom(s: string, i: nat): seq<string>
    requires i <= |s|
    decreases |s| - i
  {
    var start := SkipWhitespace(s, i);
    if start == |s| then []
    else
      var end := SkipWord(s, start);
      [s[start..end]] + SplitFrom(s, end)
  }

  /** `str::split_whitespace`: the maximal runs of non-whitespace, in order. */
  function SplitWhitespace(s: string): seq<string> {
    SplitFrom(s, 0)
  }

  /** Every field is a non-empty run of non-whitespace characters. */
  lemma {:induction false} SplitFromFields(s: string, i: nat)
    requires i <= |s|
    ensures forall k :: 0 <= k < |SplitFrom(s, i)| ==>
              SplitFrom(s, i)[k] != [] && NoWhitespace(SplitFrom(s, i)[k])
    decreases |s| - i
  {
    var start := SkipWhitespace(s, i);
    if start < |s| {
      var end := SkipWord(s, start);
      SplitFromFields(s, end);
      var w := s[start..end];
      assert NoWhitespace(w) by {
        forall m | 0 <= m < |w| ensures !IsWhitespace(w[m]) {
          assert w[m] == s[start + m];
        }
      }
    }
  }

  lemma SplitWhitespaceFields(s: string)
    ensures forall k :: 0 <= k < |SplitWhitespace(s)| ==>
              SplitWhitespace(s)[k] != [] && NoWhitespace(SplitWhitespace(s)[k])
  {
    SplitFromFields(s, 0);
  }

  /** `str::trim_end_matches(c)` for one character: drops every trailing `c`. */
  function TrimEndMatches(s: string, c: char): (r: string)
    ensures IsPrefix(r, s) && (r == [] || r[|r| - 1] != c)
    ensures forall i :: |r| <= i < |s| ==> s[i] == c
  {
    if s != [] && s[|s| - 1] == c then TrimEndMatches(s[..|s| - 1], c) else s
  }

  /** Strict lexicographic order on strings. UTF-8 preserves code-point
      order, so this is the byte-wise order Rust's `str` sorts by. */
  predicate Below(a: string, b: string) {
    if a == [] then b != []
    else if b == [] then false
    else a[0] < b[0] || (a[0] == b[0] && Below(a[1..], b[1..]))
  }

  lemma {:induction false} BelowIrreflexive(a: string)
    ensures !Below(a, a)
  {
    if a != [] {
      BelowIrreflexive(a[1..]);
    }
  }

  lemma {:induction false} BelowTransitive(a: string, b: string, c: string)
    requires Below(a, b) && Below(b, c)
    ensures Below(a, c)
  {
    if a != [] && b != [] && c != [] && a[0] == b[0] == c[0] {
      BelowTransitive(a[1..], b[1..], c[1..]);
    }
  }

  lemma {:induction false} BelowTotal(a: string, b: string)
    ensures a == b || Below(a, b) || Below(b, a)
  {
    if a != [] && b != [] && a[0] == b[0] {
      BelowTotal(a[1..], b[1..]);
      if a[1..] == b[1..] {
        assert a == [a[0]] + a[1..] && b == [b[0]] + b[1..];
      }
    }
  }

  lemma {:induction false} BelowAsymmetric(a: string, b: string)
    requires Below(a, b)
    ensures !Below(b, a)
  {
    if a != [] && b != [] && a[0] == b[0] {
      BelowAsymmetric(a[1..], b[1..]);
    }
  }
}
