/**
 * The JavaScript string operations the blog code relies on, over `string`
 * (a sequence of characters): ASCII `toLowerCase`, the white space of `\s`
 * and `trim`, `includes`, the lengths `split` produces, and the order the
 * default `Array.prototype.sort` puts strings in.
 *
 * Most functions walk the string by index rather than by `s[1..]`, so that
 * Dafny can evaluate them on string literals.
 */
module JsString {

  /**
   * The code points JavaScript's `\s` and `String.prototype.trim` treat as
   * white space: ECMAScript's WhiteSpace (tab, vertical tab, form feed,
   * space, no-break space, byte order mark and the Zs category) and
   * LineTerminator (line feed, carriage return, U+2028, U+2029).
   */
  predicate IsSpace(c: char)
  {
    || c == '\t' || c == '\n' || c == '\U{000B}' || c == '\U{000C}' || c == '\r' || c == ' '
    || c == '\U{00A0}' || c == '\U{1680}' || ('\U{2000}' <= c <= '\U{200A}')
    || c == '\U{2028}' || c == '\U{2029}' || c == '\U{202F}' || c == '\U{205F}'
    || c == '\U{3000}' || c == '\U{FEFF}'
  }

  predicate IsAsciiUpper(c: char) { 'A' <= c <= 'Z' }

  predicate IsAsciiLower(c: char) { 'a' <= c <= 'z' }

  predicate IsAsciiDigit(c: char) { '0' <= c <= '9' }

  /** `\w` in a regular expression without the `u` flag: ASCII letters, digits and `_`. */
  predicate IsWordChar(c: char)
  {
    IsAsciiUpper(c) || IsAsciiLower(c) || IsAsciiDigit(c) || c == '_'
  }

  /** `toLowerCase` of one character, ASCII only: a capital letter becomes its small letter. */
  function LowerChar(c: char): (r: char)
    ensures IsAsciiUpper(c) ==> IsAsciiLower(r) && r as int == c as int + 32
    ensures !IsAsciiUpper(c) ==> r == c
    ensures !IsAsciiUpper(r)
  {
    if IsAsciiUpper(c) then (c as int + 32) as char else c
  }

  /** `String.prototype.toLowerCase`, ASCII only: the same length, each character lowered. */
  function ToLowerCase(s: string): (r: string)
    ensures |r| == |s|
    ensures forall i :: 0 <= i < |s| ==> r[i] == LowerChar(s[i])
  {
    seq(|s|, i requires 0 <= i < |s| => LowerChar(s[i]))
  }

  /** Lowering a string with no ASCII capital in it changes nothing. */
  lemma {:induction false} ToLowerCaseWithoutCapitals(s: string)
    requires forall i :: 0 <= i < |s| ==> !IsAsciiUpper(s[i])
    ensures ToLowerCase(s) == s
  {
  }

  // ----- trim -----

  predicate AllSpace(s: string)
  {
    forall k :: 0 <= k < |s| ==> IsSpace(s[k])
  }

  /** The first index at or after `i` that holds a non-space character, or `|s|`. */
  function SkipSpaces(s: string, i: nat): (k: nat)
    requires i <= |s|
    ensures i <= k <= |s|
    ensures forall m :: i <= m < k ==> IsSpace(s[m])
    ensures k < |s| ==> !IsSpace(s[k])
    decreases |s| - i
  {
    if i == |s| || !IsSpace(s[i]) then i else SkipSpaces(s, i + 1)
  }

  /** The index just after the last non-space character before `j`, or 0. */
  function SkipSpacesBack(s: string, j: nat): (k: nat)
    requires j <= |s|
    ensures k <= j
    ensures forall m :: k <= m < j ==> IsSpace(s[m])
    ensures k > 0 ==> !IsSpace(s[k - 1])
  {
    if j == 0 || !IsSpace(s[j - 1]) then j else SkipSpacesBack(s, j - 1)
  }

  /** `s` is `r` preceded by the all-space `s[..i]` and followed by an all-space rest. */
  predicate TrimmedAt(s: string, r: string, i: nat)
  {
    i + |r| <= |s| && s[i..i + |r|] == r && AllSpace(s[..i]) && AllSpace(s[i + |r|..])
  }

  /**
   * `String.prototype.trim`: `s` without its leading and trailing white
   * space; what remains neither starts nor ends with white space.
   */
  function Trim(s: string): (r: string)
    ensures exists i: nat :: TrimmedAt(s, r, i)
    ensures r != [] ==> !IsSpace(r[0]) && !IsSpace(r[|r| - 1])
  {
    var i := SkipSpaces(s, 0);
    var j := SkipSpacesBack(s, |s|);
    TrimBounds(s);
    if i < j then
      assert TrimmedAt(s, s[i..j], i);
      s[i..j]
    else
      assert TrimmedAt(s, [], |s|);
      []
  }

  /**
   * The white space before the first and after the last non-space character,
   * as `Trim` finds them; when the two meet, the whole string is white space.
   */
  lemma {:induction false} TrimBounds(s: string)
    ensures AllSpace(s[..SkipSpaces(s, 0)])
    ensures AllSpace(s[SkipSpacesBack(s, |s|)..])
    ensures SkipSpacesBack(s, |s|) <= SkipSpaces(s, 0) ==> SkipSpaces(s, 0) == |s|
  {
    var i, j := SkipSpaces(s, 0), SkipSpacesBack(s, |s|);
    assert forall m :: 0 <= m < i ==> s[..i][m] == s[m];
    assert forall m :: 0 <= m < |s| - j ==> s[j..][m] == s[j + m];
  }

  /** Around `r`, at index `i`, there is only white space. */
  lemma {:induction false} SpacesAround(s: string, r: string, i: nat)
    requires TrimmedAt(s, r, i)
    ensures forall m :: 0 <= m < i ==> IsSpace(s[m])
    ensures forall m :: i + |r| <= m < |s| ==> IsSpace(s[m])
  {
    forall m | 0 <= m < i ensures IsSpace(s[m]) {
      assert s[..i][m] == s[m];
    }
    forall m | i + |r| <= m < |s| ensures IsSpace(s[m]) {
      assert s[i + |r|..][m - i - |r|] == s[m];
    }
  }

  /**
   * What `trim` removes is determined: whenever `s` is white space, then `r`,
   * then white space, and `r` neither starts nor ends with white space, `r`
   * is the trim of `s`.
   */
  lemma {:induction false} TrimUnique(s: string, r: string, i: nat)
    requires TrimmedAt(s, r, i)
    requires r != [] ==> !IsSpace(r[0]) && !IsSpace(r[|r| - 1])
    ensures Trim(s) == r
  {
    var t := Trim(s);
    var i': nat :| TrimmedAt(s, t, i');
    SpacesAround(s, r, i);
    SpacesAround(s, t, i');
    assert r != [] ==> r[0] == s[i] && r[|r| - 1] == s[i + |r| - 1];
    assert t != [] ==> t[0] == s[i'] && t[|t| - 1] == s[i' + |t| - 1];
  }

  /** White space, then a trimmed `t`, then white space: the trim is `t`. */
  lemma {:induction false} TrimAround(pre: string, t: string, post: string)
    requires forall c :: c in pre ==> IsSpace(c)
    requires forall c :: c in post ==> IsSpace(c)
    requires t != [] ==> !IsSpace(t[0]) && !IsSpace(t[|t| - 1])
    ensures Trim(pre + t + post) == t
  {
    var s := pre + t + post;
    assert s[..|pre|] == pre && s[|pre|..|pre| + |t|] == t && s[|pre| + |t|..] == post;
    assert forall k :: 0 <= k < |pre| ==> pre[k] in pre;
    assert forall k :: 0 <= k < |post| ==> post[k] in post;
    TrimUnique(s, t, |pre|);
  }

  /** A string that neither starts nor ends with white space is its own trim. */
  lemma {:induction false} TrimOfTrimmed(s: string)
    requires s != [] ==> !IsSpace(s[0]) && !IsSpace(s[|s| - 1])
    ensures Trim(s) == s
  {
    if s != [] {
      assert SkipSpaces(s, 0) == 0;
      assert SkipSpacesBack(s, |s|) == |s|;
      assert s[0..|s|] == s;
    }
  }

  // ----- includes -----

  /** `needle` occurs in `hay` at index `i`. */
  predicate OccursAt(hay: string, needle: string, i: nat)
  {
    i + |needle| <= |hay| && hay[i..i + |needle|] == needle
  }

  /** Character-by-character comparison of `needle[k..]` with `hay[i + k..]`. */
  function MatchesFrom(hay: string, needle: string, i: nat, k: nat): bool
    requires i + |needle| <= |hay| && k <= |needle|
    decreases |needle| - k
  {
    k == |needle| || (hay[i + k] == needle[k] && MatchesFrom(hay, needle, i, k + 1))
  }

  lemma {:induction false} MatchesFromSpec(hay: string, needle: string, i: nat, k: nat)
    requires i + |needle| <= |hay| && k <= |needle|
    ensures MatchesFrom(hay, needle, i, k) <==> hay[i + k..i + |needle|] == needle[k..]
    decreases |needle| - k
  {
    if k < |needle| {
      MatchesFromSpec(hay, needle, i, k + 1);
      assert hay[i + k..i + |needle|] == [hay[i + k]] + hay[i + k + 1..i + |needle|];
      assert needle[k..] == [needle[k]] + needle[k + 1..];
    }
  }

  /** Whether `needle` occurs in `hay` at some index `i` or later. */
  function IncludesFrom(hay: string, needle: string, i: nat): bool
    decreases |hay| - i
  {
    if i + |needle| > |hay| then false
    else MatchesFrom(hay, needle, i, 0) || IncludesFrom(hay, needle, i + 1)
  }

  lemma {:induction false} IncludesFromSpec(hay: string, needle: string, i: nat)
    ensures IncludesFrom(hay, needle, i) <==> exists j :: i <= j && OccursAt(hay, needle, j)
    decreases |hay| - i
  {
    if i + |needle| <= |hay| {
      MatchesFromSpec(hay, needle, i, 0);
      assert needle[0..] == needle;
      IncludesFromSpec(hay, needle, i + 1);
      if IncludesFrom(hay, needle, i) {
        if !OccursAt(hay, needle, i) {
          var j :| i + 1 <= j && OccursAt(hay, needle, j);
        }
      } else {
        forall j | i <= j ensures !OccursAt(hay, needle, j) {
          if j > i {
            assert i + 1 <= j;
          }
        }
      }
    }
  }

  /** `String.prototype.includes`: `needle` occurs somewhere in `hay` (the empty string occurs everywhere). */
  function Includes(hay: string, needle: string): (b: bool)
    ensures b <==> exists j :: OccursAt(hay, needle, j)
  {
    IncludesFromSpec(hay, needle, 0);
    IncludesFrom(hay, needle, 0)
  }

  // ----- split -----

  /** The number of occurrences of `c` in `s[i..]`. */
  function CountFrom(s: string, c: char, i: nat): (n: nat)
    requires i <= |s|
    ensures n == multiset(s[i..])[c]
    decreases |s| - i
  {
    if i == |s| then
      0
    else
      assert s[i..] == [s[i]] + s[i + 1..];
      (if s[i] == c then 1 else 0) + CountFrom(s, c, i + 1)
  }

  /** `s.split(sep).length` for a one-character separator: one piece more than there are separators. */
  function SplitLength(s: string, sep: char): (n: nat)
    ensures n == multiset(s)[sep] + 1
  {
    assert s[0..] == s;
    CountFrom(s, sep, 0) + 1
  }

  /**
   * A maximal run of characters that are white space (`space`) or are not
   * (`!space`) ends at index `i` of `s`.
   */
  predicate RunEndsAt(s: string, i: nat, space: bool)
    requires i < |s|
  {
    IsSpace(s[i]) == space && (i + 1 == |s| || IsSpace(s[i + 1]) != space)
  }

  /** The number of indexes at or after `i` where such a run ends. */
  function RunsFrom(s: string, i: nat, space: bool): nat
    requires i <= |s|
    decreases |s| - i
  {
    if i == |s| then 0 else (if RunEndsAt(s, i, space) then 1 else 0) + RunsFrom(s, i + 1, space)
  }

  /** The number of white-space separated words of `s`: its maximal runs of non-space characters. */
  function WordCount(s: string): nat
  {
    RunsFrom(s, 0, false)
  }

  /**
   * `s.split(/\s+/).length`: the regular expression matches each maximal run
   * of white space once, and there is one piece more than matches.
   */
  function SplitOnWhiteSpaceLength(s: string): (n: nat)
    ensures n >= 1
  {
    RunsFrom(s, 0, true) + 1
  }

  /** On a string ending in a non-space character, word runs and space runs from `i` alternate. */
  lemma {:induction false} RunsAlternate(s: string, i: nat)
    requires i < |s| && !IsSpace(s[|s| - 1])
    ensures RunsFrom(s, i, false) == RunsFrom(s, i, true) + (if IsSpace(s[i]) then 0 else 1)
    decreases |s| - i
  {
    if i + 1 < |s| {
      RunsAlternate(s, i + 1);
    }
  }

  /**
   * Splitting a trimmed string on white-space runs yields its words, except
   * that the empty string still splits into one (empty) piece.
   */
  lemma {:induction false} SplitOfTrimmed(s: string)
    requires s != [] ==> !IsSpace(s[0]) && !IsSpace(s[|s| - 1])
    ensures SplitOnWhiteSpaceLength(s) == if s == [] then 1 else WordCount(s)
  {
    if s != [] {
      RunsAlternate(s, 0);
    }
  }

  /** No word run ends inside an all-space stretch `s[i..j]`. */
  lemma {:induction false} RunsOverSpaces(s: string, i: nat, j: nat)
    requires i <= j <= |s| && AllSpace(s[i..j])
    ensures RunsFrom(s, i, false) == RunsFrom(s, j, false)
    decreases j - i
  {
    if i < j {
      assert s[i..j][0] == s[i];
      assert s[i + 1..j] == s[i..j][1..];
      RunsOverSpaces(s, i + 1, j);
    }
  }

  /**
   * Word runs of `s` from `i` up to `lo + |t|` are those of `t`, when `t`
   * sits at `lo` in `s` and is followed by white space only.
   */
  lemma {:induction false} RunsInside(s: string, t: string, lo: nat, i: nat)
    requires lo <= i <= lo + |t| <= |s| && s[lo..lo + |t|] == t && AllSpace(s[lo + |t|..])
    ensures RunsFrom(s, i, false) == RunsFrom(t, i - lo, false)
    decreases lo + |t| - i
  {
    var hi := lo + |t|;
    if i < hi {
      assert s[i] == t[i - lo];
      if i + 1 < hi {
        assert s[i + 1] == t[i + 1 - lo];
      } else if i + 1 < |s| {
        assert s[hi..][0] == s[i + 1];
      }
      RunsInside(s, t, lo, i + 1);
    } else {
      assert s[hi..|s|] == s[hi..];
      RunsOverSpaces(s, hi, |s|);
    }
  }

  /** Trimming does not change the number of words. */
  lemma {:induction false} WordCountOfTrim(s: string)
    ensures WordCount(Trim(s)) == WordCount(s)
  {
    var t := Trim(s);
    var lo: nat :| TrimmedAt(s, t, lo);
    assert s[0..lo] == s[..lo];
    RunsOverSpaces(s, 0, lo);
    RunsInside(s, t, lo, lo);
  }

  /** The word count of `a + b` adds up when `a` ends in white space. */
  lemma {:induction false} RunsOfAppend(a: string, b: string, i: nat)
    requires i <= |a| && a != [] && IsSpace(a[|a| - 1])
    ensures RunsFrom(a + b, i, false) == RunsFrom(a, i, false) + RunsFrom(b, 0, false)
    decreases |a| - i
  {
    if i < |a| {
      RunsOfAppend(a, b, i + 1);
    } else {
      RunsShift(a, b, 0);
    }
  }

  /** The runs of `b` are the runs of `a + b` read from `|a|` on. */
  lemma {:induction false} RunsShift(a: string, b: string, k: nat)
    requires k <= |b|
    ensures RunsFrom(a + b, |a| + k, false) == RunsFrom(b, k, false)
    decreases |b| - k
  {
    if k < |b| {
      RunsShift(a, b, k + 1);
    }
  }

  /** `s.repeat(n)`: `n` copies of `s` one after another. */
  function Repeat(s: string, n: nat): string
  {
    if n == 0 then [] else s + Repeat(s, n - 1)
  }

  /** `s.repeat(n)` is `n` times as long as `s`. */
  lemma {:induction false} RepeatLength(s: string, n: nat)
    ensures |Repeat(s, n)| == |s| * n
  {
    if n > 0 {
      RepeatLength(s, n - 1);
    }
  }

  // ----- the default sort order -----

  /**
   * `a` sorts strictly before `b` under the default comparison of
   * `Array.prototype.sort`: compare character by character; a proper prefix
   * comes first.
   */
  function Less(a: string, b: string): bool
    decreases |a|
  {
    if a == [] then b != []
    else if b == [] then false
    else if a[0] != b[0] then a[0] < b[0]
    else Less(a[1..], b[1..])
  }

  lemma {:induction false} LessIrreflexive(a: string)
    ensures !Less(a, a)
    decreases |a|
  {
    if a != [] {
      LessIrreflexive(a[1..]);
    }
  }

  lemma {:induction false} LessTransitive(a: string, b: string, c: string)
    requires Less(a, b) && Less(b, c)
    ensures Less(a, c)
    decreases |a|
  {
    if a != [] && a[0] == b[0] && b[0] == c[0] {
      LessTransitive(a[1..], b[1..], c[1..]);
    }
  }

  lemma {:induction false} LessTotal(a: string, b: string)
    requires a != b
    ensures Less(a, b) || Less(b, a)
    decreases |a|
  {
    if a != [] && b != [] && a[0] == b[0] {
      assert a == [a[0]] + a[1..] && b == [b[0]] + b[1..];
      LessTotal(a[1..], b[1..]);
    }
  }
}
