/**
 * The string helpers of the blog utilities: reading time from a word count,
 * truncation with an ellipsis, and URL slugs built from titles.
 */
module BlogHelpers {
  import opened JsString
  import JsMath
  import JsArray

  /** The default reading speed of `calculateReadTime`, in words per minute. */
  const DefaultWordsPerMinute: nat := 200

  /** The default cut-off of `truncateText`. */
  const DefaultMaxLength: int := 150

  // ----- calculateReadTime -----

  /**
   * `calculateReadTime(text, wordsPerMinute)`: the pieces of the trimmed
   * text split on white-space runs, divided by the reading speed and rounded
   * up. An empty or blank text still splits into one piece, so the result is
   * never below one minute.
   */
  function CalculateReadTime(text: string, wordsPerMinute: nat): (minutes: nat)
    requires wordsPerMinute > 0
    ensures minutes >= 1
  {
    JsMath.CeilDiv(SplitOnWhiteSpaceLength(Trim(text)), wordsPerMinute)
  }

  /** A trimmed, non-empty string has at least one word. */
  lemma {:induction false} TrimmedHasWord(t: string)
    requires t != [] && !IsSpace(t[0]) && !IsSpace(t[|t| - 1])
    ensures WordCount(t) >= 1
  {
    RunsAlternate(t, 0);
  }

  /**
   * The reading time is the word count of the text, counted as one when the
   * text has no word, divided by the speed and rounded up.
   */
  lemma {:induction false} ReadTimeCountsWords(text: string, wordsPerMinute: nat)
    requires wordsPerMinute > 0
    ensures CalculateReadTime(text, wordsPerMinute)
         == JsMath.CeilDiv(if WordCount(text) == 0 then 1 else WordCount(text), wordsPerMinute)
  {
    var t := Trim(text);
    SplitOfTrimmed(t);
    WordCountOfTrim(text);
    if t != [] {
      TrimmedHasWord(t);
    }
  }

  /** `'word '.repeat(n)` has `n` words. */
  lemma {:induction false} RepeatedWordCount(n: nat)
    ensures WordCount(Repeat("word ", n)) == n
  {
    if n > 0 {
      RepeatedWordCount(n - 1);
      assert WordCount("word ") == 1;
      RunsOfAppend("word ", Repeat("word ", n - 1), 0);
    }
  }

  /** Two hundred words read in one minute and two hundred and fifty in two, at the default speed. */
  lemma ReadTimeExamples()
    ensures CalculateReadTime(Repeat("word ", 200), DefaultWordsPerMinute) == 1
    ensures CalculateReadTime(Repeat("word ", 250), DefaultWordsPerMinute) == 2
  {
    RepeatedWordCount(200);
    ReadTimeCountsWords(Repeat("word ", 200), DefaultWordsPerMinute);
    RepeatedWordCount(250);
    ReadTimeCountsWords(Repeat("word ", 250), DefaultWordsPerMinute);
  }

  /** As written, the empty text reads in one minute, not zero. */
  lemma {:induction false} ReadTimeOfEmptyText(wordsPerMinute: nat)
    requires wordsPerMinute > 0
    ensures CalculateReadTime("", wordsPerMinute) == 1
  {
    assert Trim("") == [];
  }

  /**
   * The reading time as the helper's own test expects it: the word count
   * divided by the speed, rounded up, so that a text without words takes no
   * time.
   */
  function ReadTimeByWords(text: string, wordsPerMinute: nat): (minutes: nat)
    requires wordsPerMinute > 0
    ensures minutes == 0 <==> WordCount(text) == 0
    ensures WordCount(text) > 0 ==> minutes == CalculateReadTime(text, wordsPerMinute)
  {
    ReadTimeCountsWords(text, wordsPerMinute);
    JsMath.CeilDiv(WordCount(text), wordsPerMinute)
  }

  lemma {:induction false} ReadTimeByWordsOfEmptyText(wordsPerMinute: nat)
    requires wordsPerMinute > 0
    ensures ReadTimeByWords("", wordsPerMinute) == 0
  {
    assert WordCount("") == 0;
  }

  // ----- truncateText -----

  /**
   * `kept` is `text.slice(0, end)` with the white space at both ends removed:
   * only white space around it in the slice, and none at its own ends.
   */
  ghost predicate KeepsTrimmedPrefix(text: string, end: int, kept: string)
  {
    && (exists i: nat :: TrimmedAt(JsArray.SliceTo(text, end), kept, i))
    && (kept != [] ==> !IsSpace(kept[0]) && !IsSpace(kept[|kept| - 1]))
  }

  /**
   * `truncateText(text, maxLength)`: the text itself when it is not longer
   * than `maxLength`; otherwise its first `maxLength` characters (as `slice`
   * counts them), trimmed, followed by `"..."`.
   */
  function TruncateText(text: string, maxLength: int): (r: string)
    ensures |text| <= maxLength ==> r == text
    ensures |text| > maxLength ==> |r| >= 3 && r[|r| - 3..] == "..."
    ensures |text| > maxLength && maxLength >= 0 ==> |r| <= maxLength + 3
    ensures |text| > maxLength ==> KeepsTrimmedPrefix(text, maxLength, r[..|r| - 3])
  {
    if |text| <= maxLength then
      text
    else
      var kept := Trim(JsArray.SliceTo(text, maxLength));
      assert (kept + "...")[..|kept + "..."| - 3] == kept;
      kept + "..."
  }

  /** Two hundred `a`s cut at 100 come back shortened and ending in `"..."`. */
  lemma TruncateLongExample()
    ensures var r := TruncateText(Repeat("a", 200), 100);
      |r| <= 104 && r[|r| - 3..] == "..."
  {
    RepeatLength("a", 200);
  }

  /** A text shorter than the limit, whether 100 or the default 150, comes back unchanged. */
  lemma TruncateShortExample()
    ensures TruncateText("Short text", 100) == "Short text"
    ensures TruncateText("Short text", DefaultMaxLength) == "Short text"
  {
  }

  // ----- generateSlug -----

  /** What `replace(/[^\w\s-]/g, '')` keeps: word characters, white space and `-`. */
  predicate IsKept(c: char)
  {
    IsWordChar(c) || IsSpace(c) || c == '-'
  }

  /** What `replace(/[\s_-]+/g, '-')` collapses: white space, `_` and `-`. */
  predicate IsSeparator(c: char)
  {
    IsSpace(c) || c == '_' || c == '-'
  }

  /** The characters a slug may hold. */
  predicate IsSlugChar(c: char)
  {
    IsAsciiLower(c) || IsAsciiDigit(c) || c == '-'
  }

  /** No two dashes stand next to each other. */
  predicate NoDoubleDash(s: string)
  {
    forall k :: 0 <= k < |s| - 1 ==> !(s[k] == '-' && s[k + 1] == '-')
  }

  /** The shape of every slug: `[a-z0-9-]` only, no dash at either end, no two dashes in a row. */
  predicate IsSlug(s: string)
  {
    && (forall k :: 0 <= k < |s| ==> IsSlugChar(s[k]))
    && (s != [] ==> s[0] != '-' && s[|s| - 1] != '-')
    && NoDoubleDash(s)
  }

  /** `replace(/[^\w\s-]/g, '')` on `s[i..]`. */
  function RemoveUnkeptFrom(s: string, i: nat): string
    requires i <= |s|
    decreases |s| - i
  {
    if i == |s| then
      []
    else if IsKept(s[i]) then
      [s[i]] + RemoveUnkeptFrom(s, i + 1)
    else
      RemoveUnkeptFrom(s, i + 1)
  }

  /**
   * Removal keeps only word characters, white space and dashes, all taken
   * from `s[i..]`, and changes nothing when every character is kept.
   */
  lemma {:induction false} RemoveUnkeptShape(s: string, i: nat)
    requires i <= |s|
    ensures forall c :: c in RemoveUnkeptFrom(s, i) ==> IsKept(c) && c in s[i..]
    ensures (forall k :: i <= k < |s| ==> IsKept(s[k])) ==> RemoveUnkeptFrom(s, i) == s[i..]
    decreases |s| - i
  {
    if i < |s| {
      RemoveUnkeptShape(s, i + 1);
      assert s[i..] == [s[i]] + s[i + 1..];
    }
  }

  /** Removal on `x + y` from an index inside `y` is removal on `y`. */
  lemma {:induction false} RemoveUnkeptShift(x: string, y: string, k: nat)
    requires k <= |y|
    ensures RemoveUnkeptFrom(x + y, |x| + k) == RemoveUnkeptFrom(y, k)
    decreases |y| - k
  {
    if k < |y| {
      assert (x + y)[|x| + k] == y[k];
      RemoveUnkeptShift(x, y, k + 1);
    }
  }

  /** Removal works character by character, so it distributes over concatenation. */
  lemma {:induction false} RemoveUnkeptAppend(x: string, y: string, i: nat)
    requires i <= |x|
    ensures RemoveUnkeptFrom(x + y, i) == RemoveUnkeptFrom(x, i) + RemoveUnkeptFrom(y, 0)
    decreases |x| - i
  {
    if i == |x| {
      RemoveUnkeptShift(x, y, 0);
    } else {
      assert (x + y)[i] == x[i];
      RemoveUnkeptAppend(x, y, i + 1);
    }
  }

  /** A string of kept characters only is left as it is. */
  lemma {:induction false} RemoveUnkeptKeepsAll(x: string)
    requires forall c :: c in x ==> IsKept(c)
    ensures RemoveUnkeptFrom(x, 0) == x
  {
    RemoveUnkeptShape(x, 0);
    assert forall k :: 0 <= k < |x| ==> x[k] in x;
    assert x[0..] == x;
  }

  /** The first index at or after `i` that holds no separator, or `|s|`. */
  function SkipSeparators(s: string, i: nat): (k: nat)
    requires i <= |s|
    ensures i <= k <= |s|
    ensures forall m :: i <= m < k ==> IsSeparator(s[m])
    ensures k < |s| ==> !IsSeparator(s[k])
    decreases |s| - i
  {
    if i == |s| || !IsSeparator(s[i]) then i else SkipSeparators(s, i + 1)
  }

  /** `replace(/[\s_-]+/g, '-')` on `s[i..]`: every maximal run of separators becomes one dash. */
  function CollapseFrom(s: string, i: nat): string
    requires i <= |s|
    decreases |s| - i
  {
    if i == |s| then
      []
    else if IsSeparator(s[i]) then
      "-" + CollapseFrom(s, SkipSeparators(s, i + 1))
    else
      [s[i]] + CollapseFrom(s, i + 1)
  }

  /**
   * Collapsing keeps no separator but dashes, adds no other character, starts
   * with a dash exactly when `s[i..]` starts with a separator, and never
   * puts two dashes in a row.
   */
  lemma {:induction false} CollapseShape(s: string, i: nat)
    requires i <= |s|
    ensures var r := CollapseFrom(s, i);
      && (forall k :: 0 <= k < |r| ==> r[k] == '-' || (!IsSeparator(r[k]) && r[k] in s[i..]))
      && (r == [] <==> i == |s|)
      && (r != [] ==> (r[0] == '-' <==> IsSeparator(s[i])))
      && NoDoubleDash(r)
    decreases |s| - i
  {
    if i < |s| {
      var r := CollapseFrom(s, i);
      if IsSeparator(s[i]) {
        var k := SkipSeparators(s, i + 1);
        var rest := CollapseFrom(s, k);
        CollapseShape(s, k);
        assert s[i..] == s[i..k] + s[k..];
        assert r == "-" + rest;
        assert forall m :: 1 <= m < |r| ==> r[m] == rest[m - 1];
      } else {
        var rest := CollapseFrom(s, i + 1);
        CollapseShape(s, i + 1);
        assert s[i..] == [s[i]] + s[i + 1..];
        assert r == [s[i]] + rest;
        assert forall m :: 1 <= m < |r| ==> r[m] == rest[m - 1];
      }
    }
  }

  /** A stretch without separators is copied as it is. */
  lemma {:induction false} CollapseCopies(s: string, i: nat, j: nat)
    requires i <= j <= |s|
    requires forall k :: i <= k < j ==> !IsSeparator(s[k])
    ensures CollapseFrom(s, i) == s[i..j] + CollapseFrom(s, j)
    decreases j - i
  {
    if i < j {
      CollapseCopies(s, i + 1, j);
      calc {
        CollapseFrom(s, i);
        [s[i]] + CollapseFrom(s, i + 1);
        [s[i]] + (s[i + 1..j] + CollapseFrom(s, j));
        { assert s[i..j] == [s[i]] + s[i + 1..j]; }
        s[i..j] + CollapseFrom(s, j);
      }
    }
  }

  /** A separator-free end of the string is copied as it is. */
  lemma {:induction false} CollapseCopiesAll(s: string, j: nat)
    requires j <= |s|
    requires forall k :: j <= k < |s| ==> !IsSeparator(s[k])
    ensures CollapseFrom(s, j) == s[j..]
  {
    CollapseCopies(s, j, |s|);
    assert CollapseFrom(s, |s|) == [];
    assert s[j..|s|] == s[j..];
  }

  /** A whole run of separators becomes a single dash. */
  lemma {:induction false} CollapseJoins(s: string, i: nat, j: nat)
    requires i < j <= |s|
    requires forall k :: i <= k < j ==> IsSeparator(s[k])
    requires j < |s| ==> !IsSeparator(s[j])
    ensures CollapseFrom(s, i) == "-" + CollapseFrom(s, j)
  {
  }

  /** The first index at or after `i` that holds no dash, or `|s|`. */
  function SkipDashes(s: string, i: nat): (k: nat)
    requires i <= |s|
    ensures i <= k <= |s|
    ensures forall m :: i <= m < k ==> s[m] == '-'
    ensures k < |s| ==> s[k] != '-'
    decreases |s| - i
  {
    if i == |s| || s[i] != '-' then i else SkipDashes(s, i + 1)
  }

  /** The index just after the last character before `j` that is no dash, or 0. */
  function SkipDashesBack(s: string, j: nat): (k: nat)
    requires j <= |s|
    ensures k <= j
    ensures forall m :: k <= m < j ==> s[m] == '-'
    ensures k > 0 ==> s[k - 1] != '-'
  {
    if j == 0 || s[j - 1] != '-' then j else SkipDashesBack(s, j - 1)
  }

  /** `s` is `r` with only dashes before index `i` and after `i + |r|`. */
  ghost predicate DashesAround(s: string, r: string, i: nat)
  {
    && i + |r| <= |s| && s[i..i + |r|] == r
    && (forall m :: 0 <= m < i ==> s[m] == '-')
    && (forall m :: i + |r| <= m < |s| ==> s[m] == '-')
  }

  /** `replace(/^-+|-+$/g, '')`: `s` without its leading and trailing dashes. */
  function StripDashes(s: string): (r: string)
    ensures exists i: nat :: DashesAround(s, r, i)
    ensures r != [] ==> r[0] != '-' && r[|r| - 1] != '-'
  {
    var i := SkipDashes(s, 0);
    var j := SkipDashesBack(s, |s|);
    if i < j then
      assert DashesAround(s, s[i..j], i);
      s[i..j]
    else
      assert DashesAround(s, [], |s|);
      []
  }

  /** Two separator-free stretches with a run of separators between them are joined by a single dash. */
  lemma {:induction false} CollapseAroundGap(s: string, i: nat, j: nat)
    requires i < j <= |s|
    requires forall k :: 0 <= k < i ==> !IsSeparator(s[k])
    requires forall k :: i <= k < j ==> IsSeparator(s[k])
    requires forall k :: j <= k < |s| ==> !IsSeparator(s[k])
    ensures CollapseFrom(s, 0) == s[..i] + "-" + s[j..]
  {
    CollapseCopiesAll(s, j);
    CollapseJoins(s, i, j);
    CollapseCopies(s, 0, i);
    assert s[0..i] == s[..i];
  }

  /** Two words with a run of separators between them are joined by a single dash. */
  lemma {:induction false} CollapseTwoWords(a: string, gap: string, b: string)
    requires forall c :: c in a ==> !IsSeparator(c)
    requires gap != [] && forall c :: c in gap ==> IsSeparator(c)
    requires forall c :: c in b ==> !IsSeparator(c)
    ensures CollapseFrom(a + gap + b, 0) == a + "-" + b
  {
    var s := a + gap + b;
    var i, j := |a|, |a| + |gap|;
    forall k | 0 <= k < i ensures !IsSeparator(s[k]) {
      assert s[k] == a[k] && a[k] in a;
    }
    forall k | i <= k < j ensures IsSeparator(s[k]) {
      assert s[k] == gap[k - i] && gap[k - i] in gap;
    }
    forall k | j <= k < |s| ensures !IsSeparator(s[k]) {
      assert s[k] == b[k - j] && b[k - j] in b;
    }
    CollapseAroundGap(s, i, j);
    assert s[..i] == a && s[j..] == b;
  }

  /** A string that neither starts nor ends with a dash loses nothing. */
  lemma {:induction false} StripUndashed(s: string)
    requires s != [] ==> s[0] != '-' && s[|s| - 1] != '-'
    ensures StripDashes(s) == s
  {
    if s != [] {
      assert SkipDashes(s, 0) == 0;
      assert SkipDashesBack(s, |s|) == |s|;
      assert s[0..|s|] == s;
    }
  }

  /**
   * `generateSlug(title)`: lower-case, trim, drop what is neither a word
   * character, white space nor a dash, turn every run of white space,
   * underscores and dashes into one dash, and drop the dashes at both ends.
   */
  function GenerateSlug(title: string): string
  {
    StripDashes(CollapseFrom(RemoveUnkeptFrom(Trim(ToLowerCase(title)), 0), 0))
  }

  // ----- what generateSlug produces -----

  /** Lowering and trimming leave no ASCII capital. */
  lemma {:induction false} TrimmedLowerCase(title: string)
    ensures forall c :: c in Trim(ToLowerCase(title)) ==> !IsAsciiUpper(c)
  {
    var lowered := ToLowerCase(title);
    var trimmed := Trim(lowered);
    var ti: nat :| TrimmedAt(lowered, trimmed, ti);
    forall c | c in trimmed ensures !IsAsciiUpper(c) {
      var k :| 0 <= k < |trimmed| && trimmed[k] == c;
      assert lowered[ti + k] == c;
    }
  }

  /** Collapsing kept, lower-case characters leaves only slug characters. */
  lemma {:induction false} CollapsedSlugChars(s: string)
    requires forall c :: c in s ==> IsKept(c) && !IsAsciiUpper(c)
    ensures forall k :: 0 <= k < |CollapseFrom(s, 0)| ==> IsSlugChar(CollapseFrom(s, 0)[k])
  {
    CollapseShape(s, 0);
    assert s[0..] == s;
  }

  /** Stripping the end dashes of slug characters without double dashes gives a slug. */
  lemma {:induction false} StrippedIsSlug(s: string)
    requires forall k :: 0 <= k < |s| ==> IsSlugChar(s[k])
    requires NoDoubleDash(s)
    ensures IsSlug(StripDashes(s))
  {
    var r := StripDashes(s);
    var i: nat :| DashesAround(s, r, i);
    forall k | 0 <= k < |r| ensures IsSlugChar(r[k]) {
      assert r[k] == s[i + k];
    }
    forall k | 0 <= k < |r| - 1 ensures !(r[k] == '-' && r[k + 1] == '-') {
      assert r[k] == s[i + k] && r[k + 1] == s[i + k + 1];
    }
  }

  /** Every slug has the slug shape. */
  lemma {:induction false} SlugShape(title: string)
    ensures IsSlug(GenerateSlug(title))
  {
    var trimmed := Trim(ToLowerCase(title));
    TrimmedLowerCase(title);
    var kept := RemoveUnkeptFrom(trimmed, 0);
    RemoveUnkeptShape(trimmed, 0);
    assert trimmed[0..] == trimmed;
    CollapsedSlugChars(kept);
    CollapseShape(kept, 0);
    StrippedIsSlug(CollapseFrom(kept, 0));
  }

  /** Collapsing a string with no white space, no `_` and no two dashes in a row changes nothing. */
  lemma {:induction false} CollapseOfSlug(s: string, i: nat)
    requires i <= |s|
    requires forall k :: 0 <= k < |s| ==> IsSlugChar(s[k])
    requires NoDoubleDash(s)
    ensures CollapseFrom(s, i) == s[i..]
    decreases |s| - i
  {
    if i < |s| {
      assert s[i..] == [s[i]] + s[i + 1..];
      if s[i] == '-' {
        if i + 1 < |s| {
          assert !IsSeparator(s[i + 1]);
        }
        assert SkipSeparators(s, i + 1) == i + 1;
      }
      CollapseOfSlug(s, i + 1);
    }
  }

  /** A slug is its own slug. */
  lemma {:induction false} SlugOfSlug(s: string)
    requires IsSlug(s)
    ensures GenerateSlug(s) == s
  {
    ToLowerCaseWithoutCapitals(s);
    TrimOfTrimmed(s);
    RemoveUnkeptShape(s, 0);
    assert RemoveUnkeptFrom(s, 0) == s[0..] == s;
    CollapseOfSlug(s, 0);
    assert s[0..] == s;
    StripUndashed(s);
  }

  /** Generating a slug twice gives the same slug as once. */
  lemma {:induction false} SlugIdempotent(title: string)
    ensures GenerateSlug(GenerateSlug(title)) == GenerateSlug(title)
  {
    SlugShape(title);
    SlugOfSlug(GenerateSlug(title));
  }

  // The examples of the helper's tests. Each stage is evaluated in a lemma
  // of its own: evaluating several stages in one proof is far costlier.

  lemma LowerExamples1() ensures ToLowerCase("Hello World") == "hello world" {}
  lemma LowerExamples2() ensures ToLowerCase("Hello, World!") == "hello, world!" {}
  lemma LowerExamples3() ensures ToLowerCase("Hello   World") == "hello   world" {}
  lemma LowerExamples4() ensures ToLowerCase("  Hello World  ") == "  hello world  " {}

  lemma TrimExamples1() ensures Trim("hello world") == "hello world" { TrimOfTrimmed("hello world"); }
  lemma TrimExamples2() ensures Trim("hello, world!") == "hello, world!" { TrimOfTrimmed("hello, world!"); }
  lemma TrimExamples3() ensures Trim("hello   world") == "hello   world" { TrimOfTrimmed("hello   world"); }
  lemma TrimExamples4() ensures Trim("  hello world  ") == "hello world"
  {
    assert "  hello world  " == "  " + "hello world" + "  ";
    TrimAround("  ", "hello world", "  ");
  }

  lemma KeepExamples1() ensures RemoveUnkeptFrom("hello world", 0) == "hello world"
  {
    RemoveUnkeptKeepsAll("hello world");
  }
  lemma KeepExamples2() ensures RemoveUnkeptFrom("hello, world!", 0) == "hello world"
  {
    DropsExclamation();
    KeepsWorld();
    DropsComma();
    assert "hello" + " world" == "hello world";
  }
  lemma DropsExclamation() ensures RemoveUnkeptFrom("hello, world!", 0) == RemoveUnkeptFrom("hello, world", 0)
  {
    assert "hello, world!" == "hello, world" + "!";
    RemoveUnkeptAppend("hello, world", "!", 0);
    assert RemoveUnkeptFrom("!", 0) == [];
  }
  lemma KeepsWorld() ensures RemoveUnkeptFrom("hello, world", 0) == RemoveUnkeptFrom("hello,", 0) + " world"
  {
    assert "hello, world" == "hello," + " world";
    RemoveUnkeptAppend("hello,", " world", 0);
    RemoveUnkeptKeepsAll(" world");
  }
  lemma DropsComma() ensures RemoveUnkeptFrom("hello,", 0) == "hello"
  {
    assert "hello," == "hello" + ",";
    RemoveUnkeptAppend("hello", ",", 0);
    RemoveUnkeptKeepsAll("hello");
    assert RemoveUnkeptFrom(",", 0) == [];
  }
  lemma KeepExamples3() ensures RemoveUnkeptFrom("hello   world", 0) == "hello   world"
  {
    RemoveUnkeptKeepsAll("hello   world");
  }

  lemma CollapseExamples1() ensures CollapseFrom("hello world", 0) == "hello-world"
  {
    CollapseTwoWords("hello", " ", "world");
    assert "hello" + " " + "world" == "hello world";
    assert "hello" + "-" + "world" == "hello-world";
  }
  lemma CollapseExamples2() ensures CollapseFrom("hello   world", 0) == "hello-world"
  {
    CollapseTwoWords("hello", "   ", "world");
    assert "hello" + "   " + "world" == "hello   world";
    assert "hello" + "-" + "world" == "hello-world";
  }

  lemma StripExample() ensures StripDashes("hello-world") == "hello-world" { StripUndashed("hello-world"); }

  lemma SlugOfTwoWords()
    ensures GenerateSlug("Hello World") == "hello-world"
  {
    LowerExamples1(); TrimExamples1(); KeepExamples1(); CollapseExamples1(); StripExample();
  }

  lemma SlugDropsPunctuation()
    ensures GenerateSlug("Hello, World!") == "hello-world"
  {
    LowerExamples2(); TrimExamples2(); KeepExamples2(); CollapseExamples1(); StripExample();
  }

  lemma SlugCollapsesSpaces()
    ensures GenerateSlug("Hello   World") == "hello-world"
  {
    LowerExamples3(); TrimExamples3(); KeepExamples3(); CollapseExamples2(); StripExample();
  }

  lemma SlugTrimsSpaces()
    ensures GenerateSlug("  Hello World  ") == "hello-world"
  {
    LowerExamples4(); TrimExamples4(); KeepExamples1(); CollapseExamples1(); StripExample();
  }
}
