/**
 * The JavaScript array operations the blog code relies on, over `seq`:
 * `find`, `filter`, `slice(0, end)`, `flatMap`, `Array.from(new Set(...))`
 * and `sort()` with its default comparison on strings.
 */
module JsArray {
  import opened Wrappers
  import JsString

  // ----- find -----

  /** `s[k]` is the first element of `s[i..]` that satisfies `p`. */
  ghost predicate FirstFrom<T>(s: seq<T>, p: T -> bool, i: nat, k: nat)
  {
    i <= k < |s| && p(s[k]) && forall m :: i <= m < k ==> !p(s[m])
  }

  /** The first element of `s[i..]` that satisfies `p`, or none. */
  function FindFrom<T>(s: seq<T>, p: T -> bool, i: nat): (r: Option<T>)
    requires i <= |s|
    ensures r.None? <==> forall k :: i <= k < |s| ==> !p(s[k])
    ensures r.Some? ==> exists k: nat :: FirstFrom(s, p, i, k) && s[k] == r.value
    decreases |s| - i
  {
    if i == |s| then
      None
    else if p(s[i]) then
      assert FirstFrom(s, p, i, i);
      Some(s[i])
    else
      var r := FindFrom(s, p, i + 1);
      assert r.Some? ==> exists k: nat :: FirstFrom(s, p, i, k) && s[k] == r.value by {
        if r.Some? {
          var k: nat :| FirstFrom(s, p, i + 1, k) && s[k] == r.value;
          assert FirstFrom(s, p, i, k);
        }
      }
      r
  }

  /** `Array.prototype.find`: the first element that satisfies `p`, or `undefined` when none does. */
  function Find<T>(s: seq<T>, p: T -> bool): (r: Option<T>)
    ensures r.None? <==> forall k :: 0 <= k < |s| ==> !p(s[k])
    ensures r.Some? ==> exists k: nat :: FirstFrom(s, p, 0, k) && s[k] == r.value
  {
    FindFrom(s, p, 0)
  }

  // ----- filter -----

  /** `a` is `b` with some elements left out; the order of the rest is kept. */
  ghost predicate IsSubsequence<T>(a: seq<T>, b: seq<T>)
    decreases |b|
  {
    if a == [] then true
    else if b == [] then false
    else (a[0] == b[0] && IsSubsequence(a[1..], b[1..])) || IsSubsequence(a, b[1..])
  }

  /** The elements of `s[i..]` that satisfy `p`, in their order. */
  function FilterFrom<T(==,!new)>(s: seq<T>, p: T -> bool, i: nat): (r: seq<T>)
    requires i <= |s|
    ensures |r| <= |s| - i
    ensures forall x :: x in r <==> x in s[i..] && p(x)
    ensures forall x :: multiset(r)[x] == if p(x) then multiset(s[i..])[x] else 0
    ensures IsSubsequence(r, s[i..])
    ensures (forall k :: i <= k < |s| ==> p(s[k])) ==> r == s[i..]
    decreases |s| - i
  {
    if i == |s| then
      []
    else
      var rest := FilterFrom(s, p, i + 1);
      assert s[i..] == [s[i]] + s[i + 1..];
      assert multiset(s[i..]) == multiset([s[i]]) + multiset(s[i + 1..]);
      if p(s[i]) then
        assert ([s[i]] + rest)[1..] == rest;
        [s[i]] + rest
      else
        assert rest == [] || IsSubsequence(rest, s[i..][1..]);
        rest
  }

  /** `Array.prototype.filter`: the elements that satisfy `p`, in their order. */
  function Filter<T(==,!new)>(s: seq<T>, p: T -> bool): (r: seq<T>)
    ensures |r| <= |s|
    ensures forall x :: x in r <==> x in s && p(x)
    ensures forall x :: multiset(r)[x] == if p(x) then multiset(s)[x] else 0
    ensures IsSubsequence(r, s)
    ensures (forall k :: 0 <= k < |s| ==> p(s[k])) ==> r == s
  {
    assert s[0..] == s;
    FilterFrom(s, p, 0)
  }

  // ----- slice -----

  /**
   * `s.slice(0, end)`: the first `end` elements; a negative `end` counts
   * back from the length, and both ends are clamped to the array.
   */
  function SliceTo<T>(s: seq<T>, end: int): (r: seq<T>)
    ensures 0 <= end ==> |r| == if end <= |s| then end else |s|
    ensures end < 0 ==> |r| == if -end <= |s| then |s| + end else 0
    ensures r == s[..|r|]
  {
    var n := if end < 0 then (if -end <= |s| then |s| + end else 0) else (if end <= |s| then end else |s|);
    s[..n]
  }

  // ----- flatMap -----

  /** The concatenation of `f(s[k])` for `k` from `i` on. */
  function FlatMapFrom<A, B(==,!new)>(s: seq<A>, f: A -> seq<B>, i: nat): (r: seq<B>)
    requires i <= |s|
    ensures forall y :: y in r <==> exists k :: i <= k < |s| && y in f(s[k])
    decreases |s| - i
  {
    if i == |s| then [] else f(s[i]) + FlatMapFrom(s, f, i + 1)
  }

  /** `Array.prototype.flatMap`: every `f(x)` concatenated, in order. */
  function FlatMap<A, B(==,!new)>(s: seq<A>, f: A -> seq<B>): (r: seq<B>)
    ensures forall y :: y in r <==> exists k :: 0 <= k < |s| && y in f(s[k])
  {
    FlatMapFrom(s, f, 0)
  }

  // ----- Set -----

  /** No element occurs twice. */
  ghost predicate Distinct<T>(s: seq<T>)
  {
    forall i, j :: 0 <= i < j < |s| ==> s[i] != s[j]
  }

  /** `Array.from(new Set(s[..n]))`: each element once, at its first occurrence. */
  function DedupUpTo<T(==,!new)>(s: seq<T>, n: nat): (r: seq<T>)
    requires n <= |s|
    ensures Distinct(r)
    ensures forall x :: x in r <==> x in s[..n]
  {
    if n == 0 then
      []
    else
      var d := DedupUpTo(s, n - 1);
      assert s[..n] == s[..n - 1] + [s[n - 1]];
      if s[n - 1] in d then d else d + [s[n - 1]]
  }

  /** `Array.from(new Set(s))`: the distinct elements of `s`, each at its first occurrence. */
  function Dedup<T(==,!new)>(s: seq<T>): (r: seq<T>)
    ensures Distinct(r)
    ensures forall x :: x in r <==> x in s
  {
    assert s[..|s|] == s;
    DedupUpTo(s, |s|)
  }

  /** A sequence without repetitions holds each value at most once. */
  lemma {:induction false} DistinctCounts<T>(s: seq<T>, x: T)
    requires Distinct(s)
    ensures multiset(s)[x] <= 1
  {
    if s != [] {
      assert s == [s[0]] + s[1..];
      assert Distinct(s[1..]) by {
        forall i, j | 0 <= i < j < |s| - 1 ensures s[1..][i] != s[1..][j] {
          assert s[1..][i] == s[i + 1] && s[1..][j] == s[j + 1];
        }
      }
      DistinctCounts(s[1..], x);
      if s[0] == x {
        assert x !in s[1..] by {
          forall k | 0 <= k < |s| - 1 ensures s[1..][k] != x {
            assert s[1..][k] == s[k + 1];
          }
        }
      }
    }
  }

  /** A sequence that holds each value at most once has no repetitions. */
  lemma {:induction false} CountsDistinct<T>(s: seq<T>)
    requires forall x :: multiset(s)[x] <= 1
    ensures Distinct(s)
  {
    forall i, j | 0 <= i < j < |s| ensures s[i] != s[j] {
      assert s == s[..j] + s[j..];
      assert s[i] in s[..j] && s[j] in s[j..];
      assert multiset(s)[s[j]] == multiset(s[..j])[s[j]] + multiset(s[j..])[s[j]];
    }
  }

  /** A permutation of a sequence without repetitions has none either. */
  lemma {:induction false} PermutationDistinct<T>(s: seq<T>, t: seq<T>)
    requires Distinct(s) && multiset(s) == multiset(t)
    ensures Distinct(t)
  {
    forall x ensures multiset(t)[x] <= 1 {
      DistinctCounts(s, x);
    }
    CountsDistinct(t);
  }

  /** Every prefix of a sequence without repetitions has none either. */
  lemma {:induction false} PrefixDistinct<T>(s: seq<T>, n: nat)
    requires Distinct(s) && n <= |s|
    ensures Distinct(s[..n])
  {
    forall i, j | 0 <= i < j < n ensures s[..n][i] != s[..n][j] {
      assert s[..n][i] == s[i] && s[..n][j] == s[j];
    }
  }

  // ----- sort -----

  /** In the order of the default `sort` comparison (later elements never sort before earlier ones). */
  ghost predicate Sorted(s: seq<string>)
  {
    forall i, j :: 0 <= i < j < |s| ==> !JsString.Less(s[j], s[i])
  }

  /** `x` placed into `s` before the first element it does not come after. */
  function Insert(x: string, s: seq<string>): (r: seq<string>)
    ensures multiset(r) == multiset(s) + multiset{x}
  {
    if s == [] then
      [x]
    else if JsString.Less(s[0], x) then
      assert s == [s[0]] + s[1..];
      [s[0]] + Insert(x, s[1..])
    else
      [x] + s
  }

  /** Dropping the first element keeps a sequence sorted. */
  lemma {:induction false} SortedTail(s: seq<string>)
    requires Sorted(s) && s != []
    ensures Sorted(s[1..])
  {
    forall i, j | 0 <= i < j < |s| - 1 ensures !JsString.Less(s[1..][j], s[1..][i]) {
      assert s[1..][i] == s[i + 1] && s[1..][j] == s[j + 1];
    }
  }

  /** Inserting above the head of a sorted sequence puts nothing below that head. */
  lemma {:induction false} InsertAboveHead(x: string, s: seq<string>)
    requires Sorted(s) && s != [] && JsString.Less(s[0], x)
    ensures forall j :: 0 <= j < |Insert(x, s[1..])| ==> !JsString.Less(Insert(x, s[1..])[j], s[0])
  {
    var rest := Insert(x, s[1..]);
    forall j | 0 <= j < |rest| ensures !JsString.Less(rest[j], s[0]) {
      assert rest[j] in multiset(rest);
      if rest[j] == x {
        if JsString.Less(x, s[0]) {
          JsString.LessTransitive(s[0], x, s[0]);
          JsString.LessIrreflexive(s[0]);
        }
      } else {
        assert rest[j] in s[1..];
        var k :| 0 <= k < |s| - 1 && s[1..][k] == rest[j];
        assert s[k + 1] == rest[j];
      }
    }
  }

  lemma {:induction false} InsertKeepsSorted(x: string, s: seq<string>)
    requires Sorted(s)
    ensures Sorted(Insert(x, s))
    decreases |s|
  {
    if s == [] {
    } else if JsString.Less(s[0], x) {
      var rest := Insert(x, s[1..]);
      var r := [s[0]] + rest;
      SortedTail(s);
      InsertKeepsSorted(x, s[1..]);
      InsertAboveHead(x, s);
      forall i, j | 0 <= i < j < |r| ensures !JsString.Less(r[j], r[i]) {
        if i == 0 {
          assert r[j] == rest[j - 1];
        } else {
          assert r[i] == rest[i - 1] && r[j] == rest[j - 1];
        }
      }
    } else {
      var r := [x] + s;
      forall j | 0 <= j < |s| ensures !JsString.Less(s[j], x) {
        if j > 0 && JsString.Less(s[j], x) {
          if x != s[0] {
            JsString.LessTotal(x, s[0]);
            JsString.LessTransitive(s[j], x, s[0]);
          }
        }
      }
      forall i, j | 0 <= i < j < |r| ensures !JsString.Less(r[j], r[i]) {
        if i > 0 {
          assert r[i] == s[i - 1] && r[j] == s[j - 1];
        } else {
          assert r[j] == s[j - 1];
        }
      }
    }
  }

  /** `Array.prototype.sort()` on strings: the same elements, in the default comparison's order. */
  function Sort(s: seq<string>): (r: seq<string>)
    ensures multiset(r) == multiset(s)
    ensures Sorted(r)
  {
    if s == [] then
      []
    else
      assert s == [s[0]] + s[1..];
      InsertKeepsSorted(s[0], Sort(s[1..]));
      Insert(s[0], Sort(s[1..]))
  }

  /** Sorted without repetitions means each element sorts strictly before every later one. */
  lemma {:induction false} SortedDistinctStrict(s: seq<string>)
    requires Sorted(s) && Distinct(s)
    ensures forall i, j :: 0 <= i < j < |s| ==> JsString.Less(s[i], s[j])
  {
    forall i, j | 0 <= i < j < |s| ensures JsString.Less(s[i], s[j]) {
      JsString.LessTotal(s[i], s[j]);
    }
  }
}
