/** Choosing the questions of a run: the chapter filter, the Fisher-Yates
    shuffle, taking the first n, and the size of a test. */
module Sampler {
  import opened QuizTypes
  import opened Wrappers
  import opened Basics
  import opened Rounding

  /** A shuffled copy of a. The copy is permuted in place from the last index
      down to 1, swapping index i with index draw(i) mod (i + 1); draw stands
      for the random source, so the index drawn always lies in [0, i]. The
      input is a value and is left as it was. */
  method Shuffle<T>(a: seq<T>, draw: nat -> nat) returns (r: seq<T>)
    ensures |r| == |a|
    ensures multiset(r) == multiset(a)
  {
    var b := new T[|a|](k requires 0 <= k < |a| => a[k]);
    assert b[..] == a;
    var i := b.Length - 1;
    while i > 0
      invariant -1 <= i < b.Length
      invariant multiset(b[..]) == multiset(a)
    {
      var j := draw(i) % (i + 1);
      b[i], b[j] := b[j], b[i];
      i := i - 1;
    }
    r := b[..];
  }

  /** The first n items of a shuffle of a (slice clamps n to the length). */
  method PickN<T>(a: seq<T>, n: nat, draw: nat -> nat) returns (r: seq<T>)
    ensures |r| == Min(n, |a|)
    ensures multiset(r) <= multiset(a)
  {
    var s := Shuffle(a, draw);
    var k := Min(n, |s|);
    r := s[..k];
    assert s == r + s[k..];
    assert multiset(s) == multiset(r) + multiset(s[k..]);
  }

  /** The questions of one chapter, in their original order. */
  function InChapter(qs: seq<Question>, chapter: string): (r: seq<Question>)
    ensures |r| <= |qs|
  {
    if qs == [] then []
    else InChapter(qs[..|qs| - 1], chapter) + (if qs[|qs| - 1].chapter == Some(chapter) then [qs[|qs| - 1]] else [])
  }

  /** The filter keeps every copy of a question of the chapter and nothing else. */
  lemma {:induction false} InChapterCounts(qs: seq<Question>, chapter: string)
    ensures forall q :: multiset(InChapter(qs, chapter))[q] == if q.chapter == Some(chapter) then multiset(qs)[q] else 0
    decreases |qs|
  {
    if qs != [] {
      var init := qs[..|qs| - 1];
      assert qs == init + [qs[|qs| - 1]];
      InChapterCounts(init, chapter);
    }
  }

  /** Filtering a list with one more question at the end. */
  lemma InChapterSnoc(s: seq<Question>, x: Question, chapter: string)
    ensures InChapter(s + [x], chapter) == InChapter(s, chapter) + (if x.chapter == Some(chapter) then [x] else [])
  {
    var t := s + [x];
    assert t[..|t| - 1] == s;
  }

  /** Filtering keeps the order: it distributes over concatenation. */
  lemma {:induction false} InChapterAppend(a: seq<Question>, b: seq<Question>, chapter: string)
    ensures InChapter(a + b, chapter) == InChapter(a, chapter) + InChapter(b, chapter)
    decreases |b|
  {
    if b == [] {
      assert a + b == a;
    } else {
      var init, last := b[..|b| - 1], b[|b| - 1];
      var tail := if last.chapter == Some(chapter) then [last] else [];
      calc {
        InChapter(a + b, chapter);
      == { assert a + b == (a + init) + [last]; InChapterSnoc(a + init, last, chapter); }
        InChapter(a + init, chapter) + tail;
      == { InChapterAppend(a, init, chapter); }
        InChapter(a, chapter) + InChapter(init, chapter) + tail;
      == { assert b == init + [last]; InChapterSnoc(init, last, chapter); }
        InChapter(a, chapter) + InChapter(b, chapter);
      }
    }
  }

  /** The pool a run draws from: every question for "All", otherwise the
      questions whose chapter is exactly the one chosen. */
  function Pool(qs: seq<Question>, chapter: string): (r: seq<Question>)
    ensures chapter == "All" ==> r == qs
    ensures chapter != "All" ==> forall q :: q in r <==> q in qs && q.chapter == Some(chapter)
  {
    if chapter == "All" then qs
    else
      var r := InChapter(qs, chapter);
      InChapterCounts(qs, chapter);
      assert forall q :: q in r <==> multiset(r)[q] > 0;
      r
  }

  /** The requested number of test questions: the parsed input, at least 1. */
  function RequestedCount(parsed: int): (r: nat)
    ensures r >= 1 && r >= parsed
    ensures parsed >= 1 ==> r == parsed
    ensures parsed < 1 ==> r == 1
  {
    Max(1, parsed)
  }

  /** The number of questions a test asks for: the request bounded by the
      pool, but never less than 1, even when the pool is empty. */
  function TestSize(parsed: int, poolLen: nat): (n: nat)
    ensures n >= 1
    ensures poolLen >= 1 ==> n <= poolLen
    ensures poolLen == 0 ==> n == 1
    ensures Min(n, poolLen) == Min(RequestedCount(parsed), poolLen)
  {
    Max(1, Min(RequestedCount(parsed), poolLen))
  }

  /** The size the home page uses to estimate the time limit: the request
      bounded by the filtered count, taken as 1 when it is 0. It is always
      the size the test then starts with. */
  function EstimateSize(parsed: int, filteredCount: nat): (n: nat)
    ensures n == TestSize(parsed, filteredCount)
  {
    Min(RequestedCount(parsed), if filteredCount == 0 then 1 else filteredCount)
  }

  /** The questions of a test: n = TestSize of them, drawn from the pool
      without replacement. There are min(request, |pool|) of them. */
  method DrawTest(pool: seq<Question>, parsed: int, draw: nat -> nat) returns (s: seq<Question>, n: nat)
    ensures n == TestSize(parsed, |pool|)
    ensures |s| == Min(RequestedCount(parsed), |pool|)
    ensures multiset(s) <= multiset(pool)
    ensures Distinct(pool) ==> Distinct(s)
  {
    n := TestSize(parsed, |pool|);
    s := PickN(pool, n, draw);
    if Distinct(pool) {
      SelectionDistinct(pool, s);
    }
  }
}
