/**
 Sequential models of the array helpers of src/utils.js, together with the
 synchronous `Array.prototype.filter` / `findIndex` / `find` they reduce to.

 `asyncFilter` and `asyncFind` first evaluate the predicate on EVERY element,
 waiting for all the results together, and only then select by the collected
 results. `Evaluate` is that first phase, `SelectAll` / `SelectFirst` the
 second; concurrency is modelled as left-to-right evaluation.
 */
module Utils {
  import opened Wrappers

  /** `Array.prototype.filter` with a pure predicate. */
  function Filter<T>(s: seq<T>, p: T -> bool): (r: seq<T>)
    ensures |r| <= |s|
    ensures forall x :: x in r ==> x in s && p(x)
    ensures forall x :: x in s && p(x) ==> x in r
  {
    if |s| == 0 then [] else (if p(s[0]) then [s[0]] else []) + Filter(s[1..], p)
  }

  /** Filtering a concatenation filters each part: the kept elements stay in their original order. */
  lemma {:induction false} FilterConcat<T>(a: seq<T>, b: seq<T>, p: T -> bool)
    ensures Filter(a + b, p) == Filter(a, p) + Filter(b, p)
  {
    if |a| == 0 {
      assert a + b == b;
    } else {
      assert (a + b)[1..] == a[1..] + b;
      FilterConcat(a[1..], b, p);
    }
  }

  /** Filtering keeps every ordered relation that held between the elements of the input. */
  lemma {:induction false} FilterKeepsOrder<T>(s: seq<T>, p: T -> bool, before: (T, T) -> bool)
    requires forall i, j :: 0 <= i < j < |s| ==> before(s[i], s[j])
    ensures forall i, j :: 0 <= i < j < |Filter(s, p)| ==> before(Filter(s, p)[i], Filter(s, p)[j])
  {
    if |s| > 0 {
      FilterKeepsOrder(s[1..], p, before);
      var rest := Filter(s[1..], p);
      forall j | 0 <= j < |rest|
        ensures before(s[0], rest[j])
      {
        assert rest[j] in s[1..];
        var k :| 1 <= k < |s| && s[k] == rest[j];
      }
    }
  }

  /** The number of elements `Filter` keeps. */
  function CountSat<T>(s: seq<T>, p: T -> bool): nat
  {
    if |s| == 0 then 0 else (if p(s[0]) then 1 else 0) + CountSat(s[1..], p)
  }

  lemma {:induction false} FilterLength<T>(s: seq<T>, p: T -> bool)
    ensures |Filter(s, p)| == CountSat(s, p)
  {
    if |s| > 0 {
      FilterLength(s[1..], p);
    }
  }

  /** `Array.prototype.findIndex`: the lowest index whose element satisfies `p`, or -1. */
  function FindIndex<T>(s: seq<T>, p: T -> bool): (k: int)
    ensures -1 <= k < |s|
    ensures 0 <= k ==> p(s[k])
    ensures forall j :: 0 <= j < |s| && (k == -1 || j < k) ==> !p(s[j])
  {
    if |s| == 0 then -1
    else if p(s[0]) then 0
    else
      var k := FindIndex(s[1..], p);
      if k == -1 then -1 else k + 1
  }

  /** `Array.prototype.find`: the first element satisfying `p`, or `undefined`. */
  function Find<T>(s: seq<T>, p: T -> bool): (r: Option<T>)
    ensures r.None? <==> forall x :: x in s ==> !p(x)
    ensures r.Some? ==> exists k :: 0 <= k < |s| && s[k] == r.value && p(s[k]) && forall j :: 0 <= j < k ==> !p(s[j])
  {
    var k := FindIndex(s, p);
    if k == -1 then None else Some(s[k])
  }

  /** The predicate applied to every element before any selection, run in order: one result per element. */
  function Evaluate<T>(s: seq<T>, p: T -> bool): (results: seq<bool>)
    ensures |results| == |s|
    ensures forall i :: 0 <= i < |s| ==> results[i] == p(s[i])
  {
    seq(|s|, i requires 0 <= i < |s| => p(s[i]))
  }

  /** The elements whose collected result is truthy, in order. */
  function SelectAll<T>(s: seq<T>, results: seq<bool>): (r: seq<T>)
    requires |results| == |s|
    ensures |r| <= |s|
    ensures forall x :: x in r ==> exists i :: 0 <= i < |s| && s[i] == x && results[i]
    ensures forall i :: 0 <= i < |s| && results[i] ==> s[i] in r
  {
    if |s| == 0 then []
    else
      var rest := SelectAll(s[1..], results[1..]);
      assert forall i :: 1 <= i < |s| ==> s[i] == s[1..][i - 1] && results[i] == results[1..][i - 1];
      (if results[0] then [s[0]] else []) + rest
  }

  /** Each element paired with its collected result. */
  function Zip<T>(s: seq<T>, results: seq<bool>): (z: seq<(T, bool)>)
    requires |results| == |s|
    ensures |z| == |s|
    ensures forall i :: 0 <= i < |s| ==> z[i] == (s[i], results[i])
  {
    seq(|s|, i requires 0 <= i < |s| => (s[i], results[i]))
  }

  /** The elements of a sequence of pairs, without their results. */
  function Firsts<T>(z: seq<(T, bool)>): (r: seq<T>)
    ensures |r| == |z|
    ensures forall i :: 0 <= i < |z| ==> r[i] == z[i].0
  {
    seq(|z|, i requires 0 <= i < |z| => z[i].0)
  }

  predicate Kept<T>(pair: (T, bool))
  {
    pair.1
  }

  /**
   Selecting by arbitrary collected results is the synchronous filter over
   (element, result) pairs: the same elements, in the same order, once each.
   */
  lemma {:induction false} SelectAllIsFilterOfPairs<T>(s: seq<T>, results: seq<bool>)
    requires |results| == |s|
    ensures SelectAll(s, results) == Firsts(Filter(Zip(s, results), Kept))
  {
    if |s| > 0 {
      var z := Zip(s, results);
      assert z[1..] == Zip(s[1..], results[1..]);
      SelectAllIsFilterOfPairs(s[1..], results[1..]);
      var head := if results[0] then [z[0]] else [];
      var tail := Filter(z[1..], Kept);
      assert Filter(z, Kept) == head + tail;
      FirstsConcat(head, tail);
      assert Firsts(head) == if results[0] then [s[0]] else [];
    }
  }

  lemma FirstsConcat<T>(a: seq<(T, bool)>, b: seq<(T, bool)>)
    ensures Firsts(a + b) == Firsts(a) + Firsts(b)
  {
  }

  /** The first element whose collected result is truthy. */
  function SelectFirst<T>(s: seq<T>, results: seq<bool>): (r: Option<T>)
    requires |results| == |s|
    ensures r.None? <==> forall i :: 0 <= i < |s| ==> !results[i]
    ensures r.Some? ==> exists k :: 0 <= k < |s| && s[k] == r.value && results[k] && forall j :: 0 <= j < k ==> !results[j]
  {
    if |s| == 0 then None
    else if results[0] then Some(s[0])
    else
      var r := SelectFirst(s[1..], results[1..]);
      assert forall i :: 1 <= i < |s| ==> results[i] == results[1..][i - 1];
      r
  }

  function AsyncFilter<T>(s: seq<T>, p: T -> bool): seq<T>
  {
    SelectAll(s, Evaluate(s, p))
  }

  function AsyncFind<T>(s: seq<T>, p: T -> bool): Option<T>
  {
    SelectFirst(s, Evaluate(s, p))
  }

  /** With a pure predicate, `asyncFilter` keeps exactly what the synchronous filter keeps, in the same order. */
  lemma {:induction false} AsyncFilterIsFilter<T>(s: seq<T>, p: T -> bool)
    ensures AsyncFilter(s, p) == Filter(s, p)
  {
    if |s| > 0 {
      assert Evaluate(s, p)[1..] == Evaluate(s[1..], p);
      AsyncFilterIsFilter(s[1..], p);
    }
  }

  /** With a pure predicate, `asyncFind` returns what the synchronous find returns. */
  lemma AsyncFindIsFind<T>(s: seq<T>, p: T -> bool)
    ensures AsyncFind(s, p) == Find(s, p)
  {
    var r := AsyncFind(s, p);
    var k := FindIndex(s, p);
    if r.Some? {
      var i :| 0 <= i < |s| && s[i] == r.value && p(s[i]) && forall j :: 0 <= j < i ==> !p(s[j]);
      assert k == i;
    }
  }
}
