/** Generic sequence queries: the `filter`, `map`, `find` and `findIndex` array methods. */
module Seqs {
  import opened Wrappers

  /** The elements of `s` satisfying `p`, kept in their original order (`Array.prototype.filter`). */
  function Filter<T(!new)>(s: seq<T>, p: T -> bool): (r: seq<T>)
    ensures |r| <= |s|
    ensures forall x :: x in r <==> x in s && p(x)
  {
    if |s| == 0 then []
    else
      assert s == [s[0]] + s[1..];
      (if p(s[0]) then [s[0]] else []) + Filter(s[1..], p)
  }

  /** `Array.prototype.map`. */
  function Map<T, U>(s: seq<T>, f: T -> U): (r: seq<U>)
    ensures |r| == |s|
    ensures forall i :: 0 <= i < |s| ==> r[i] == f(s[i])
  {
    seq(|s|, i requires 0 <= i < |s| => f(s[i]))
  }

  /** The index of the first element satisfying `p` (`Array.prototype.findIndex`, with `None` for -1). */
  function FindIndex<T>(s: seq<T>, p: T -> bool): (r: Option<nat>)
    ensures r.Some? ==> r.value < |s| && p(s[r.value])
    ensures r.Some? ==> forall j :: 0 <= j < r.value ==> !p(s[j])
    ensures r.None? <==> forall j :: 0 <= j < |s| ==> !p(s[j])
  {
    if |s| == 0 then None
    else if p(s[0]) then Some(0)
    else
      match FindIndex(s[1..], p)
      case None => None
      case Some(i) => Some(i + 1)
  }

  /** The first element satisfying `p` (`Array.prototype.find`). */
  function Find<T(!new)>(s: seq<T>, p: T -> bool): (r: Option<T>)
    ensures r.Some? ==> r.value in s && p(r.value)
    ensures r.None? <==> forall x :: x in s ==> !p(x)
  {
    match FindIndex(s, p)
    case None => None
    case Some(i) => Some(s[i])
  }

  /** Filtering distributes over concatenation. */
  lemma {:induction false} FilterConcat<T(!new)>(a: seq<T>, b: seq<T>, p: T -> bool)
    ensures Filter(a + b, p) == Filter(a, p) + Filter(b, p)
    decreases |a|
  {
    if |a| == 0 {
      assert a + b == b;
    } else {
      assert (a + b)[1..] == a[1..] + b;
      FilterConcat(a[1..], b, p);
    }
  }

  /** Filtering a sequence with a known first element. */
  lemma FilterCons<T(!new)>(x: T, t: seq<T>, p: T -> bool)
    ensures Filter([x] + t, p) == (if p(x) then [x] else []) + Filter(t, p)
  {
    assert ([x] + t)[1..] == t;
  }

  /** An element the filter rejects whenever `head` is kept may be moved past `head`. */
  lemma FilterConsPast<T(!new)>(x: T, rest: seq<T>, tail: seq<T>, head: seq<T>, p: T -> bool)
    requires Filter(rest, p) == head + Filter(tail, p)
    requires head != [] ==> !p(x)
    ensures Filter([x] + rest, p) == head + Filter([x] + tail, p)
  {
    FilterCons(x, rest, p);
    FilterCons(x, tail, p);
    PrependPast(if p(x) then [x] else [], head, Filter(rest, p), Filter(tail, p));
  }

  /** A prefix that is empty whenever `head` is not may be moved past `head`. */
  lemma PrependPast<T>(front: seq<T>, head: seq<T>, a: seq<T>, b: seq<T>)
    requires a == head + b
    requires head != [] ==> front == []
    ensures front + a == head + (front + b)
  {
    if head == [] {
      assert head + (front + b) == front + b;
    } else {
      assert front + a == a;
      assert front + b == b;
    }
  }

  /** A filter that keeps everything is the identity. */
  lemma {:induction false} FilterKeepsAll<T(!new)>(s: seq<T>, p: T -> bool)
    requires forall x :: x in s ==> p(x)
    ensures Filter(s, p) == s
    decreases |s|
  {
    if |s| > 0 {
      assert forall x :: x in s[1..] ==> x in s;
      FilterKeepsAll(s[1..], p);
      assert s == [s[0]] + s[1..];
    }
  }

  /** A filter that rejects everything leaves nothing. */
  lemma FilterDropsAll<T(!new)>(s: seq<T>, p: T -> bool)
    requires forall x :: x in s ==> !p(x)
    ensures Filter(s, p) == []
  {
    var r := Filter(s, p);
    assert forall k :: 0 <= k < |r| ==> r[k] in r;
  }

  /** Filtering one appended element either keeps it at the end or drops it. */
  lemma FilterSnoc<T(!new)>(s: seq<T>, x: T, p: T -> bool)
    ensures Filter(s + [x], p) == Filter(s, p) + (if p(x) then [x] else [])
  {
    FilterConcat(s, [x], p);
    assert Filter([x], p) == (if p(x) then [x] else []) + Filter([x][1..], p);
  }

  /** Changing elements that `p` rejects, into elements `p` still rejects, does not change the filter. */
  lemma {:induction false} FilterUpdateRejected<T(!new)>(s: seq<T>, i: nat, y: T, p: T -> bool)
    requires i < |s| && !p(s[i]) && !p(y)
    ensures Filter(s[i := y], p) == Filter(s, p)
    decreases |s|
  {
    if i == 0 {
      assert s[i := y][1..] == s[1..];
    } else {
      assert s[i := y][1..] == s[1..][i - 1 := y];
      FilterUpdateRejected(s[1..], i - 1, y, p);
    }
  }

  /** Two tests that agree on every element of `s` filter it alike. */
  lemma {:induction false} FilterCongruent<T(!new)>(s: seq<T>, p: T -> bool, q: T -> bool)
    requires forall k :: 0 <= k < |s| ==> p(s[k]) == q(s[k])
    ensures Filter(s, p) == Filter(s, q)
    decreases |s|
  {
    if |s| > 0 {
      FilterCongruent(s[1..], p, q);
    }
  }

  /** Updating the element between `a` and `b`. */
  lemma UpdateMiddle<T>(a: seq<T>, x: T, y: T, b: seq<T>)
    ensures (a + ([x] + b))[|a| := y] == a + ([y] + b)
  {
  }

  /** A sequence split around index `i`. */
  lemma SplitAt<T>(s: seq<T>, i: nat, y: T)
    requires i < |s|
    ensures s == s[..i] + ([s[i]] + s[i + 1..])
    ensures s[i := y] == s[..i] + ([y] + s[i + 1..])
  {
  }

  /**
   * Replacing one element the filter keeps by another it keeps replaces it in
   * the filtered sequence too, at the index given by the kept elements before it.
   */
  lemma FilterUpdateAccepted<T(!new)>(s: seq<T>, i: nat, y: T, p: T -> bool)
    requires i < |s| && p(s[i]) && p(y)
    ensures var j := |Filter(s[..i], p)|;
      && j < |Filter(s, p)| && Filter(s, p)[j] == s[i]
      && Filter(s[i := y], p) == Filter(s, p)[j := y]
  {
    var a := s[..i];
    var b := s[i + 1..];
    SplitAt(s, i, y);
    FilterConcat(a, [s[i]] + b, p);
    FilterConcat(a, [y] + b, p);
    FilterCons(s[i], b, p);
    FilterCons(y, b, p);
    UpdateMiddle(Filter(a, p), s[i], y, Filter(b, p));
  }

  /** The filter grows by one exactly when an element it rejected is replaced by one it keeps. */
  lemma {:induction false} FilterLengthUpdate<T(!new)>(s: seq<T>, i: nat, y: T, p: T -> bool)
    requires i < |s|
    ensures |Filter(s[i := y], p)| + (if p(s[i]) then 1 else 0) == |Filter(s, p)| + (if p(y) then 1 else 0)
    decreases |s|
  {
    if i == 0 {
      assert s[i := y][1..] == s[1..];
    } else {
      assert s[i := y][1..] == s[1..][i - 1 := y];
      FilterLengthUpdate(s[1..], i - 1, y, p);
    }
  }

  /** A filter that keeps exactly one element yields just that element. */
  lemma {:induction false} FilterSingleMatch<T(!new)>(s: seq<T>, j: nat, p: T -> bool)
    requires j < |s| && p(s[j])
    requires forall k :: 0 <= k < |s| && k != j ==> !p(s[k])
    ensures Filter(s, p) == [s[j]]
    decreases |s|
  {
    var t := s[1..];
    assert s == [s[0]] + t;
    FilterCons(s[0], t, p);
    if j == 0 {
      forall x | x in t
        ensures !p(x)
      {
        var k :| 0 <= k < |t| && t[k] == x;
        assert s[k + 1] == x;
      }
      FilterDropsAll(t, p);
    } else {
      FilterSingleMatch(t, j - 1, p);
    }
  }

  /** Appending elements the test rejects does not move the first match. */
  lemma {:induction false} FindIndexConcatRejected<T>(a: seq<T>, b: seq<T>, p: T -> bool)
    requires forall k :: 0 <= k < |b| ==> !p(b[k])
    ensures FindIndex(a + b, p) == FindIndex(a, p)
    decreases |a|
  {
    if |a| > 0 {
      assert (a + b)[1..] == a[1..] + b;
      FindIndexConcatRejected(a[1..], b, p);
    } else {
      assert a + b == b;
    }
  }

  /** Mapping distributes over concatenation. */
  lemma MapConcat<T, U>(a: seq<T>, b: seq<T>, f: T -> U)
    ensures Map(a + b, f) == Map(a, f) + Map(b, f)
  {
  }
}
