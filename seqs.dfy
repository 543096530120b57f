/** Sequence operations shared by the list operations of the model: `Array.prototype.filter`
    and the "is an order-preserving subsequence of" relation. */
module Seqs {

  /** `s.filter(f)`: the elements of `s` that satisfy `f`, in their original order. */
  function Filter<T>(f: T -> bool, s: seq<T>): (r: seq<T>)
    ensures |r| <= |s|
  {
    if s == [] then [] else (if f(s[0]) then [s[0]] else []) + Filter(f, s[1..])
  }

  /** What the filter keeps: only elements of `s` that satisfy `f`, and every such element. */
  lemma {:induction false} FilterMembers<T>(f: T -> bool, s: seq<T>)
    ensures forall i :: 0 <= i < |Filter(f, s)| ==> Filter(f, s)[i] in s && f(Filter(f, s)[i])
    ensures forall i :: 0 <= i < |s| && f(s[i]) ==> s[i] in Filter(f, s)
  {
    if s != [] {
      FilterMembers(f, s[1..]);
      var r := Filter(f, s);
      var head := if f(s[0]) then [s[0]] else [];
      assert r == head + Filter(f, s[1..]);
      forall i | 0 <= i < |r|
        ensures r[i] in s && f(r[i])
      {
        if i >= |head| {
          assert r[i] == Filter(f, s[1..])[i - |head|];
        }
      }
      forall i | 0 <= i < |s| && f(s[i])
        ensures s[i] in r
      {
        if i > 0 {
          assert s[i] == s[1..][i - 1];
        }
      }
    }
  }

  /** Taking one more element of a list appends that element. */
  lemma TakeSnoc<T>(s: seq<T>, j: int)
    requires 0 <= j < |s|
    ensures s[..j + 1] == s[..j] + [s[j]]
  {
  }

  /** Filtering distributes over concatenation. */
  lemma {:induction false} FilterConcat<T>(f: T -> bool, a: seq<T>, b: seq<T>)
    ensures Filter(f, a + b) == Filter(f, a) + Filter(f, b)
  {
    if a == [] {
      assert a + b == b;
    } else {
      var head := if f(a[0]) then [a[0]] else [];
      assert (a + b)[0] == a[0];
      assert (a + b)[1..] == a[1..] + b;
      FilterConcat(f, a[1..], b);
      calc {
        Filter(f, a + b);
        head + Filter(f, a[1..] + b);
        head + (Filter(f, a[1..]) + Filter(f, b));
        (head + Filter(f, a[1..])) + Filter(f, b);
        Filter(f, a) + Filter(f, b);
      }
    }
  }

  /** Filtering a list with one more element at the end. */
  lemma FilterSnoc<T>(f: T -> bool, s: seq<T>, x: T)
    ensures Filter(f, s + [x]) == Filter(f, s) + (if f(x) then [x] else [])
  {
    FilterConcat(f, s, [x]);
    assert Filter(f, [x]) == (if f(x) then [x] else []) + Filter(f, []);
  }

  /** Filtering keeps every occurrence of a selected element and drops every other one. */
  lemma {:induction false} FilterMultiset<T>(f: T -> bool, s: seq<T>, x: T)
    ensures multiset(Filter(f, s))[x] == if f(x) then multiset(s)[x] else 0
  {
    if s != [] {
      assert s == [s[0]] + s[1..];
      FilterMultiset(f, s[1..], x);
    }
  }

  /** A filter that selects everything is the identity. */
  lemma {:induction false} FilterAll<T>(f: T -> bool, s: seq<T>)
    requires forall i :: 0 <= i < |s| ==> f(s[i])
    ensures Filter(f, s) == s
  {
    if s != [] {
      FilterAll(f, s[1..]);
    }
  }

  /** A filter that selects nothing yields the empty list. */
  lemma {:induction false} FilterNone<T>(f: T -> bool, s: seq<T>)
    requires forall i :: 0 <= i < |s| ==> !f(s[i])
    ensures Filter(f, s) == []
  {
    if s != [] {
      FilterNone(f, s[1..]);
    }
  }

  /** Filtering twice with the same predicate is filtering once. */
  lemma {:induction false} FilterIdempotent<T>(f: T -> bool, s: seq<T>)
    ensures Filter(f, Filter(f, s)) == Filter(f, s)
  {
    var r := Filter(f, s);
    FilterMembers(f, s);
    FilterAll(f, r);
  }

  /** A filter keeps the whole list exactly when every element is selected. */
  lemma {:induction false} FilterLengthAll<T>(f: T -> bool, s: seq<T>)
    ensures |Filter(f, s)| == |s| <==> forall i :: 0 <= i < |s| ==> f(s[i])
  {
    if s != [] {
      FilterLengthAll(f, s[1..]);
      assert forall i :: 1 <= i < |s| ==> s[i] == s[1..][i - 1];
    }
  }

  /** Selecting from a list of the same length with a weaker test never selects more. */
  lemma {:induction false} FilterCountMonotone<T>(f: T -> bool, g: T -> bool, s: seq<T>, t: seq<T>)
    requires |s| == |t|
    requires forall i :: 0 <= i < |s| && f(s[i]) ==> g(t[i])
    ensures |Filter(f, s)| <= |Filter(g, t)|
  {
    if s != [] {
      FilterCountMonotone(f, g, s[1..], t[1..]);
    }
  }

  /** `a` is an order-preserving subsequence of `b`. */
  ghost predicate IsSubsequence<T>(a: seq<T>, b: seq<T>)
    decreases |b|
  {
    a == [] || (b != [] && ((a[0] == b[0] && IsSubsequence(a[1..], b[1..])) || IsSubsequence(a, b[1..])))
  }

  /** The result of a filter is an order-preserving subsequence of its input. */
  lemma {:induction false} FilterIsSubsequence<T>(f: T -> bool, s: seq<T>)
    ensures IsSubsequence(Filter(f, s), s)
  {
    if s != [] {
      FilterIsSubsequence(f, s[1..]);
      if f(s[0]) {
        assert Filter(f, s) == [s[0]] + Filter(f, s[1..]);
        assert Filter(f, s)[1..] == Filter(f, s[1..]);
      } else {
        assert Filter(f, s) == Filter(f, s[1..]);
      }
    }
  }
}
