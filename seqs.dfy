/** `Array.prototype.filter` and the de-duplication `[...new Set(xs)]`, with their laws. */
module Seqs {

  /** `s.filter(p)`: the elements satisfying `p`, in their original order. */
  function Filter<T>(s: seq<T>, p: T -> bool): (r: seq<T>)
    ensures |r| <= |s|
    ensures forall i :: 0 <= i < |r| ==> r[i] in s && p(r[i])
    ensures forall i :: 0 <= i < |s| && p(s[i]) ==> s[i] in r
  {
    if s == [] then []
    else if p(s[0]) then [s[0]] + Filter(s[1..], p)
    else Filter(s[1..], p)
  }

  /** `a` is obtained from `b` by deleting elements, so its order is `b`'s. */
  predicate IsSubsequence<T(==)>(a: seq<T>, b: seq<T>)
    decreases |b|
  {
    if a == [] then true
    else if b == [] then false
    else if a[0] == b[0] then IsSubsequence(a[1..], b[1..])
    else IsSubsequence(a, b[1..])
  }

  lemma {:induction false} FilterIsSubsequence<T>(s: seq<T>, p: T -> bool)
    ensures IsSubsequence(Filter(s, p), s)
    decreases |s|
  {
    if s != [] {
      FilterIsSubsequence(s[1..], p);
      if p(s[0]) {
        assert ([s[0]] + Filter(s[1..], p))[1..] == Filter(s[1..], p);
      } else if Filter(s[1..], p) != [] {
        SubsequenceSkipsHead(Filter(s[1..], p), s);
      }
    }
  }

  lemma {:induction false} SubsequenceSkipsHead<T>(a: seq<T>, b: seq<T>)
    requires b != [] && IsSubsequence(a, b[1..])
    ensures IsSubsequence(a, b)
    decreases |b|
  {
    if a != [] && a[0] == b[0] {
      SubsequenceTail(a, b[1..]);
      if a[1..] != [] {
        SubsequenceSkipsHead(a[1..], b[1..]);
      }
    }
  }

  lemma {:induction false} SubsequenceTail<T>(a: seq<T>, b: seq<T>)
    requires a != [] && IsSubsequence(a, b)
    ensures IsSubsequence(a[1..], b[1..])
    decreases |b|
  {
    if a[0] != b[0] {
      SubsequenceTail(a, b[1..]);
      SubsequenceSkipsHead(a[1..], b[1..]);
    }
  }

  /** Filtering twice with the same predicate is filtering once. */
  lemma {:induction false} FilterIdempotent<T>(s: seq<T>, p: T -> bool)
    ensures Filter(Filter(s, p), p) == Filter(s, p)
    decreases |s|
  {
    if s != [] {
      FilterIdempotent(s[1..], p);
      if p(s[0]) {
        assert ([s[0]] + Filter(s[1..], p))[1..] == Filter(s[1..], p);
      }
    }
  }

  /** A predicate that holds of every element keeps the whole sequence. */
  lemma {:induction false} FilterKeepsAll<T>(s: seq<T>, p: T -> bool)
    requires forall i :: 0 <= i < |s| ==> p(s[i])
    ensures Filter(s, p) == s
    decreases |s|
  {
    if s != [] {
      FilterKeepsAll(s[1..], p);
    }
  }

  /** `[...new Set(s)]`: each distinct element once, at its first occurrence. */
  function Dedup<T(==)>(s: seq<T>): (r: seq<T>)
    ensures forall i :: 0 <= i < |r| ==> r[i] in s
    ensures forall i :: 0 <= i < |s| ==> s[i] in r
    ensures forall i, j :: 0 <= i < j < |r| ==> r[i] != r[j]
    decreases |s|
  {
    if s == [] then []
    else
      var init := s[..|s| - 1];
      var last := s[|s| - 1];
      assert s == init + [last];
      if last in init then Dedup(init) else Dedup(init) + [last]
  }

  /** `s.flatMap(f)`: the results of `f` on each element, concatenated in order. */
  function FlatMap<A, B>(s: seq<A>, f: A -> seq<B>): seq<B> {
    if s == [] then [] else f(s[0]) + FlatMap(s[1..], f)
  }

  lemma {:induction false} FlatMapAppend<A, B>(p: seq<A>, q: seq<A>, f: A -> seq<B>)
    ensures FlatMap(p + q, f) == FlatMap(p, f) + FlatMap(q, f)
    decreases |p|
  {
    if p == [] {
      assert p + q == q;
    } else {
      assert (p + q)[1..] == p[1..] + q;
      FlatMapAppend(p[1..], q, f);
    }
  }

  /** A property of every element of every `f(x)` holds of every element of the flat map. */
  lemma {:induction false} FlatMapAll<A, B>(s: seq<A>, f: A -> seq<B>, P: B -> bool)
    requires forall i, j :: 0 <= i < |s| && 0 <= j < |f(s[i])| ==> P(f(s[i])[j])
    ensures forall k :: 0 <= k < |FlatMap(s, f)| ==> P(FlatMap(s, f)[k])
    decreases |s|
  {
    if s != [] {
      FlatMapAll(s[1..], f, P);
      var head, rest := f(s[0]), FlatMap(s[1..], f);
      forall k | 0 <= k < |head + rest| ensures P((head + rest)[k]) {
        if k < |head| {
          assert (head + rest)[k] == f(s[0])[k];
        } else {
          assert (head + rest)[k] == rest[k - |head|];
        }
      }
    }
  }
}
