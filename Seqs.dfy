/** Building a list by appending, element by element, what each element of
    another list contributes: the shape of every accumulating loop of the
    normalisation. */
module Seqs {

  /** The contributions `f(s[0]) + f(s[1]) + ...`, in order. */
  function FlatMap<T, U>(f: T -> seq<U>, s: seq<T>): seq<U> {
    if s == [] then [] else FlatMap(f, s[..|s| - 1]) + f(s[|s| - 1])
  }

  lemma AppendAssoc<T>(a: seq<T>, b: seq<T>, c: seq<T>)
    ensures a + b + c == a + (b + c)
  {
  }

  /** One more loop step appends the next element's contribution. */
  lemma FlatMapSnoc<T, U>(f: T -> seq<U>, s: seq<T>, j: nat)
    requires j < |s|
    ensures FlatMap(f, s[..j + 1]) == FlatMap(f, s[..j]) + f(s[j])
  {
    assert s[..j + 1][..j] == s[..j];
  }

  lemma FlatMapSingle<T, U>(f: T -> seq<U>, x: T)
    ensures FlatMap(f, [x]) == f(x)
  {
    assert [x][..0] == [];
  }

  lemma FlatMapPair<T, U>(f: T -> seq<U>, x: T, y: T)
    ensures FlatMap(f, [x, y]) == f(x) + f(y)
  {
    assert [x, y][..1] == [x];
    FlatMapSingle(f, x);
  }

  /** Contributions of two lists one after the other. */
  lemma {:induction false} FlatMapConcat<T, U>(f: T -> seq<U>, a: seq<T>, b: seq<T>)
    ensures FlatMap(f, a + b) == FlatMap(f, a) + FlatMap(f, b)
    decreases |b|
  {
    if b == [] {
      assert a + b == a;
    } else {
      assert (a + b)[..|a + b| - 1] == a + b[..|b| - 1];
      FlatMapConcat(f, a, b[..|b| - 1]);
    }
  }

  /** The contribution of one element sits between those of its neighbours. */
  lemma FlatMapMiddle<T, U>(f: T -> seq<U>, a: seq<T>, x: T, b: seq<T>)
    ensures FlatMap(f, a + [x] + b) == FlatMap(f, a) + f(x) + FlatMap(f, b)
  {
    FlatMapConcat(f, a + [x], b);
    FlatMapConcat(f, a, [x]);
    FlatMapSingle(f, x);
  }

  /** An element that contributes nothing can be dropped. */
  lemma FlatMapSkip<T, U>(f: T -> seq<U>, a: seq<T>, x: T, b: seq<T>)
    requires f(x) == []
    ensures FlatMap(f, a + [x] + b) == FlatMap(f, a + b)
  {
    FlatMapMiddle(f, a, x, b);
    FlatMapConcat(f, a, b);
  }

  /** Nothing is appended exactly when no element contributes anything. */
  lemma {:induction false} FlatMapEmptyIff<T, U>(f: T -> seq<U>, s: seq<T>)
    ensures FlatMap(f, s) == [] <==> forall k :: 0 <= k < |s| ==> f(s[k]) == []
    decreases |s|
  {
    if s != [] {
      var init := s[..|s| - 1];
      FlatMapEmptyIff(f, init);
      assert forall k :: 0 <= k < |init| ==> init[k] == s[k];
      assert FlatMap(f, s) == FlatMap(f, init) + f(s[|s| - 1]);
    }
  }

  /** When each element contributes at most one item, the result is no
      longer than the list. */
  lemma {:induction false} FlatMapAtMostOne<T, U>(f: T -> seq<U>, s: seq<T>)
    requires forall k :: 0 <= k < |s| ==> |f(s[k])| <= 1
    ensures |FlatMap(f, s)| <= |s|
    decreases |s|
  {
    if s != [] {
      var init := s[..|s| - 1];
      assert forall k :: 0 <= k < |init| ==> init[k] == s[k];
      FlatMapAtMostOne(f, init);
      assert |f(s[|s| - 1])| <= 1;
    }
  }

  /** When each element contributes exactly one item, the result has one item
      per element, the contribution of the element at the same index. */
  lemma {:induction false} FlatMapExactlyOne<T, U>(f: T -> seq<U>, s: seq<T>)
    requires forall k :: 0 <= k < |s| ==> |f(s[k])| == 1
    ensures |FlatMap(f, s)| == |s|
    ensures forall k :: 0 <= k < |s| ==> FlatMap(f, s)[k] == f(s[k])[0]
    decreases |s|
  {
    if s != [] {
      var init := s[..|s| - 1];
      assert forall k :: 0 <= k < |init| ==> init[k] == s[k];
      FlatMapExactlyOne(f, init);
      assert |f(s[|s| - 1])| == 1;
    }
  }

  /** A property every contributed item has holds of every item of the
      result. */
  lemma {:induction false} FlatMapAll<T, U>(f: T -> seq<U>, p: U -> bool, s: seq<T>)
    requires forall k, j :: 0 <= k < |s| && 0 <= j < |f(s[k])| ==> p(f(s[k])[j])
    ensures forall i :: 0 <= i < |FlatMap(f, s)| ==> p(FlatMap(f, s)[i])
    decreases |s|
  {
    if s != [] {
      var init := s[..|s| - 1];
      var last := s[|s| - 1];
      assert forall k :: 0 <= k < |init| ==> init[k] == s[k];
      FlatMapAll(f, p, init);
      forall i | 0 <= i < |FlatMap(f, s)| ensures p(FlatMap(f, s)[i]) {
        if i >= |FlatMap(f, init)| {
          var j := i - |FlatMap(f, init)|;
          assert FlatMap(f, s)[i] == f(s[|s| - 1])[j];
        }
      }
    }
  }

  /** Mapping in two stages is mapping once by the composed contribution. */
  lemma {:induction false} FlatMapFlatMap<T, U, V>(f: T -> seq<U>, g: U -> seq<V>, h: T -> seq<V>, s: seq<T>)
    requires forall k :: 0 <= k < |s| ==> FlatMap(g, f(s[k])) == h(s[k])
    ensures FlatMap(g, FlatMap(f, s)) == FlatMap(h, s)
    decreases |s|
  {
    if s != [] {
      var init := s[..|s| - 1];
      assert forall k :: 0 <= k < |init| ==> init[k] == s[k];
      FlatMapFlatMap(f, g, h, init);
      FlatMapConcat(g, FlatMap(f, init), f(s[|s| - 1]));
    }
  }

  /** When each element contributes at most one item and the contributions
      respect an order whenever the elements do, an ordered list gives an
      ordered result. */
  lemma {:induction false} FlatMapOrdered<T, U>(f: T -> seq<U>, q: (T, T) -> bool, r: (U, U) -> bool, s: seq<T>)
    requires forall k :: 0 <= k < |s| ==> |f(s[k])| <= 1
    requires forall i, j :: 0 <= i < j < |s| ==> q(s[i], s[j])
    requires forall x, y :: q(x, y) && |f(x)| == 1 && |f(y)| == 1 ==> r(f(x)[0], f(y)[0])
    ensures forall i, j :: 0 <= i < j < |FlatMap(f, s)| ==> r(FlatMap(f, s)[i], FlatMap(f, s)[j])
    decreases |s|
  {
    if s != [] {
      var init, last := s[..|s| - 1], s[|s| - 1];
      assert forall k :: 0 <= k < |init| ==> init[k] == s[k];
      FlatMapOrdered(f, q, r, init);
      if |f(last)| == 1 {
        var z := f(last)[0];
        forall k, j | 0 <= k < |init| && 0 <= j < |f(init[k])| ensures r(f(init[k])[j], z) {
          assert q(s[k], s[|s| - 1]);
        }
        FlatMapAll(f, y => r(y, z), init);
      }
    }
  }
}
