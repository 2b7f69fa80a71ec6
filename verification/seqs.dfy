/**
 The "for x in xs: if keep(x): out.append(g(x))" loop that recurs throughout
 the extractor, as one function over sequences with the facts every caller
 needs: order is kept, nothing is invented, nothing kept is lost.
 */
module Seqs {
  import opened Text

  /** Apply `f` to each element in order and keep the `Some` results. */
  function FilterMap<T, U>(f: T -> Option<U>, xs: seq<T>): (ys: seq<U>)
    ensures |ys| <= |xs|
    ensures forall k :: 0 <= k < |ys| ==> exists i :: 0 <= i < |xs| && f(xs[i]) == Some(ys[k])
    ensures forall i :: 0 <= i < |xs| && f(xs[i]).Some? ==> f(xs[i]).value in ys
  {
    if |xs| == 0 then []
    else
      var head := match f(xs[0]) case Some(y) => [y] case None => [];
      var rest := FilterMap(f, xs[1..]);
      assert forall i :: 1 <= i < |xs| ==> xs[i] == xs[1..][i - 1];
      head + rest
  }

  /** A property every result of `f` has, every kept element has. */
  lemma FilterMapKeeps<T, U>(f: T -> Option<U>, xs: seq<T>, P: U -> bool)
    requires forall x :: f(x).Some? ==> P(f(x).value)
    ensures forall k :: 0 <= k < |FilterMap(f, xs)| ==> P(FilterMap(f, xs)[k])
  {
  }

  /** Elements are processed one at a time, in order. */
  lemma {:induction false} FilterMapAppend<T, U>(f: T -> Option<U>, a: seq<T>, b: seq<T>)
    ensures FilterMap(f, a + b) == FilterMap(f, a) + FilterMap(f, b)
    decreases |a|
  {
    if |a| == 0 {
      assert a + b == b;
    } else {
      assert (a + b)[1..] == a[1..] + b;
      assert (a + b)[0] == a[0];
      FilterMapAppend(f, a[1..], b);
    }
  }

  /** One element contributes its result, if any. */
  lemma FilterMapSingle<T, U>(f: T -> Option<U>, x: T)
    ensures FilterMap(f, [x]) == match f(x) case Some(y) => [y] case None => []
  {
    assert [x][1..] == [];
  }

  /** The result is empty exactly when no element yields a result. */
  lemma FilterMapEmpty<T, U>(f: T -> Option<U>, xs: seq<T>)
    ensures FilterMap(f, xs) == [] <==> forall i :: 0 <= i < |xs| ==> f(xs[i]).None?
  {
  }
}
