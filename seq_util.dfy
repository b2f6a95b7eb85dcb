/** The one list shape the converters share: a loop that looks at each
    element in turn and appends what it yields, if anything. */
module SeqUtil {
  import opened TextUtil

  /** The values `f` yields on the elements of `xs`, in order; elements on
      which it yields nothing are skipped. */
  function FilterMap<T, U>(xs: seq<T>, f: T -> Option<U>): (ys: seq<U>)
    ensures |ys| <= |xs|
    decreases |xs|
  {
    if xs == [] then []
    else
      var init := FilterMap(xs[..|xs| - 1], f);
      match f(xs[|xs| - 1])
      case None => init
      case Some(y) => init + [y]
  }

  /** One more element adds what it yields at the end. */
  lemma FilterMapStep<T, U>(xs: seq<T>, i: nat, f: T -> Option<U>)
    requires i < |xs|
    ensures FilterMap(xs[..i + 1], f) ==
      FilterMap(xs[..i], f) + (match f(xs[i]) case None => [] case Some(y) => [y])
  {
    assert xs[..i + 1][..i] == xs[..i];
  }

  /** The loop form of `FilterMapStep`: the results so far, extended by
      what the next element yields. */
  lemma FilterMapExtend<T, U>(xs: seq<T>, i: nat, f: T -> Option<U>, acc: seq<U>, y: Option<U>)
    requires i < |xs| && acc == FilterMap(xs[..i], f) && y == f(xs[i])
    ensures FilterMap(xs[..i + 1], f) == match y case None => acc case Some(v) => acc + [v]
  {
    FilterMapStep(xs, i, f);
  }

  /** What one element yields, as a sequence of at most one value. */
  function Yield<U>(y: Option<U>): seq<U>
  {
    match y case None => [] case Some(v) => [v]
  }

  /** An element put at the end adds what it yields at the end. */
  lemma FilterMapSnoc<T, U>(zs: seq<T>, z: T, f: T -> Option<U>)
    ensures FilterMap(zs + [z], f) == FilterMap(zs, f) + Yield(f(z))
  {
    var t := zs + [z];
    assert t[..|t| - 1] == zs;
  }

  /** Consecutive runs yield consecutive results. */
  lemma {:induction false} FilterMapAppend<T, U>(xs: seq<T>, ys: seq<T>, f: T -> Option<U>)
    ensures FilterMap(xs + ys, f) == FilterMap(xs, f) + FilterMap(ys, f)
    decreases |ys|
  {
    if ys == [] {
      assert xs + ys == xs;
    } else {
      var n := |ys| - 1;
      FilterMapAppend(xs, ys[..n], f);
      assert ys == ys[..n] + [ys[n]];
      assert xs + ys == (xs + ys[..n]) + [ys[n]];
      FilterMapSnoc(ys[..n], ys[n], f);
      FilterMapSnoc(xs + ys[..n], ys[n], f);
    }
  }

  /** A value is in the result exactly when some element yields it. */
  lemma {:induction false} FilterMapMembership<T, U>(xs: seq<T>, f: T -> Option<U>, y: U)
    ensures y in FilterMap(xs, f) <==> exists k :: 0 <= k < |xs| && f(xs[k]) == Some(y)
    decreases |xs|
  {
    if xs != [] {
      var n := |xs| - 1;
      FilterMapMembership(xs[..n], f, y);
      if exists k :: 0 <= k < |xs| && f(xs[k]) == Some(y) {
        var k :| 0 <= k < |xs| && f(xs[k]) == Some(y);
        if k < n {
          assert xs[..n][k] == xs[k];
        }
      }
      assert forall k :: 0 <= k < n ==> xs[..n][k] == xs[k];
    }
  }

  /** An element that yields nothing can be inserted anywhere without
      changing the result. */
  lemma FilterMapSkips<T, U>(before: seq<T>, x: T, after: seq<T>, f: T -> Option<U>)
    requires f(x).None?
    ensures FilterMap(before + [x] + after, f) == FilterMap(before + after, f)
  {
    FilterMapAppend(before + [x], after, f);
    FilterMapAppend(before, [x], f);
    FilterMapAppend(before, after, f);
    var single: seq<T> := [x];
    assert single[..0] == [];
  }

  /** Filtering the results of `f` through `g` is filtering the elements
      through any `h` that does both steps at once. */
  lemma {:induction false} FilterMapFuse<T, U, V>(xs: seq<T>, f: T -> Option<U>, g: U -> Option<V>,
                                                  h: T -> Option<V>)
    requires forall k :: 0 <= k < |xs| ==>
      h(xs[k]) == match f(xs[k]) case None => None case Some(y) => g(y)
    ensures FilterMap(FilterMap(xs, f), g) == FilterMap(xs, h)
    decreases |xs|
  {
    if xs != [] {
      var n := |xs| - 1;
      assert forall k :: 0 <= k < n ==> xs[..n][k] == xs[k];
      FilterMapFuse(xs[..n], f, g, h);
      var init := FilterMap(xs[..n], f);
      match f(xs[n])
      case None =>
      case Some(y) =>
        FilterMapAppend(init, [y], g);
        var single: seq<U> := [y];
        assert single[..0] == [];
    }
  }

  /** The results of `f` on the elements of `xs`, concatenated in order. */
  function ConcatMap<T, U>(xs: seq<T>, f: T -> seq<U>): seq<U>
    decreases |xs|
  {
    if xs == [] then [] else ConcatMap(xs[..|xs| - 1], f) + f(xs[|xs| - 1])
  }

  /** One more element adds its results at the end. */
  lemma ConcatMapStep<T, U>(xs: seq<T>, i: nat, f: T -> seq<U>)
    requires i < |xs|
    ensures ConcatMap(xs[..i + 1], f) == ConcatMap(xs[..i], f) + f(xs[i])
  {
    assert xs[..i + 1][..i] == xs[..i];
  }

  /** The loop form of `ConcatMapStep`: appending the results for the next
      element to the results so far. */
  lemma ConcatMapExtend<T, U>(xs: seq<T>, i: nat, f: T -> seq<U>, acc: seq<U>, next: seq<U>)
    requires i < |xs| && acc == ConcatMap(xs[..i], f) && next == f(xs[i])
    ensures acc + next == ConcatMap(xs[..i + 1], f)
  {
    ConcatMapStep(xs, i, f);
  }

  /** An element put at the end adds its results at the end. */
  lemma ConcatMapSnoc<T, U>(zs: seq<T>, z: T, f: T -> seq<U>)
    ensures ConcatMap(zs + [z], f) == ConcatMap(zs, f) + f(z)
  {
    var t := zs + [z];
    assert t[..|t| - 1] == zs;
  }

  /** Consecutive runs give consecutive results. */
  lemma {:induction false} ConcatMapAppend<T, U>(xs: seq<T>, ys: seq<T>, f: T -> seq<U>)
    ensures ConcatMap(xs + ys, f) == ConcatMap(xs, f) + ConcatMap(ys, f)
    decreases |ys|
  {
    if ys == [] {
      assert xs + ys == xs;
    } else {
      var n := |ys| - 1;
      ConcatMapAppend(xs, ys[..n], f);
      assert ys == ys[..n] + [ys[n]];
      assert xs + ys == (xs + ys[..n]) + [ys[n]];
      ConcatMapSnoc(ys[..n], ys[n], f);
      ConcatMapSnoc(xs + ys[..n], ys[n], f);
    }
  }

  /** Every value in the result comes from the results of some element. */
  lemma {:induction false} ConcatMapOrigin<T, U>(xs: seq<T>, f: T -> seq<U>, y: U) returns (k: nat)
    requires y in ConcatMap(xs, f)
    ensures k < |xs| && y in f(xs[k])
    decreases |xs|
  {
    var n := |xs| - 1;
    if y in f(xs[n]) {
      k := n;
    } else {
      k := ConcatMapOrigin(xs[..n], f, y);
    }
  }

  /** How many elements pass `keep`. */
  function CountKept<T>(xs: seq<T>, keep: T -> bool): nat
    decreases |xs|
  {
    if xs == [] then 0
    else CountKept(xs[..|xs| - 1], keep) + (if keep(xs[|xs| - 1]) then 1 else 0)
  }

  /** The elements that pass `keep`, in order. */
  function Kept<T>(xs: seq<T>, keep: T -> bool): (ks: seq<T>)
    ensures |ks| == CountKept(xs, keep)
    decreases |xs|
  {
    if xs == [] then []
    else
      var init := Kept(xs[..|xs| - 1], keep);
      if keep(xs[|xs| - 1]) then init + [xs[|xs| - 1]] else init
  }

  /** A loop with a counter that advances only on elements passing `keep`:
      each such element contributes `f` of itself and the counter's value. */
  function CountedConcat<T, U>(xs: seq<T>, keep: T -> bool, f: (T, nat) -> seq<U>): seq<U>
    decreases |xs|
  {
    if xs == [] then []
    else
      var init := xs[..|xs| - 1];
      var x := xs[|xs| - 1];
      CountedConcat(init, keep, f) + (if keep(x) then f(x, CountKept(init, keep)) else [])
  }

  /** Each element contributes `f` of itself and its position. */
  function IndexedConcat<T, U>(xs: seq<T>, f: (T, nat) -> seq<U>): seq<U>
    decreases |xs|
  {
    if xs == [] then [] else IndexedConcat(xs[..|xs| - 1], f) + f(xs[|xs| - 1], |xs| - 1)
  }

  /** One more element: the counter and the results as the loop updates
      them. */
  lemma CountedConcatStep<T, U>(xs: seq<T>, i: nat, keep: T -> bool, f: (T, nat) -> seq<U>)
    requires i < |xs|
    ensures CountKept(xs[..i + 1], keep) == CountKept(xs[..i], keep) + (if keep(xs[i]) then 1 else 0)
    ensures CountedConcat(xs[..i + 1], keep, f) ==
      CountedConcat(xs[..i], keep, f) + (if keep(xs[i]) then f(xs[i], CountKept(xs[..i], keep)) else [])
  {
    assert xs[..i + 1][..i] == xs[..i];
  }

  /** The loop form of `CountedConcatStep`, over the counter and the results
      so far. */
  lemma CountedConcatExtend<T, U>(xs: seq<T>, i: nat, keep: T -> bool, f: (T, nat) -> seq<U>,
                                  acc: seq<U>, count: nat, kept: bool)
    requires i < |xs| && acc == CountedConcat(xs[..i], keep, f) && count == CountKept(xs[..i], keep)
    requires kept == keep(xs[i])
    ensures kept ==>
      CountKept(xs[..i + 1], keep) == count + 1 && CountedConcat(xs[..i + 1], keep, f) == acc + f(xs[i], count)
    ensures !kept ==>
      CountKept(xs[..i + 1], keep) == count && CountedConcat(xs[..i + 1], keep, f) == acc
  {
    CountedConcatStep(xs, i, keep, f);
  }

  /** The counter numbers the kept elements: the loop gives the k-th kept
      element the number k. */
  lemma {:induction false} CountedConcatIsIndexed<T, U>(xs: seq<T>, keep: T -> bool, f: (T, nat) -> seq<U>)
    ensures CountedConcat(xs, keep, f) == IndexedConcat(Kept(xs, keep), f)
    decreases |xs|
  {
    if xs != [] {
      var init := xs[..|xs| - 1];
      CountedConcatIsIndexed(init, keep, f);
      if keep(xs[|xs| - 1]) {
        var ks := Kept(xs, keep);
        assert ks[..|ks| - 1] == Kept(init, keep);
      }
    }
  }

  /** Every value in the result comes from some element and its position. */
  lemma {:induction false} IndexedConcatOrigin<T, U>(xs: seq<T>, f: (T, nat) -> seq<U>, y: U) returns (k: nat)
    requires y in IndexedConcat(xs, f)
    ensures k < |xs| && y in f(xs[k], k)
    decreases |xs|
  {
    var n := |xs| - 1;
    if y in f(xs[n], n) {
      k := n;
    } else {
      k := IndexedConcatOrigin(xs[..n], f, y);
    }
  }

  /** The first position from `i` up to (not including) `n` at which `p`
      holds, as a left-to-right search finds it. */
  function FirstFrom(i: nat, n: nat, p: nat -> bool): (r: Option<nat>)
    ensures r.Some? ==> i <= r.value < n && p(r.value)
    ensures r.Some? ==> forall k :: i <= k < r.value ==> !p(k)
    ensures r.None? ==> forall k :: i <= k < n ==> !p(k)
    decreases n - i
  {
    if i >= n then None
    else if p(i) then Some(i)
    else FirstFrom(i + 1, n, p)
  }

  /** The first element on which `f` yields something, and what it yields:
      a chain of searches tried in order until one succeeds. */
  function FirstSome<T, U>(xs: seq<T>, f: T -> Option<U>): (r: Option<U>)
    ensures r.Some? ==>
      exists k :: 0 <= k < |xs| && f(xs[k]) == r && forall j :: 0 <= j < k ==> f(xs[j]).None?
    ensures r.None? ==> forall k :: 0 <= k < |xs| ==> f(xs[k]).None?
    decreases |xs|
  {
    if xs == [] then None
    else match f(xs[0])
      case Some(v) => Some(v)
      case None =>
        var r := FirstSome(xs[1..], f);
        assert forall k :: 0 <= k < |xs| - 1 ==> xs[1..][k] == xs[k + 1];
        r
  }
}
