/**
 * The list shapes the ingestion loops build: a list extended, element after
 * element, by what a function gives for each element (`ConcatMap`), and the
 * special case of a loop that appends one transformed element or skips it
 * (`Keep`), which is a `Map` after a `Filter`.
 */
module Seqs {

  /** `f` applied to every element of `xs`, the resulting sequences concatenated in order. */
  function ConcatMap<T, U>(xs: seq<T>, f: T -> seq<U>): seq<U>
  {
    if xs == [] then [] else ConcatMap(xs[..|xs| - 1], f) + f(xs[|xs| - 1])
  }

  /** One more element of a prefix: the blocks so far, then its block. */
  lemma ConcatMapSnoc<T, U>(xs: seq<T>, f: T -> seq<U>, j: nat)
    requires j < |xs|
    ensures ConcatMap(xs[..j + 1], f) == ConcatMap(xs[..j], f) + f(xs[j])
  {
    assert xs[..j + 1][..j] == xs[..j];
  }

  /** Mapping over two runs: the results for the first, then those for the second. */
  lemma {:induction false} ConcatMapAppend<T, U>(xs: seq<T>, ys: seq<T>, f: T -> seq<U>)
    ensures ConcatMap(xs + ys, f) == ConcatMap(xs, f) + ConcatMap(ys, f)
    decreases |ys|
  {
    if ys == [] {
      assert xs + ys == xs;
    } else {
      var init, last := ys[..|ys| - 1], ys[|ys| - 1];
      assert (xs + ys)[..|xs + ys| - 1] == xs + init;
      assert (xs + ys)[|xs + ys| - 1] == last;
      ConcatMapAppend(xs, init, f);
    }
  }

  /** Mapping over one element gives its result. */
  lemma ConcatMapSingle<T, U>(x: T, f: T -> seq<U>)
    ensures ConcatMap([x], f) == f(x)
  {
    assert [x][..0] == [];
  }

  /** Mapping over `[x] + xs`: the result for `x`, then those for `xs`. */
  lemma ConcatMapCons<T, U>(x: T, xs: seq<T>, f: T -> seq<U>)
    ensures ConcatMap([x] + xs, f) == f(x) + ConcatMap(xs, f)
  {
    ConcatMapAppend([x], xs, f);
    ConcatMapSingle(x, f);
  }

  /** A sequence is its elements before `i`, then element `i`, then those after it. */
  lemma SplitAround<T>(xs: seq<T>, i: nat)
    requires i < |xs|
    ensures xs == xs[..i] + [xs[i]] + xs[i + 1..]
  {
    assert forall k :: 0 <= k < |xs| ==> xs[k] == (xs[..i] + [xs[i]] + xs[i + 1..])[k];
  }

  /** The result for element `i` is one block, between those for the elements before and after it. */
  lemma ConcatMapAt<T, U>(xs: seq<T>, f: T -> seq<U>, i: nat)
    requires i < |xs|
    ensures ConcatMap(xs, f) == ConcatMap(xs[..i], f) + f(xs[i]) + ConcatMap(xs[i + 1..], f)
  {
    SplitAround(xs, i);
    ConcatMapAppend(xs[..i] + [xs[i]], xs[i + 1..], f);
    ConcatMapAppend(xs[..i], [xs[i]], f);
    ConcatMapSingle(xs[i], f);
  }

  /** Every element of every block is in the concatenation. */
  lemma ConcatMapContains<T, U>(xs: seq<T>, f: T -> seq<U>, i: nat, k: nat)
    requires i < |xs| && k < |f(xs[i])|
    ensures f(xs[i])[k] in ConcatMap(xs, f)
  {
    ConcatMapAt(xs, f, i);
    var prefix := ConcatMap(xs[..i], f);
    assert ConcatMap(xs, f)[|prefix| + k] == f(xs[i])[k];
  }

  /** Every element of the concatenation is in the block of some element. */
  lemma {:induction false} ConcatMapOrigin<T, U>(xs: seq<T>, f: T -> seq<U>, y: U) returns (i: nat)
    requires y in ConcatMap(xs, f)
    ensures i < |xs| && y in f(xs[i])
  {
    var init := xs[..|xs| - 1];
    if y in f(xs[|xs| - 1]) {
      i := |xs| - 1;
    } else {
      i := ConcatMapOrigin(init, f, y);
      assert init[i] == xs[i];
    }
  }

  /** The elements of `xs` that satisfy `keep`, in order. */
  function Filter<T>(xs: seq<T>, keep: T -> bool): (r: seq<T>)
    ensures |r| <= |xs|
    ensures forall x :: x in r ==> x in xs && keep(x)
  {
    if xs == [] then []
    else (if keep(xs[0]) then [xs[0]] else []) + Filter(xs[1..], keep)
  }

  /** An element that satisfies `keep` passes the filter. */
  lemma {:induction false} FilterKeeps<T>(xs: seq<T>, keep: T -> bool, k: nat)
    requires k < |xs| && keep(xs[k])
    ensures xs[k] in Filter(xs, keep)
  {
    if k > 0 {
      FilterKeeps(xs[1..], keep, k - 1);
    }
  }

  /** Filtering one more element at the end. */
  lemma {:induction false} FilterSnoc<T>(xs: seq<T>, keep: T -> bool, x: T)
    ensures Filter(xs + [x], keep) == Filter(xs, keep) + (if keep(x) then [x] else [])
  {
    if xs == [] {
      assert [] + [x] == [x];
      assert [x][1..] == [];
    } else {
      assert (xs + [x])[0] == xs[0];
      assert (xs + [x])[1..] == xs[1..] + [x];
      FilterSnoc(xs[1..], keep, x);
    }
  }

  /** `g` applied to every element, in order. */
  function Map<T, U>(xs: seq<T>, g: T -> U): (r: seq<U>)
    ensures |r| == |xs|
    ensures forall k :: 0 <= k < |xs| ==> r[k] == g(xs[k])
  {
    seq(|xs|, k requires 0 <= k < |xs| => g(xs[k]))
  }

  /** Mapping two runs: the first mapped, then the second. */
  lemma MapAppend<T, U>(xs: seq<T>, ys: seq<T>, g: T -> U)
    ensures Map(xs + ys, g) == Map(xs, g) + Map(ys, g)
  {
    var l, r := Map(xs + ys, g), Map(xs, g) + Map(ys, g);
    assert forall k :: 0 <= k < |l| ==> l[k] == r[k];
  }

  /** The block of one element for a loop that appends `g(x)` when `keep(x)` holds and skips `x` otherwise. */
  function Keep<T, U>(g: T -> U, keep: T -> bool): T -> seq<U>
  {
    x => if keep(x) then [g(x)] else []
  }

  /**
   * Appending `g(x)` for the elements that satisfy `keep` and skipping the
   * rest gives the filtered elements, mapped: one result per kept element,
   * in order, none for a skipped one.
   */
  lemma {:induction false} ConcatMapKeep<T, U>(xs: seq<T>, g: T -> U, keep: T -> bool)
    ensures ConcatMap(xs, Keep(g, keep)) == Map(Filter(xs, keep), g)
  {
    if xs != [] {
      var init, x := xs[..|xs| - 1], xs[|xs| - 1];
      assert xs == init + [x];
      ConcatMapKeep(init, g, keep);
      FilterSnoc(init, keep, x);
      if keep(x) {
        MapAppend(Filter(init, keep), [x], g);
      }
    }
  }
}
