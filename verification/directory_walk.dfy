/**
 * The directory listing both theme tools consume: the entries `os.walk` yields,
 * in the order it yields them, and the filter-then-transform shape both tools use
 * to turn the walk into their results.
 */
module DirectoryWalk {

  /** One entry of `os.walk`: a folder, the names of its subfolders and of its files. */
  datatype WalkEntry = WalkEntry(root: string, dirs: seq<string>, files: seq<string>)

  /** `[f(x) for x in xs if keep(x)]`: the kept elements, transformed, in their order. */
  function FilterMap<T, U>(xs: seq<T>, keep: T -> bool, f: T -> U): (r: seq<U>)
    ensures |r| <= |xs|
  {
    if xs == [] then []
    else FilterMap(xs[..|xs| - 1], keep, f) + (if keep(xs[|xs| - 1]) then [f(xs[|xs| - 1])] else [])
  }

  /** Extending the input by one element extends the result by that element's image, if it is kept. */
  lemma FilterMapSnoc<T, U>(xs: seq<T>, i: nat, keep: T -> bool, f: T -> U)
    requires i < |xs|
    ensures FilterMap(xs[..i + 1], keep, f) == FilterMap(xs[..i], keep, f) + (if keep(xs[i]) then [f(xs[i])] else [])
  {
    assert xs[..i + 1][..i] == xs[..i];
  }

  /** Every kept element contributes its image. */
  lemma {:induction false} FilterMapComplete<T, U>(xs: seq<T>, keep: T -> bool, f: T -> U)
    ensures forall i :: 0 <= i < |xs| && keep(xs[i]) ==> f(xs[i]) in FilterMap(xs, keep, f)
  {
    if xs != [] {
      var init := xs[..|xs| - 1];
      FilterMapComplete(init, keep, f);
      assert forall i :: 0 <= i < |init| ==> init[i] == xs[i];
    }
  }

  /** Every result is the image of a kept element. */
  lemma {:induction false} FilterMapSound<T, U>(xs: seq<T>, keep: T -> bool, f: T -> U)
    ensures forall y :: y in FilterMap(xs, keep, f) ==> exists i :: 0 <= i < |xs| && keep(xs[i]) && y == f(xs[i])
  {
    if xs != [] {
      var init := xs[..|xs| - 1];
      FilterMapSound(init, keep, f);
      assert forall i :: 0 <= i < |init| ==> init[i] == xs[i];
    }
  }

  /** Nothing is produced exactly when nothing is kept. */
  lemma {:induction false} FilterMapEmpty<T, U>(xs: seq<T>, keep: T -> bool, f: T -> U)
    ensures FilterMap(xs, keep, f) == [] <==> forall i :: 0 <= i < |xs| ==> !keep(xs[i])
  {
    if xs != [] {
      var init := xs[..|xs| - 1];
      FilterMapEmpty(init, keep, f);
      assert forall i :: 0 <= i < |init| ==> init[i] == xs[i];
    }
  }

  /** Filtering a concatenation keeps the results of the first part first. */
  lemma {:induction false} FilterMapAppend<T, U>(a: seq<T>, b: seq<T>, keep: T -> bool, f: T -> U)
    ensures FilterMap(a + b, keep, f) == FilterMap(a, keep, f) + FilterMap(b, keep, f)
    decreases |b|
  {
    if b == [] {
      assert a + b == a;
    } else {
      assert (a + b)[..|a + b| - 1] == a + b[..|b| - 1];
      FilterMapAppend(a, b[..|b| - 1], keep, f);
    }
  }

  /** Projecting each result of one transform gives the results of another when the projection agrees on every element. */
  lemma {:induction false} FilterMapProject<T, U, V>(xs: seq<T>, keep: T -> bool, f: T -> U, g: T -> V, project: V -> U)
    requires forall x :: project(g(x)) == f(x)
    ensures |FilterMap(xs, keep, g)| == |FilterMap(xs, keep, f)|
    ensures forall k :: 0 <= k < |FilterMap(xs, keep, g)| ==> project(FilterMap(xs, keep, g)[k]) == FilterMap(xs, keep, f)[k]
  {
    if xs != [] {
      FilterMapProject(xs[..|xs| - 1], keep, f, g, project);
    }
  }
}
