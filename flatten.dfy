/** `VideoPerturbationAnalyzer._flatten_matrix`: the elements of every row of
    the matrices at indices 0, 100, 200, ..., concatenated in order. */
module Flatten {

  /** The step of the outer loop over matrix indices. */
  const Stride: nat := 100

  /** Concatenation of a list of lists, in order. */
  function Concat<T>(xs: seq<seq<T>>): seq<T>
  {
    if xs == [] then [] else Concat(xs[..|xs| - 1]) + xs[|xs| - 1]
  }

  /** The matrices the outer loop visits: those at indices `0, Stride, 2 * Stride, ...`
      below `|matrices|`, in order. */
  function Sampled<T>(matrices: seq<seq<seq<T>>>): (picked: seq<seq<seq<T>>>)
    ensures |picked| == (|matrices| + Stride - 1) / Stride
    ensures forall k :: 0 <= k < |picked| ==> picked[k] == matrices[Stride * k]
    decreases |matrices|
  {
    if matrices == [] then []
    else if |matrices| <= Stride then [matrices[0]]
    else [matrices[0]] + Sampled(matrices[Stride..])
  }

  /** The elements of every matrix, each matrix's rows concatenated. */
  function RowsOf<T>(matrices: seq<seq<seq<T>>>): (rows: seq<seq<T>>)
    ensures |rows| == |matrices|
  {
    seq(|matrices|, k requires 0 <= k < |matrices| => Concat(matrices[k]))
  }

  /** What `_flatten_matrix` returns: as many elements as the visited
      matrices hold together. */
  function Flattened<T>(matrices: seq<seq<seq<T>>>): (flat: seq<T>)
    ensures |flat| == TotalCount(Sampled(matrices))
  {
    RowsLength(Sampled(matrices));
    Concat(RowsOf(Sampled(matrices)))
  }

  /** Appending one list to the argument of `Concat` appends its elements. */
  lemma ConcatSnoc<T>(xs: seq<seq<T>>, x: seq<T>)
    ensures Concat(xs + [x]) == Concat(xs) + x
  {
    assert (xs + [x])[..|xs|] == xs;
  }

  /** One more row of a matrix appends that row's elements. */
  lemma ConcatPrefixStep<T>(xs: seq<seq<T>>, n: nat)
    requires n < |xs|
    ensures Concat(xs[..n + 1]) == Concat(xs[..n]) + xs[n]
  {
    assert xs[..n + 1] == xs[..n] + [xs[n]];
    ConcatSnoc(xs[..n], xs[n]);
  }

  /** One more visited matrix appends that matrix's elements. */
  lemma RowsPrefixStep<T>(ms: seq<seq<seq<T>>>, n: nat)
    requires n < |ms|
    ensures Concat(RowsOf(ms[..n + 1])) == Concat(RowsOf(ms[..n])) + Concat(ms[n])
  {
    assert RowsOf(ms[..n + 1]) == RowsOf(ms[..n]) + [Concat(ms[n])];
    ConcatSnoc(RowsOf(ms[..n]), Concat(ms[n]));
  }

  /** The triple loop of `_flatten_matrix`. */
  method FlattenMatrix<T>(matrices: seq<seq<seq<T>>>) returns (flat: seq<T>)
    ensures flat == Flattened(matrices)
  {
    ghost var picked := Sampled(matrices);
    flat := [];
    var matrixIdx := 0;
    ghost var done := 0;
    while matrixIdx < |matrices|
      invariant matrixIdx == Stride * done
      invariant done <= |picked|
      invariant flat == Concat(RowsOf(picked[..done]))
    {
      var matrix := matrices[matrixIdx];
      ghost var before := flat;
      var line := 0;
      while line < |matrix|
        invariant line <= |matrix|
        invariant flat == before + Concat(matrix[..line])
      {
        var row := matrix[line];
        var i := 0;
        while i < |row|
          invariant i <= |row|
          invariant flat == before + Concat(matrix[..line]) + row[..i]
        {
          flat := flat + [row[i]];
          i := i + 1;
        }
        assert row[..i] == row;
        ConcatPrefixStep(matrix, line);
        line := line + 1;
      }
      assert matrix[..line] == matrix;
      RowsPrefixStep(picked, done);
      matrixIdx := matrixIdx + Stride;
      done := done + 1;
    }
    assert picked[..done] == picked;
  }

  /** The number of elements of one matrix. */
  function ElementCount<T>(matrix: seq<seq<T>>): nat
  {
    if matrix == [] then 0 else ElementCount(matrix[..|matrix| - 1]) + |matrix[|matrix| - 1]|
  }

  /** The number of elements of all the matrices. */
  function TotalCount<T>(matrices: seq<seq<seq<T>>>): nat
  {
    if matrices == [] then 0 else TotalCount(matrices[..|matrices| - 1]) + ElementCount(matrices[|matrices| - 1])
  }

  /** `Concat` keeps every element: its length is the sum of the lengths. */
  lemma {:induction false} ConcatLength<T>(xs: seq<seq<T>>)
    ensures |Concat(xs)| == ElementCount(xs)
  {
    if xs != [] {
      ConcatLength(xs[..|xs| - 1]);
    }
  }

  /** Concatenating the matrices' element lists keeps every element. */
  lemma {:induction false} RowsLength<T>(ms: seq<seq<seq<T>>>)
    ensures |Concat(RowsOf(ms))| == TotalCount(ms)
  {
    if ms != [] {
      var init := ms[..|ms| - 1];
      RowsLength(init);
      assert RowsOf(ms) == RowsOf(init) + [Concat(ms[|ms| - 1])];
      ConcatSnoc(RowsOf(init), Concat(ms[|ms| - 1]));
      ConcatLength(ms[|ms| - 1]);
    }
  }

  /** Matrices at indices that are not multiples of the stride contribute
      nothing: two lists that agree at every visited index flatten alike. */
  lemma OnlySampledMatter<T>(matrices: seq<seq<seq<T>>>, others: seq<seq<seq<T>>>)
    requires |matrices| == |others|
    requires forall j :: 0 <= j < |matrices| && j % Stride == 0 ==> matrices[j] == others[j]
    ensures Flattened(matrices) == Flattened(others)
  {
    var a, b := Sampled(matrices), Sampled(others);
    forall k | 0 <= k < |a|
      ensures a[k] == b[k]
    {
      assert (Stride * k) % Stride == 0;
    }
    assert a == b;
  }
}
