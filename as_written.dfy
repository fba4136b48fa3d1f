/** Two routines of src/algs.cpp exactly as written, where control can
    reach the closing brace of a function that must return a value (which
    C++ leaves undefined). Module Algs models the evidently intended
    versions, and the rest of the model uses those. */
module AsWritten {
  import opened Sequences

  /** What a call yields: the value of a return statement, or control
      running off the end of the function body. */
  datatype Outcome<R> = Returned(value: R) | FellOffEnd

  /** binary_search as written: it returns true on a hit and has no
      return statement after its loop, so every search for a value that is
      absent ends with no result instead of false. */
  method BinarySearchAsWritten(a: array<int>, b: int, e: int, x: int) returns (o: Outcome<bool>)
    requires 0 <= b <= e <= a.Length
    requires Sorted(a[b..e])
    ensures o == Returned(true) <==> x in a[b..e]
    ensures o == FellOffEnd <==> x !in a[b..e]
  {
    var lo, hi := b, e;
    while lo < hi
      invariant b <= lo <= hi <= e
      invariant forall i :: b <= i < e && a[i] == x ==> lo <= i < hi
    {
      var mid := lo + (hi - lo) / 2;
      if x < a[mid] {
        forall i | mid <= i < e ensures a[i] != x {
          assert a[b..e][mid - b] <= a[b..e][i - b];
        }
        hi := mid;
      } else if a[mid] < x {
        forall i | b <= i <= mid ensures a[i] != x {
          assert a[b..e][i - b] <= a[b..e][mid - b];
        }
        lo := mid + 1;
      } else {
        assert a[b..e][mid - b] == x;
        return Returned(true);
      }
    }
    return FellOffEnd;
  }

  /** remove_copy as written: it writes the same elements as the intended
      version but has no return statement at all, so no call gives its
      caller the end of the output. */
  method RemoveCopyAsWritten<T(==)>(a: array<T>, b: int, e: int, out: array<T>, d: int, x: T)
    returns (o: Outcome<int>)
    requires 0 <= b <= e <= a.Length
    requires 0 <= d && d + |Without(a[b..e], x)| <= out.Length
    requires a != out
    modifies out
    ensures o == FellOffEnd
    ensures out[d..d + |Without(a[b..e], x)|] == Without(a[b..e], x)
  {
    var i, w := b, d;
    while i != e
      invariant b <= i <= e
      invariant |Without(a[b..i], x)| <= |Without(a[b..e], x)|
      invariant w == d + |Without(a[b..i], x)|
      invariant out[d..w] == Without(a[b..i], x)
    {
      assert a[b..i + 1] == a[b..i] + [a[i]];
      WithoutConcat(a[b..i], [a[i]], x);
      assert a[b..e] == a[b..i + 1] + a[i + 1..e];
      WithoutConcat(a[b..i + 1], a[i + 1..e], x);
      if a[i] != x {
        out[w] := a[i];
        w := w + 1;
      }
      i := i + 1;
    }
    assert a[b..i] == a[b..e];
    return FellOffEnd;
  }
}
