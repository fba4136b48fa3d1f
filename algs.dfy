/** The algorithm library of src/algs.h and src/algs.cpp.

    A cursor is an integer index into an array; a range [b, e) is a pair of
    cursors with 0 <= b <= e <= a.Length, and `e` is never read. An output
    cursor `d` is an index into a separate destination array `out`. A C++
    reference to a stored value is an array cell, so `swap` exchanges two
    cells. Each routine keeps the loop, the early returns and the
    comparisons of its C++ body. */
module Algs {
  import opened Sequences

  // ---------------------------------------------------------------------
  // Traversal

  /** for_each: the callable's state after it has seen every element of
      [b, e) once, left to right. */
  method ForEach<T, S>(a: array<T>, b: int, e: int, f: (S, T) -> S, s0: S) returns (s: S)
    requires 0 <= b <= e <= a.Length
    ensures s == Fold(f, s0, a[b..e])
  {
    s := s0;
    var i := b;
    while i != e
      invariant b <= i <= e
      invariant Fold(f, s, a[i..e]) == Fold(f, s0, a[b..e])
    {
      assert a[i..e][1..] == a[i + 1..e];
      s := f(s, a[i]);
      i := i + 1;
    }
  }

  // ---------------------------------------------------------------------
  // Search

  /** find: the first cursor in [b, e) holding `x`, or `e` when there is
      none; the same cursor the recursive rfind returns. */
  method Find<T(==)>(a: array<T>, b: int, e: int, x: T) returns (r: int)
    requires 0 <= b <= e <= a.Length
    ensures b <= r <= e
    ensures forall i :: b <= i < r ==> a[i] != x
    ensures r < e ==> a[r] == x
    ensures r == e <==> x !in a[b..e]
    ensures r == RFind(a, b, e, x)
  {
    r := b;
    while r != e && a[r] != x
      invariant b <= r <= e
      invariant forall i :: b <= i < r ==> a[i] != x
      invariant RFind(a, r, e, x) == RFind(a, b, e, x)
    {
      r := r + 1;
    }
    if r < e {
      assert a[b..e][r - b] == x;
    }
  }

  /** rfind: find by recursion; every call shortens the range by one. */
  function RFind<T(==)>(a: array<T>, b: int, e: int, x: T): (r: int)
    reads a
    requires 0 <= b <= e <= a.Length
    ensures b <= r <= e
    ensures forall i :: b <= i < r ==> a[i] != x
    ensures r < e ==> a[r] == x
    decreases e - b
  {
    if b == e || a[b] == x then b else RFind(a, b + 1, e, x)
  }

  /** find_if: the first cursor in [b, e) where `p` holds, or `e`. */
  method FindIf<T>(a: array<T>, b: int, e: int, p: T -> bool) returns (r: int)
    requires 0 <= b <= e <= a.Length
    ensures b <= r <= e
    ensures forall i :: b <= i < r ==> !p(a[i])
    ensures r < e ==> p(a[r])
  {
    r := b;
    while r != e && !p(a[r])
      invariant b <= r <= e
      invariant forall i :: b <= i < r ==> !p(a[i])
    {
      r := r + 1;
    }
  }

  /** search: the leftmost cursor of [b1, e1) at which [b2, e2) occurs;
      `b1` for an empty needle; `e1` when there is no occurrence. */
  method Search<T(==)>(a: array<T>, b1: int, e1: int, c: array<T>, b2: int, e2: int) returns (r: int)
    requires 0 <= b1 <= e1 <= a.Length
    requires 0 <= b2 <= e2 <= c.Length
    ensures b1 <= r <= e1
    ensures b2 == e2 ==> r == b1
    ensures forall i :: b1 <= i < r ==> !OccursAt(a[..e1], i, c[b2..e2])
    ensures r < e1 ==> OccursAt(a[..e1], r, c[b2..e2])
  {
    if b2 == e2 {
      return b1;
    }
    var lo := b1;
    while lo != e1
      invariant b1 <= lo <= e1
      invariant forall i :: b1 <= i < lo ==> !OccursAt(a[..e1], i, c[b2..e2])
    {
      var it1, it2 := lo, b2;
      while a[it1] == c[it2]
        invariant lo <= it1 < e1 && b2 <= it2 < e2 && it1 - lo == it2 - b2
        invariant a[lo..it1] == c[b2..it2]
        decreases e1 - it1
      {
        it1, it2 := it1 + 1, it2 + 1;
        if it2 == e2 {
          assert a[..e1][lo..it1] == a[lo..it1];
          return lo;
        }
        if it1 == e1 {
          return e1;
        }
      }
      assert a[..e1][it1] != c[b2..e2][it2 - b2];
      assert lo + (e2 - b2) <= e1 ==> a[..e1][lo..lo + (e2 - b2)][it2 - b2] != c[b2..e2][it2 - b2];
      lo := lo + 1;
    }
    return e1;
  }

  /** binary_search over an ascending range: true exactly when `x` occurs.
      The midpoint is taken as b + (e - b) / 2 and every step narrows the
      range around every occurrence of `x`. */
  method BinarySearch(a: array<int>, b: int, e: int, x: int) returns (found: bool)
    requires 0 <= b <= e <= a.Length
    requires Sorted(a[b..e])
    ensures found <==> x in a[b..e]
  {
    var lo, hi := b, e;
    while lo < hi
      invariant b <= lo <= hi <= e
      invariant forall i :: b <= i < e && a[i] == x ==> lo <= i < hi
    {
      var mid := lo + (hi - lo) / 2;
      assert lo <= mid < hi;
      if x < a[mid] {
        forall i | mid <= i < e ensures a[i] != x {
          assert a[b..e][mid - b] <= a[b..e][i - b];
        }
        hi := mid;
      } else if a[mid] < x {
        forall i | b <= i <= mid ensures a[i] != x {
          assert a[b..e][i - b] <= a[b..e][mid - b];
        }
        lo := mid + 1;
      } else {
        assert a[b..e][mid - b] == x;
        return true;
      }
    }
    return false;
  }

  // ---------------------------------------------------------------------
  // Comparison

  /** equal: [b1, e) matches, element by element, the equally long range
      that starts at `b2`. */
  method Equal<T(==)>(a: array<T>, b1: int, e: int, c: array<T>, b2: int) returns (r: bool)
    requires 0 <= b1 <= e <= a.Length
    requires 0 <= b2 && b2 + (e - b1) <= c.Length
    ensures r <==> a[b1..e] == c[b2..b2 + (e - b1)]
  {
    var i, j := b1, b2;
    while i != e
      invariant b1 <= i <= e && j - b2 == i - b1
      invariant a[b1..i] == c[b2..j]
    {
      if a[i] != c[j] {
        assert a[b1..e][i - b1] != c[b2..b2 + (e - b1)][i - b1];
        return false;
      }
      i, j := i + 1, j + 1;
    }
    return true;
  }

  // ---------------------------------------------------------------------
  // Copying and filtering copy

  /** copy: [b, e) lands at out[d..], and the cursor one past the last
      write comes back; nothing else in `out` changes. */
  method Copy<T>(a: array<T>, b: int, e: int, out: array<T>, d: int) returns (r: int)
    requires 0 <= b <= e <= a.Length
    requires 0 <= d && d + (e - b) <= out.Length
    requires a != out
    modifies out
    ensures r == d + (e - b)
    ensures out[d..r] == a[b..e]
    ensures out[..d] == old(out[..d]) && out[r..] == old(out[r..])
  {
    var i := b;
    r := d;
    while i != e
      invariant b <= i <= e && r - d == i - b
      invariant out[d..r] == a[b..i]
      invariant out[..d] == old(out[..d]) && out[r..] == old(out[r..])
    {
      out[r] := a[i];
      r, i := r + 1, i + 1;
    }
  }

  /** remove_copy: the elements of [b, e) other than `x`, in order, land
      at out[d..]; the end of what was written comes back. */
  method RemoveCopy<T(==)>(a: array<T>, b: int, e: int, out: array<T>, d: int, x: T) returns (r: int)
    requires 0 <= b <= e <= a.Length
    requires 0 <= d && d + |Without(a[b..e], x)| <= out.Length
    requires a != out
    modifies out
    ensures r == d + |Without(a[b..e], x)|
    ensures out[d..r] == Without(a[b..e], x)
    ensures out[..d] == old(out[..d]) && out[r..] == old(out[r..])
  {
    var i := b;
    r := d;
    while i != e
      invariant b <= i <= e
      invariant |Without(a[b..i], x)| <= |Without(a[b..e], x)|
      invariant r == d + |Without(a[b..i], x)|
      invariant out[d..r] == Without(a[b..i], x)
      invariant out[..d] == old(out[..d]) && out[r..] == old(out[r..])
    {
      assert a[b..i + 1] == a[b..i] + [a[i]];
      WithoutConcat(a[b..i], [a[i]], x);
      assert a[b..e] == a[b..i + 1] + a[i + 1..e];
      WithoutConcat(a[b..i + 1], a[i + 1..e], x);
      if a[i] != x {
        out[r] := a[i];
        r := r + 1;
      }
      i := i + 1;
    }
    assert a[b..i] == a[b..e];
  }

  /** remove_copy_if: the elements of [b, e) on which `p` fails, in order,
      land at out[d..]; the end of what was written comes back. */
  method RemoveCopyIf<T>(a: array<T>, b: int, e: int, out: array<T>, d: int, p: T -> bool) returns (r: int)
    requires 0 <= b <= e <= a.Length
    requires 0 <= d && d + |Reject(a[b..e], p)| <= out.Length
    requires a != out
    modifies out
    ensures r == d + |Reject(a[b..e], p)|
    ensures out[d..r] == Reject(a[b..e], p)
    ensures out[..d] == old(out[..d]) && out[r..] == old(out[r..])
  {
    var i := b;
    r := d;
    while i != e
      invariant b <= i <= e
      invariant |Reject(a[b..i], p)| <= |Reject(a[b..e], p)|
      invariant r == d + |Reject(a[b..i], p)|
      invariant out[d..r] == Reject(a[b..i], p)
      invariant out[..d] == old(out[..d]) && out[r..] == old(out[r..])
    {
      assert a[b..i + 1] == a[b..i] + [a[i]];
      RejectConcat(a[b..i], [a[i]], p);
      assert a[b..e] == a[b..i + 1] + a[i + 1..e];
      RejectConcat(a[b..i + 1], a[i + 1..e], p);
      if !p(a[i]) {
        out[r] := a[i];
        r := r + 1;
      }
      i := i + 1;
    }
    assert a[b..i] == a[b..e];
  }

  // ---------------------------------------------------------------------
  // In-place mutation

  /** swap: exchanges two stored values; the same cell twice is a no-op. */
  method Swap<T>(a: array<T>, i: int, j: int)
    requires 0 <= i < a.Length && 0 <= j < a.Length
    modifies a
    ensures a[i] == old(a[j]) && a[j] == old(a[i])
    ensures forall k :: 0 <= k < a.Length && k != i && k != j ==> a[k] == old(a[k])
    ensures multiset(a[..]) == old(multiset(a[..]))
  {
    var t := a[i];
    a[i] := a[j];
    a[j] := t;
  }

  /** Two swaps of the same cells restore them. */
  method SwapTwiceRestores<T>(a: array<T>, i: int, j: int)
    requires 0 <= i < a.Length && 0 <= j < a.Length
    modifies a
    ensures a[..] == old(a[..])
  {
    Swap(a, i, j);
    Swap(a, i, j);
    assert a[..] == old(a[..]);
  }

  /** replace: every `x` in [b, e) becomes `y`; all else stays. */
  method Replace<T(==)>(a: array<T>, b: int, e: int, x: T, y: T)
    requires 0 <= b <= e <= a.Length
    modifies a
    ensures a[b..e] == Replaced(old(a[b..e]), x, y)
    ensures a[..b] == old(a[..b]) && a[e..] == old(a[e..])
  {
    var i := b;
    while i != e
      invariant b <= i <= e
      invariant forall k :: b <= k < i ==> a[k] == if old(a[k]) == x then y else old(a[k])
      invariant forall k :: 0 <= k < a.Length && !(b <= k < i) ==> a[k] == old(a[k])
    {
      if a[i] == x {
        a[i] := y;
      }
      i := i + 1;
    }
    ghost var s := old(a[b..e]);
    ReplacedLength(s, x, y);
    forall k | 0 <= k < e - b
      ensures a[b..e][k] == Replaced(s, x, y)[k]
    {
      ReplacedAt(s, x, y, k);
    }
  }

  /** remove: compacts [b, e) so that [b, r) holds the elements other
      than `x`, in order. Only cells before `r` are written, so [r, e)
      keeps its old values. */
  method Remove<T(==)>(a: array<T>, b: int, e: int, x: T) returns (r: int)
    requires 0 <= b <= e <= a.Length
    modifies a
    ensures b <= r <= e
    ensures a[b..r] == Without(old(a[b..e]), x)
    ensures r - b == (e - b) - multiset(old(a[b..e]))[x]
    ensures a[..b] == old(a[..b]) && a[r..] == old(a[r..])
  {
    ghost var s := a[..];
    r := b;
    var i := b;
    while i != e
      invariant b <= r <= i <= e
      invariant a[b..r] == Without(s[b..i], x)
      invariant forall k :: 0 <= k < a.Length && !(b <= k < r) ==> a[k] == s[k]
    {
      assert s[b..i + 1] == s[b..i] + [s[i]];
      WithoutConcat(s[b..i], [s[i]], x);
      if !(a[i] == x) {
        if r != i {
          a[r] := a[i];
        }
        r := r + 1;
      }
      i := i + 1;
    }
    assert s[b..i] == s[b..e];
    WithoutMultiset(s[b..e], x);
  }

  /** remove_if: compacts [b, e) so that [b, r) holds the elements on
      which `p` fails, in order; [r, e) keeps its old values. */
  method RemoveIf<T>(a: array<T>, b: int, e: int, p: T -> bool) returns (r: int)
    requires 0 <= b <= e <= a.Length
    modifies a
    ensures b <= r <= e
    ensures a[b..r] == Reject(old(a[b..e]), p)
    ensures forall k :: b <= k < r ==> !p(a[k])
    ensures a[..b] == old(a[..b]) && a[r..] == old(a[r..])
  {
    ghost var s := a[..];
    r := b;
    var i := b;
    while i != e
      invariant b <= r <= i <= e
      invariant a[b..r] == Reject(s[b..i], p)
      invariant forall k :: b <= k < r ==> !p(a[k])
      invariant forall k :: 0 <= k < a.Length && !(b <= k < r) ==> a[k] == s[k]
    {
      assert s[b..i + 1] == s[b..i] + [s[i]];
      RejectConcat(s[b..i], [s[i]], p);
      if !p(a[i]) {
        if r != i {
          a[r] := a[i];
        }
        r := r + 1;
      }
      i := i + 1;
    }
    assert s[b..i] == s[b..e];
  }

  /** reverse: [b, e) back to front, by swapping inward from both ends
      until the cursors meet; cells outside the range stay. */
  method Reverse<T>(a: array<T>, b: int, e: int)
    requires 0 <= b <= e <= a.Length
    modifies a
    ensures a[b..e] == Reversed(old(a[b..e]))
    ensures a[..b] == old(a[..b]) && a[e..] == old(a[e..])
  {
    var lo, hi := b, e;
    while lo != hi
      invariant b <= lo <= hi <= e
      invariant lo - b == e - hi || (lo == hi && lo - b + 1 == e - hi)
      invariant forall k :: b <= k < lo || hi <= k < e ==> a[k] == old(a[b + e - 1 - k])
      invariant forall k :: 0 <= k < a.Length && !(b <= k < lo || hi <= k < e) ==> a[k] == old(a[k])
      decreases hi - lo
    {
      hi := hi - 1;
      if lo != hi {
        Swap(a, lo, hi);
        lo := lo + 1;
      }
    }
    ghost var s := old(a[b..e]);
    ReversedLength(s);
    forall k | 0 <= k < e - b
      ensures a[b..e][k] == Reversed(s)[k]
    {
      ReversedAt(s, k);
      assert a[b..e][k] == a[b + k] == old(a[e - 1 - k]) == s[e - b - 1 - k];
    }
  }

  /** Reversing a range twice restores the whole array. */
  method ReverseTwiceRestores<T>(a: array<T>, b: int, e: int)
    requires 0 <= b <= e <= a.Length
    modifies a
    ensures a[..] == old(a[..])
  {
    Reverse(a, b, e);
    Reverse(a, b, e);
    ReversedInvolution(old(a[b..e]));
    assert a[..] == a[..b] + a[b..e] + a[e..];
    assert old(a[..]) == old(a[..b]) + old(a[b..e]) + old(a[e..]);
  }

  /** partition: rearranges [b, e) so that the elements on which `p`
      holds come first; `m` is the first cursor of the rest. The range
      keeps its elements, and cells outside it stay. */
  method Partition<T>(a: array<T>, b: int, e: int, p: T -> bool) returns (m: int)
    requires 0 <= b <= e <= a.Length
    modifies a
    ensures b <= m <= e
    ensures forall k :: b <= k < m ==> p(a[k])
    ensures forall k :: m <= k < e ==> !p(a[k])
    ensures multiset(a[b..e]) == old(multiset(a[b..e]))
    ensures a[..b] == old(a[..b]) && a[e..] == old(a[e..])
  {
    ghost var s := a[..];
    var lo, hi := b, e;
    while lo != hi
      invariant b <= lo <= hi <= e
      invariant forall k :: b <= k < lo ==> p(a[k])
      invariant forall k :: hi <= k < e ==> !p(a[k])
      invariant multiset(a[..]) == multiset(s)
      invariant a[..b] == s[..b] && a[e..] == s[e..]
      decreases hi - lo
    {
      while p(a[lo])
        invariant b <= lo < hi
        invariant forall k :: b <= k < lo ==> p(a[k])
        decreases hi - lo
      {
        lo := lo + 1;
        if lo == hi {
          KeptAround(s, a[..], b, e);
          return lo;
        }
      }
      hi := hi - 1;
      if lo == hi {
        KeptAround(s, a[..], b, e);
        return lo;
      }
      while !p(a[hi])
        invariant lo < hi < e
        invariant forall k :: hi < k < e ==> !p(a[k])
        decreases hi - lo
      {
        hi := hi - 1;
        if lo == hi {
          KeptAround(s, a[..], b, e);
          return lo;
        }
      }
      Swap(a, lo, hi);
      lo := lo + 1;
    }
    KeptAround(s, a[..], b, e);
    return lo;
  }

  /** A rearrangement of a whole sequence that leaves the cells around
      [b, e) alone keeps the multiset of [b, e). */
  lemma KeptAround<T>(s: seq<T>, t: seq<T>, b: int, e: int)
    requires 0 <= b <= e <= |s| == |t|
    requires multiset(s) == multiset(t)
    requires s[..b] == t[..b] && s[e..] == t[e..]
    ensures multiset(s[b..e]) == multiset(t[b..e])
  {
    assert s == s[..b] + s[b..e] + s[e..];
    assert t == t[..b] + t[b..e] + t[e..];
    assert multiset(s) == multiset(s[..b]) + multiset(s[b..e]) + multiset(s[e..]);
    assert multiset(t) == multiset(t[..b]) + multiset(t[b..e]) + multiset(t[e..]);
    forall v
      ensures multiset(s[b..e])[v] == multiset(t[b..e])[v]
    {
      assert multiset(s)[v] == multiset(s[..b])[v] + multiset(s[b..e])[v] + multiset(s[e..])[v];
      assert multiset(t)[v] == multiset(t[..b])[v] + multiset(t[b..e])[v] + multiset(t[e..])[v];
    }
  }

  // ---------------------------------------------------------------------
  // Reduction

  /** accumulate: the seed plus the sum of [b, e), added left to right. */
  method Accumulate(a: array<int>, b: int, e: int, init: int) returns (acc: int)
    requires 0 <= b <= e <= a.Length
    ensures acc == init + Sum(a[b..e])
  {
    acc := init;
    var i := b;
    while i != e
      invariant b <= i <= e
      invariant acc + Sum(a[i..e]) == init + Sum(a[b..e])
    {
      assert a[i..e][1..] == a[i + 1..e];
      acc := acc + a[i];
      i := i + 1;
    }
  }

  // ---------------------------------------------------------------------
  // Scalar helpers

  /** max by the value type's `>`, modelled as comparing `key`: one of the
      two arguments, no smaller than either, and the second one on a tie. */
  function Max<X>(x: X, y: X, key: X -> int): (r: X)
    ensures r == x || r == y
    ensures key(r) >= key(x) && key(r) >= key(y)
    ensures key(x) == key(y) ==> r == y
  {
    if key(x) > key(y) then x else y
  }

  /** min by the value type's `<`: one of the two arguments, no larger
      than either, and the second one on a tie. */
  function Min<X>(x: X, y: X, key: X -> int): (r: X)
    ensures r == x || r == y
    ensures key(r) <= key(x) && key(r) <= key(y)
    ensures key(x) == key(y) ==> r == y
  {
    if key(x) < key(y) then x else y
  }

  /** Between two arguments of different rank, max and min pick one each;
      on a tie both pick the second argument. */
  lemma MaxMinSplit<X>(x: X, y: X, key: X -> int)
    ensures key(x) != key(y) ==> multiset{Max(x, y, key), Min(x, y, key)} == multiset{x, y}
    ensures key(x) == key(y) ==> Max(x, y, key) == y && Min(x, y, key) == y
  {
  }
}
