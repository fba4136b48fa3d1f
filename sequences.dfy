/** Value-level specifications of what the range algorithms compute.
    Each algorithm in module Algs works on an array range [b, e); its
    contract relates the range to one of the functions below, and the
    lemmas here say what those functions mean. */
module Sequences {

  /** The elements of `s` that differ from `x`, in their original order
      (what remove and remove_copy keep). */
  function Without<T(==)>(s: seq<T>, x: T): (r: seq<T>)
    ensures |r| <= |s|
  {
    if s == [] then []
    else if s[0] == x then Without(s[1..], x)
    else [s[0]] + Without(s[1..], x)
  }

  /** The elements of `s` for which `p` is false, in their original order
      (what remove_if and remove_copy_if keep). */
  function Reject<T>(s: seq<T>, p: T -> bool): (r: seq<T>)
    ensures |r| <= |s|
  {
    if s == [] then []
    else if p(s[0]) then Reject(s[1..], p)
    else [s[0]] + Reject(s[1..], p)
  }

  /** `s` with every occurrence of `x` turned into `y`. */
  function Replaced<T(==)>(s: seq<T>, x: T, y: T): seq<T>
  {
    if s == [] then []
    else [if s[0] == x then y else s[0]] + Replaced(s[1..], x, y)
  }

  /** `s` back to front. */
  function Reversed<T>(s: seq<T>): seq<T>
  {
    if s == [] then [] else Reversed(s[1..]) + [s[0]]
  }

  /** The sum of `s`. */
  function Sum(s: seq<int>): int
  {
    if s == [] then 0 else s[0] + Sum(s[1..])
  }

  /** `f` applied to the state once per element of `s`, left to right. */
  function Fold<S, T>(f: (S, T) -> S, s0: S, s: seq<T>): S
  {
    if s == [] then s0 else Fold(f, f(s0, s[0]), s[1..])
  }

  /** The step `a += v` of accumulate, as a state transition. */
  function Plus(a: int, v: int): int
  {
    a + v
  }

  /** Ascending order by `<=`. */
  predicate Sorted(s: seq<int>)
  {
    forall i, j :: 0 <= i < j < |s| ==> s[i] <= s[j]
  }

  /** `needle` occurs in `hay` starting at index `i`. */
  predicate OccursAt<T(==)>(hay: seq<T>, i: int, needle: seq<T>)
  {
    0 <= i && i + |needle| <= |hay| && hay[i..i + |needle|] == needle
  }

  // ---------------------------------------------------------------------
  // Filtering

  /** Filtering distributes over concatenation, so a left-to-right scan
      can build the result one element at a time. */
  lemma {:induction false} WithoutConcat<T>(s: seq<T>, t: seq<T>, x: T)
    ensures Without(s + t, x) == Without(s, x) + Without(t, x)
  {
    if s != [] {
      assert (s + t)[1..] == s[1..] + t;
      WithoutConcat(s[1..], t, x);
    } else {
      assert s + t == t;
    }
  }

  /** What remove keeps: every element other than `x` with its full
      multiplicity, no `x` at all, so its length is the count of the
      elements that differ from `x`. */
  lemma {:induction false} WithoutMultiset<T>(s: seq<T>, x: T)
    ensures multiset(Without(s, x)) == multiset(s)[x := 0]
    ensures |Without(s, x)| == |s| - multiset(s)[x]
  {
    if s != [] {
      WithoutMultiset(s[1..], x);
      assert s == [s[0]] + s[1..];
    }
  }

  lemma {:induction false} RejectConcat<T>(s: seq<T>, t: seq<T>, p: T -> bool)
    ensures Reject(s + t, p) == Reject(s, p) + Reject(t, p)
  {
    if s != [] {
      assert (s + t)[1..] == s[1..] + t;
      RejectConcat(s[1..], t, p);
    } else {
      assert s + t == t;
    }
  }

  /** What remove_if keeps: every element on which `p` fails, with its
      full multiplicity, and none on which `p` holds. */
  lemma {:induction false} RejectMultiset<T>(s: seq<T>, p: T -> bool, v: T)
    ensures multiset(Reject(s, p))[v] == if p(v) then 0 else multiset(s)[v]
  {
    if s != [] {
      RejectMultiset(s[1..], p, v);
      assert s == [s[0]] + s[1..];
    }
  }

  // ---------------------------------------------------------------------
  // Replacement

  /** Position by position, replace rewrites exactly the cells equal to `x`. */
  lemma {:induction false} ReplacedAt<T>(s: seq<T>, x: T, y: T, i: int)
    requires 0 <= i < |s|
    ensures |Replaced(s, x, y)| == |s|
    ensures Replaced(s, x, y)[i] == if s[i] == x then y else s[i]
  {
    if i == 0 {
      ReplacedLength(s[1..], x, y);
    } else {
      ReplacedAt(s[1..], x, y, i - 1);
    }
  }

  lemma {:induction false} ReplacedLength<T>(s: seq<T>, x: T, y: T)
    ensures |Replaced(s, x, y)| == |s|
  {
    if s != [] {
      ReplacedLength(s[1..], x, y);
    }
  }

  /** Replacing `x` by a different `y` leaves no `x` behind and moves all
      of its occurrences over to `y`; every other value keeps its count. */
  lemma {:induction false} ReplacedMultiset<T>(s: seq<T>, x: T, y: T, v: T)
    requires x != y
    ensures multiset(Replaced(s, x, y))[v]
         == if v == x then 0
            else if v == y then multiset(s)[x] + multiset(s)[y]
            else multiset(s)[v]
  {
    if s != [] {
      ReplacedMultiset(s[1..], x, y, v);
      var h := if s[0] == x then y else s[0];
      assert multiset(s) == multiset{s[0]} + multiset(s[1..]) by {
        assert s == [s[0]] + s[1..];
      }
      assert multiset(Replaced(s, x, y)) == multiset{h} + multiset(Replaced(s[1..], x, y));
    }
  }

  // ---------------------------------------------------------------------
  // Reversal

  /** Cell `i` of the reversal is cell `|s| - 1 - i` of the original. */
  lemma {:induction false} ReversedAt<T>(s: seq<T>, i: int)
    requires 0 <= i < |s|
    ensures |Reversed(s)| == |s|
    ensures Reversed(s)[i] == s[|s| - 1 - i]
  {
    ReversedLength(s[1..]);
    if i < |s| - 1 {
      ReversedAt(s[1..], i);
    }
  }

  lemma {:induction false} ReversedLength<T>(s: seq<T>)
    ensures |Reversed(s)| == |s|
  {
    if s != [] {
      ReversedLength(s[1..]);
    }
  }

  /** Reversing twice gives back the original sequence. */
  lemma ReversedInvolution<T>(s: seq<T>)
    ensures Reversed(Reversed(s)) == s
  {
    ReversedLength(s);
    ReversedLength(Reversed(s));
    forall i | 0 <= i < |s|
      ensures Reversed(Reversed(s))[i] == s[i]
    {
      ReversedAt(Reversed(s), i);
      ReversedAt(s, |s| - 1 - i);
    }
  }

  // ---------------------------------------------------------------------
  // Folds

  /** Folding a concatenation folds the second part from the state the
      first part left: the state sees each element once, in order. */
  lemma {:induction false} FoldConcat<S, T>(f: (S, T) -> S, s0: S, s: seq<T>, t: seq<T>)
    ensures Fold(f, s0, s + t) == Fold(f, Fold(f, s0, s), t)
  {
    if s != [] {
      assert (s + t)[1..] == s[1..] + t;
      FoldConcat(f, f(s0, s[0]), s[1..], t);
    } else {
      assert s + t == t;
    }
  }

  /** accumulate is the fold of `a += v`: seed plus the sum of the range. */
  lemma {:induction false} SumIsFold(a: int, s: seq<int>)
    ensures Fold(Plus, a, s) == a + Sum(s)
    decreases s
  {
    if s != [] {
      SumIsFold(a + s[0], s[1..]);
    }
  }
}
