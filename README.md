# standard-algorithms in Dafny

A model of a small C++ library of generic, stateless sequence algorithms
in the style of the standard `<algorithm>` and `<numeric>` headers:
`for_each`, `find`, `rfind`, `find_if`, `search`, `binary_search`,
`equal`, `copy`, `remove_copy`, `remove_copy_if`, `replace`, `remove`,
`remove_if`, `reverse`, `partition`, `accumulate`, `swap`, `max` and
`min`. Each of them walks a half-open cursor range `[b, e)`.

- `sequences.dfy` (module `Sequences`) holds the value-level meaning of
  the routines: filtering (`Without`, `Reject`), replacement, reversal, sum,
  left fold, sortedness and "needle occurs at i". Lemmas there say what
  each of these means (multiset content, length, position by position,
  involution, concatenation).
- `algs.dfy` (module `Algs`) holds the routines themselves. A cursor is an
  integer index into an `array`. A range is `0 <= b <= e <= a.Length`, and
  `e` is never read. An output cursor `d` indexes a separate destination
  array `out`. Every routine that loops in C++ is a `method` with the same
  `while` loop, the same early returns and the same comparisons. The
  routines that rearrange in place modify the array. `rfind` stays a
  recursive function. `swap` exchanges two array cells, which stand for
  the two C++ references.
- `as_written.dfy` (module `AsWritten`) holds the two routines whose C++
  bodies can reach their closing brace without returning a value (see
  Findings).

Modelling choices:
- Predicates are total functions `T -> bool`.
- `for_each`'s callable is a state transition `(S, T) -> S`. The result
  is the state after every element, which stands for the returned callable.
- `accumulate` and `binary_search` work on `int`.
- `max` and `min` take an integer `key` that stands for the value type's
  `>` and `<`. This keeps two distinct values with equal rank apart, so the
  tie behaviour (both return the second argument) can be stated.

Where the header's comments and the code disagree, the model follows the
code:
- `search` returns `e1` when there is no occurrence. The comment says `e2`
  (src/algs.h:68-69, src/algs.cpp:156,160).
- `partition` puts the elements on which `p` holds first. The comment says
  those where `p` fails come first (src/algs.h:153-154,
  src/algs.cpp:132-140).
- `copy` returns one past the last written cell. The comment says the
  beginning of the copy (src/algs.h:81, src/algs.cpp:55).

Three places in the code are evidently wrong, and the model follows the
intent:
- `remove_copy` and `remove_copy_if` have no `return` (src/algs.cpp:81-95).
  Their header comments promise "an output iter marking beginning of
  copied sequence" (src/algs.h:95) and the beginning of the copied sequence
  (src/algs.h:108), the same wording as `copy`'s comment (src/algs.h:81).
  `copy`'s code returns one past the last write (src/algs.cpp:55), and so do
  `Algs.RemoveCopy` and `Algs.RemoveCopyIf`, to match it.
- `binary_search` has no `return` after its loop (src/algs.cpp:194-195).
  `Algs.BinarySearch` returns false there, which is what
  src/test.cpp:131-132 expects.
- `remove_copy_if` calls `p(b)` on the cursor (src/algs.cpp:92).
  `Algs.RemoveCopyIf` calls `p` on the element, as `remove_if` does at
  src/algs.cpp:120. Written as in C++, the call compiles only for a
  predicate that accepts a cursor, so there is no behaviour to model for
  an element predicate.

## Model

| member | source | states |
|---|---|---|
| Algs.ForEach | src/algs.cpp:24-31 | the final state is the transition folded over [b, e) once per element, left to right |
| Sequences.FoldConcat | src/algs.h:187-197 | folding a concatenation folds the second part from the state left by the first, so each element is seen once, in order |
| Algs.Find | src/algs.cpp:33-37 | b <= r <= e; no cell before r holds x; r < e means a[r] == x; r == e exactly when x is absent; r equals the rfind cursor |
| Algs.RFind | src/algs.cpp:39-44 | the recursion on e - b returns the first cursor holding x, or e |
| Algs.FindIf | src/algs.cpp:46-50 | the first cursor where p holds, or e when p holds nowhere in [b, e) |
| Algs.Search | src/algs.cpp:146-161 | an empty needle gives b1; otherwise r is the leftmost start in [b1, e1) where the needle occurs inside [b1, e1); with no occurrence, including a needle longer than the haystack, r == e1 |
| Algs.BinarySearch | src/algs.cpp:183-195 | on an ascending range, the result is true exactly when x occurs in [b, e); inside the loop it is proved that the midpoint lo + (hi - lo) / 2 lies in [lo, hi) and that every occurrence stays inside the narrowed range |
| Algs.Equal | src/algs.cpp:74-79 | true exactly when [b1, e) equals, element by element, the equally long range starting at b2 |
| Algs.Copy | src/algs.cpp:52-56 | out[d..r] equals [b, e), r == d + (e - b), and every other cell of out is unchanged |
| Algs.RemoveCopy | src/algs.cpp:81-87 | out[d..r] is [b, e) without the elements equal to x, in order; r is d plus their count; every other cell of out is unchanged |
| Algs.RemoveCopyIf | src/algs.cpp:89-95 | out[d..r] is [b, e) without the elements on which p holds, in order; r is d plus their count; every other cell of out is unchanged |
| Sequences.WithoutConcat | src/algs.cpp:83-86 | filtering out x distributes over concatenation, so the scan builds the result one element at a time |
| Sequences.WithoutMultiset | src/algs.h:113-126 | what remains has every value other than x with its full count and no x, so its length is the count of elements other than x |
| Sequences.RejectConcat | src/algs.cpp:91-94 | filtering by p distributes over concatenation |
| Sequences.RejectMultiset | src/algs.h:128-139 | what remains has each value on which p fails with its full count and no value on which p holds |
| Algs.Swap | src/algs.cpp:173-178 | the two cells exchange values, all other cells keep theirs, and the multiset of the array is kept; the same cell twice is a no-op |
| Algs.SwapTwiceRestores | src/test.cpp:135-150 | swapping the same two cells twice restores the array |
| Algs.Replace | src/algs.cpp:58-64 | [b, e) becomes its copy with every x turned into y; cells outside [b, e) are unchanged |
| Sequences.ReplacedAt | src/algs.h:141-150 | position by position, exactly the cells equal to x become y and all others keep their values; the length is kept |
| Sequences.ReplacedMultiset | src/algs.h:141-150 | for y different from x, no x is left, y gains the count x had, and every other value keeps its count |
| Algs.Remove | src/algs.cpp:103-114 | b <= r <= e; [b, r) is the old range without x, in order; r - b is the count of elements other than x; [r, e) and everything outside [b, e) keep their old values |
| Algs.RemoveIf | src/algs.cpp:116-127 | b <= r <= e; [b, r) is the old range without the elements on which p holds, in order, so p fails on all of it; [r, e) and everything outside keep their old values |
| Algs.Reverse | src/algs.cpp:66-72 | [b, e) becomes the reversal of its old contents; cells outside are unchanged |
| Sequences.ReversedAt | src/algs.cpp:66-72 | cell i of the reversal is cell n - 1 - i of the original, and the length is kept |
| Sequences.ReversedInvolution | src/algs.h:165-172 | reversing twice gives back the original sequence |
| Algs.ReverseTwiceRestores | src/algs.cpp:66-72 | reversing the same range twice restores the whole array |
| Algs.Partition | src/algs.cpp:129-144 | b <= m <= e; p holds on [b, m) and fails on [m, e); the multiset of [b, e) is kept; cells outside are unchanged |
| Algs.Accumulate | src/algs.cpp:97-101 | the result is the seed plus the sum of [b, e); an empty range gives the seed |
| Sequences.SumIsFold | src/algs.h:174-185 | accumulate is the left fold of `a += v` from the seed: the fold equals the seed plus the sum |
| Algs.Max | src/algs.cpp:163-166 | returns one of its arguments, ranked no lower than either, and the second one on a tie |
| Algs.Min | src/algs.cpp:168-171 | returns one of its arguments, ranked no higher than either, and the second one on a tie |
| Algs.MaxMinSplit | src/algs.h:219-237 | for arguments of different rank, max and min return one each; on a tie both return the second argument |
| AsWritten.BinarySearchAsWritten | src/algs.cpp:183-195 | on an ascending range, the code as written returns true exactly when x occurs and runs off its end, with no result, exactly when x is absent |
| AsWritten.RemoveCopyAsWritten | src/algs.cpp:81-87 | the code as written writes the filtered elements, but every call ends without a return value |

## Findings

| source | as written | input that shows it | evidently intended | confidence | as-written member | corrected member |
|---|---|---|---|---|---|---|
| src/algs.cpp:183-195 | no return statement after the loop, so a search for an absent value ends without a result | twenty-one zeros, x = 5 (the call at src/test.cpp:131-132) | return false after the loop | high; not executed | AsWritten.BinarySearchAsWritten | Algs.BinarySearch |
| src/algs.cpp:81-95 | `remove_copy` and `remove_copy_if` have no return statement at all | any call, e.g. the range [1, 2] with x = 1 | return `d`, one past the last write, as `copy` does | medium (the header comments at src/algs.h:95,108 name the beginning of the output; `copy`'s code, src/algs.cpp:55, returns the end); not executed | AsWritten.RemoveCopyAsWritten | Algs.RemoveCopy |

## Left out

- Cursor categories and C++ template details are not modelled. Every cursor is an array index, so single-pass input and output cursors are not distinguished from random-access ones. The global-scope definitions in src/algs.cpp versus `namespace algs` in src/algs.h are not modelled either.
- Malformed ranges, unsorted input to `binary_search` and a second range shorter than the first for `equal` are undefined in C++. They are preconditions here.
- Algs.Copy, Algs.RemoveCopy, Algs.RemoveCopyIf: the source and destination are distinct arrays. Overlapping copies are not modelled.
- Algs.RemoveCopy, Algs.RemoveCopyIf: they require a destination with room for every element written. An output cursor in C++ has no bound to check.
- Algs.Replace, Algs.Remove, Algs.RemoveCopy: `x` and `y` are values. In C++ they are `const X&` (src/algs.cpp:59, 82, 104) and may refer to a cell that the loop itself overwrites, after which the loop compares against the new value (`replace` on [1, 2, 1] with x referring to the first cell and y = 5 gives [5, 2, 1]). An argument aliasing a cell the routine writes is not modelled.
- Algs.RFind: the stack depth of the recursion is a resource limit, not logic, and is not modelled.
- Algs.Accumulate: works on mathematical integers. Machine-integer overflow and floating-point accumulators are not modelled.
- Algs.ForEach: the callable's side effects are modelled as a pure state transition.
- Algs.Max, Algs.Min: the value type's `>` and `<` are modelled as comparing an integer key. Orders that no integer key can represent are not covered.
- The predicate-on-cursor call in `remove_copy_if` (src/algs.cpp:92) has no as-written member, for the reason given above.
- src/test.cpp, src/test.h and src/main.cpp are not part of this model. They are the test harness and the driver.
