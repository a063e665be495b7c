/** Sequence-level specifications of the linked list's operations, and the
    properties proved about them.  The list classes state their
    postconditions in terms of these functions. */
module ListSpec {

  /** The key a search walks the list with: a value to match, a value to
      avoid (the `NotOf` searches), or a caller's predicate (`RemoveIf`). */
  datatype Key = Is(value: int) | IsNot(value: int) | Where(p: int -> bool) {
    predicate Matches(y: int) {
      match this
      case Is(v) => y == v
      case IsNot(v) => y != v
      case Where(p) => p(y)
    }
  }

  /** Position of the first element at or after `b` that matches `key`,
      or `|s|` when there is none (a forward search). */
  function IndexFrom(s: seq<int>, b: nat, key: Key): (r: nat)
    requires b <= |s|
    ensures b <= r <= |s|
    ensures forall i :: b <= i < r ==> !key.Matches(s[i])
    ensures r < |s| ==> key.Matches(s[r])
    decreases |s| - b
  {
    if b == |s| then b
    else if key.Matches(s[b]) then b
    else IndexFrom(s, b + 1, key)
  }

  /** Position of the last element before `e` that matches `key`, or -1
      when there is none (a backward search starting at `e - 1`). */
  function LastIndexBelow(s: seq<int>, e: nat, key: Key): (r: int)
    requires e <= |s|
    ensures -1 <= r < e
    ensures forall i :: r < i < e ==> !key.Matches(s[i])
    ensures r >= 0 ==> key.Matches(s[r])
  {
    if e == 0 then -1
    else if key.Matches(s[e - 1]) then e - 1
    else LastIndexBelow(s, e - 1, key)
  }

  /** A position that satisfies the two properties of a forward search is
      the one the search finds. */
  lemma IndexFromAt(s: seq<int>, b: nat, key: Key, i: nat)
    requires b <= i <= |s|
    requires forall t :: b <= t < i ==> !key.Matches(s[t])
    requires i < |s| ==> key.Matches(s[i])
    ensures IndexFrom(s, b, key) == i
  {
    var r := IndexFrom(s, b, key);
  }

  /** Likewise for a backward search. */
  lemma LastIndexBelowAt(s: seq<int>, e: nat, key: Key, i: int)
    requires -1 <= i < e <= |s|
    requires forall t :: i < t < e ==> !key.Matches(s[t])
    requires i >= 0 ==> key.Matches(s[i])
    ensures LastIndexBelow(s, e, key) == i
  {
    var r := LastIndexBelow(s, e, key);
  }

  /** Position of the first smallest element of `s` at or after `b`. */
  function MinIndexFrom(s: seq<int>, b: nat): (r: nat)
    requires b < |s|
    ensures b <= r < |s|
    ensures forall i :: b <= i < |s| ==> s[r] <= s[i]
    ensures forall i :: b <= i < r ==> s[i] > s[r]
    decreases |s| - b
  {
    if b == |s| - 1 then b
    else
      var m := MinIndexFrom(s, b + 1);
      if s[m] < s[b] then m else b
  }

  /** The first smallest element is the only position with both
      properties. */
  lemma MinIndexFromAt(s: seq<int>, b: nat, m: nat)
    requires b <= m < |s|
    requires forall i :: b <= i < |s| ==> s[m] <= s[i]
    requires forall i :: b <= i < m ==> s[i] > s[m]
    ensures MinIndexFrom(s, b) == m
  {
    var r := MinIndexFrom(s, b);
  }

  /** `s` without the element at position `k`, or `s` itself when `k` is
      not a position of `s`. */
  function DropAt<A>(s: seq<A>, k: int): seq<A>
  {
    if 0 <= k < |s| then s[..k] + s[k + 1..] else s
  }

  /** A slice grows by one element at its end. */
  lemma SliceGrow<A>(s: seq<A>, b: nat, k: nat)
    requires b <= k < |s|
    ensures s[b..k] + [s[k]] == s[b..k + 1]
  {
  }

  /** Dropping at the two ends takes off the head or the tail, and leaves
      an empty sequence empty. */
  lemma DropAtEnds<A>(s: seq<A>)
    ensures DropAt(s, 0) == if s == [] then [] else s[1..]
    ensures DropAt(s, |s| - 1) == if s == [] then [] else s[..|s| - 1]
  {
  }

  /** Dropping at a position removes one occurrence of the element there
      and keeps the order of the rest. */
  lemma DropAtElements<A>(s: seq<A>, k: nat)
    requires k < |s|
    ensures |DropAt(s, k)| == |s| - 1
    ensures multiset(DropAt(s, k)) == multiset(s) - multiset{s[k]}
    ensures forall i :: 0 <= i < |s| - 1 ==> DropAt(s, k)[i] == if i < k then s[i] else s[i + 1]
  {
    assert s == s[..k] + [s[k]] + s[k + 1..];
  }

  /** The subsequence of `s` made of the elements that do not match `key`,
      in their original order. */
  function RemoveMatching(s: seq<int>, key: Key): seq<int>
  {
    if s == [] then []
    else (if key.Matches(s[0]) then [] else [s[0]]) + RemoveMatching(s[1..], key)
  }

  /** Removing never lengthens. */
  lemma {:induction false} RemoveMatchingLength(s: seq<int>, key: Key)
    ensures |RemoveMatching(s, key)| <= |s|
  {
    if s != [] {
      RemoveMatchingLength(s[1..], key);
    }
  }

  lemma {:induction false} RemoveMatchingAppend(a: seq<int>, b: seq<int>, key: Key)
    ensures RemoveMatching(a + b, key) == RemoveMatching(a, key) + RemoveMatching(b, key)
  {
    if a == [] {
      assert a + b == b;
    } else {
      var h := if key.Matches(a[0]) then [] else [a[0]];
      var u, v := RemoveMatching(a[1..], key), RemoveMatching(b, key);
      RemoveMatchingCons(a, b, key);
      RemoveMatchingAppend(a[1..], b, key);
      assert h + (u + v) == (h + u) + v;
    }
  }

  /** Unfolds `RemoveMatching` once on a concatenation. */
  lemma RemoveMatchingCons(a: seq<int>, b: seq<int>, key: Key)
    requires a != []
    ensures RemoveMatching(a + b, key) ==
      (if key.Matches(a[0]) then [] else [a[0]]) + RemoveMatching(a[1..] + b, key)
    ensures RemoveMatching(a, key) ==
      (if key.Matches(a[0]) then [] else [a[0]]) + RemoveMatching(a[1..], key)
  {
    assert (a + b)[0] == a[0] && (a + b)[1..] == a[1..] + b;
  }

  /** Removing by a key keeps every element that does not match it as
      often as it occurred, and drops every one that does. */
  lemma {:induction false} RemoveMatchingCount(s: seq<int>, key: Key, y: int)
    ensures multiset(RemoveMatching(s, key))[y] == if key.Matches(y) then 0 else multiset(s)[y]
  {
    if s != [] {
      RemoveMatchingCount(s[1..], key, y);
      var h := if key.Matches(s[0]) then [] else [s[0]];
      assert RemoveMatching(s, key) == h + RemoveMatching(s[1..], key);
      assert multiset(RemoveMatching(s, key)) == multiset(h) + multiset(RemoveMatching(s[1..], key));
      assert s == [s[0]] + s[1..];
      assert multiset(s) == multiset([s[0]]) + multiset(s[1..]);
    }
  }

  /** An element stays exactly when it was there and does not match. */
  lemma RemoveMatchingHas(s: seq<int>, key: Key, y: int)
    ensures y in RemoveMatching(s, key) <==> y in s && !key.Matches(y)
  {
    RemoveMatchingCount(s, key, y);
    assert y in s <==> multiset(s)[y] > 0;
  }

  /** A list with no matching element is left as it is. */
  lemma {:induction false} RemoveMatchingNone(s: seq<int>, key: Key)
    requires forall i :: 0 <= i < |s| ==> !key.Matches(s[i])
    ensures RemoveMatching(s, key) == s
  {
    if s != [] {
      RemoveMatchingNone(s[1..], key);
    }
  }

  /** `s` with every occurrence of `o` overwritten by `n`. */
  function ReplaceAll(s: seq<int>, o: int, n: int): (r: seq<int>)
    ensures |r| == |s|
    ensures forall i :: 0 <= i < |s| ==> r[i] == if s[i] == o then n else s[i]
  {
    if s == [] then []
    else [if s[0] == o then n else s[0]] + ReplaceAll(s[1..], o, n)
  }

  /** The state of the replacing loop: `e` is `s` with every occurrence of
      `o` before position `i` overwritten by `n`. */
  ghost predicate ReplacedBelow(e: seq<int>, s: seq<int>, i: nat, o: int, n: int)
  {
    |e| == |s| && i <= |s| &&
    forall t :: 0 <= t < |e| ==> e[t] == if t < i && s[t] == o then n else s[t]
  }

  /** A round of the replacing loop: the search from `i` skips elements
      other than `o`, and the occurrence it finds, if any, is overwritten. */
  lemma ReplaceStep(e: seq<int>, s: seq<int>, i: nat, o: int, n: int)
    requires ReplacedBelow(e, s, i, o, n)
    ensures var k := IndexFrom(e, i, Is(o));
      if k < |e| then ReplacedBelow(e[k := n], s, k + 1, o, n) else ReplacedBelow(e, s, |e|, o, n)
  {
    var k := IndexFrom(e, i, Is(o));
    forall t | i <= t < k ensures s[t] != o {
      assert e[t] == s[t] && !Is(o).Matches(e[t]);
    }
  }

  /** Once the loop has passed every position, it has replaced them all. */
  lemma ReplaceDone(e: seq<int>, s: seq<int>, o: int, n: int)
    requires ReplacedBelow(e, s, |s|, o, n)
    ensures e == ReplaceAll(s, o, n)
  {
  }

  /** `s` with the elements at `i` and `j` exchanged. */
  function Swapped<A>(s: seq<A>, i: nat, j: nat): (r: seq<A>)
    requires i < |s| && j < |s|
    ensures |r| == |s| && r[i] == s[j] && r[j] == s[i]
    ensures forall k :: 0 <= k < |s| && k != i && k != j ==> r[k] == s[k]
    ensures multiset(r) == multiset(s)
  {
    s[i := s[j]][j := s[i]]
  }

  /** Exchanging two positions does not depend on their order. */
  lemma SwappedSymmetric<A>(s: seq<A>, i: nat, j: nat)
    requires i < |s| && j < |s|
    ensures Swapped(s, i, j) == Swapped(s, j, i)
  {
  }

  /** The ends of a sequence after exchanging positions `i < j`. */
  lemma SwappedEnds<A>(s: seq<A>, i: nat, j: nat)
    requires i < j < |s|
    ensures Swapped(s, i, j)[0] == (if i == 0 then s[j] else s[0])
    ensures Swapped(s, i, j)[|s| - 1] == (if j == |s| - 1 then s[i] else s[|s| - 1])
  {
  }

  /** The ends of a sequence after `ms` is put in before position `p`. */
  lemma SpliceEnds<A>(ns: seq<A>, ms: seq<A>, p: nat)
    requires p <= |ns| && |ms| > 0
    ensures var r := ns[..p] + ms + ns[p..];
      r[0] == (if p == 0 then ms[0] else ns[0]) &&
      r[|r| - 1] == (if p == |ns| then ms[|ms| - 1] else ns[|ns| - 1])
  {
    var r := ns[..p] + ms + ns[p..];
    if p == 0 { assert r[0] == ms[0]; } else { assert r[0] == ns[0]; }
    if p == |ns| { assert r[|r| - 1] == ms[|ms| - 1]; } else { assert r[|r| - 1] == ns[|ns| - 1]; }
  }

  /** Handing a member of `s` over to a disjoint `r` keeps the union and
      the disjointness. */
  lemma MoveMember<A>(r: set<A>, s: set<A>, x: A)
    requires x in s && r !! s
    ensures (r + {x}) + (s - {x}) == r + s && (r + {x}) !! (s - {x})
  {
  }

  /** No item occurs twice. */
  ghost predicate Distinct<A>(s: seq<A>)
  {
    forall i, j :: 0 <= i < j < |s| ==> s[i] != s[j]
  }

  /** In a sequence of distinct items, an item has one position. */
  lemma DistinctIndex<A>(s: seq<A>, i: nat, j: nat)
    requires Distinct(s) && i < |s| && j < |s| && s[i] == s[j]
    ensures i == j
  {
  }

  /** Dropping one item keeps the others distinct, and the dropped one is
      gone. */
  lemma DistinctDrop<A>(s: seq<A>, k: nat)
    requires Distinct(s) && k < |s|
    ensures Distinct(s[..k] + s[k + 1..])
    ensures forall x :: x in s[..k] + s[k + 1..] ==> x in s && x != s[k]
  {
    var t := s[..k] + s[k + 1..];
    forall i, j | 0 <= i < j < |t| ensures t[i] != t[j] {
      assert t[i] == if i < k then s[i] else s[i + 1];
      assert t[j] == if j < k then s[j] else s[j + 1];
    }
    forall x | x in t ensures x in s && x != s[k] {
      var i :| 0 <= i < |t| && t[i] == x;
      assert t[i] == if i < k then s[i] else s[i + 1];
    }
  }

  lemma DistinctInsert<A>(s: seq<A>, k: nat, x: A)
    requires Distinct(s) && k <= |s| && x !in s
    ensures Distinct(s[..k] + [x] + s[k..])
  {
    var t := s[..k] + [x] + s[k..];
    forall i, j | 0 <= i < j < |t| ensures t[i] != t[j] {
      assert t[i] == if i < k then s[i] else if i == k then x else s[i - 1];
      assert t[j] == if j < k then s[j] else if j == k then x else s[j - 1];
    }
  }

  lemma DistinctConcat<A>(s: seq<A>, t: seq<A>)
    requires Distinct(s) && Distinct(t)
    requires forall i, j :: 0 <= i < |s| && 0 <= j < |t| ==> s[i] != t[j]
    ensures Distinct(s + t)
  {
    var u := s + t;
    forall i, j | 0 <= i < j < |u| ensures u[i] != u[j] {
      if j < |s| { assert u[i] == s[i] && u[j] == s[j]; }
      else if i >= |s| { assert u[i] == t[i - |s|] && u[j] == t[j - |s|]; }
      else { assert u[i] == s[i] && u[j] == t[j - |s|]; }
    }
  }

  lemma DistinctSwapped<A>(s: seq<A>, i: nat, j: nat)
    requires Distinct(s) && i < |s| && j < |s|
    ensures Distinct(Swapped(s, i, j))
  {
    var t := Swapped(s, i, j);
    forall a, b | 0 <= a < b < |t| ensures t[a] != t[b] {
      var a' := if a == i then j else if a == j then i else a;
      var b' := if b == i then j else if b == j then i else b;
      assert t[a] == s[a'] && t[b] == s[b'];
    }
  }

  /** Ascending order: no element is bigger than a later one. */
  ghost predicate Sorted(s: seq<int>)
  {
    forall i, j :: 0 <= i < j < |s| ==> s[i] <= s[j]
  }

  /** The state of selection sort: the first `k` elements are in order and
      none is bigger than any element after it. */
  ghost predicate SortedBelow(s: seq<int>, k: nat)
  {
    k <= |s| && forall p, q :: 0 <= p < q < |s| && p < k ==> s[p] <= s[q]
  }

  /** Moving the least of the unsorted elements to position `k` sorts one
      more position. */
  lemma SelectStep(s: seq<int>, k: nat)
    requires SortedBelow(s, k) && k < |s|
    ensures SortedBelow(Swapped(s, MinIndexFrom(s, k), k), k + 1)
  {
    var m := MinIndexFrom(s, k);
    var t := Swapped(s, m, k);
    forall p, q | 0 <= p < q < |t| && p < k + 1 ensures t[p] <= t[q] {
      var q' := if q == m then k else if q == k then m else q;
      assert t[q] == s[q'];
      if p < k {
        assert t[p] == s[p];
      } else {
        assert t[p] == s[m];
      }
    }
  }

  /** The node-by-node recursion of the source's `isSorted`: each node is
      sorted when it has no successor, or its successor is not smaller and
      the successor is sorted. */
  function ChainSorted(s: seq<int>): bool
  {
    if |s| <= 1 then true
    else if s[1] < s[0] then false
    else ChainSorted(s[1..])
  }

  /** The local check of neighbouring nodes decides ascending order. */
  lemma {:induction false} ChainSortedIffSorted(s: seq<int>)
    ensures ChainSorted(s) <==> Sorted(s)
  {
    if |s| > 1 {
      ChainSortedIffSorted(s[1..]);
      if Sorted(s[1..]) && s[0] <= s[1] {
        forall i, j | 0 <= i < j < |s| ensures s[i] <= s[j] {
          if i > 0 {
            assert s[1..][i - 1] <= s[1..][j - 1];
          } else if j > 1 {
            assert s[1..][0] <= s[1..][j - 1];
          }
        }
      }
      if Sorted(s) {
        assert s[0] <= s[1];
        forall i, j | 0 <= i < j < |s[1..]| ensures s[1..][i] <= s[1..][j] {
          assert s[i + 1] <= s[j + 1];
        }
      }
    }
  }

  lemma SortedTail(s: seq<int>)
    requires Sorted(s) && s != []
    ensures Sorted(s[1..])
  {
    forall i, j | 0 <= i < j < |s[1..]| ensures s[1..][i] <= s[1..][j] {
      assert s[i + 1] <= s[j + 1];
    }
  }

  lemma SortedHeadIsLeast(s: seq<int>, y: int)
    requires Sorted(s) && y in s
    ensures s[0] <= y
  {
    var k :| 0 <= k < |s| && s[k] == y;
    if k > 0 { assert s[0] <= s[k]; }
  }

  /** Two ascending sequences with the same elements are the same sequence:
      "sorted and a permutation" determines the result of a sort. */
  lemma {:induction false} SortedUnique(a: seq<int>, b: seq<int>)
    requires Sorted(a) && Sorted(b) && multiset(a) == multiset(b)
    ensures a == b
  {
    if a != [] {
      assert a[0] in multiset(b) && b[0] in multiset(a);
      SortedHeadIsLeast(a, b[0]);
      SortedHeadIsLeast(b, a[0]);
      assert a == [a[0]] + a[1..] && b == [b[0]] + b[1..];
      assert a[0] == b[0];
      assert multiset(a[1..]) == multiset(b[1..]) by {
        assert multiset(a) == multiset{a[0]} + multiset(a[1..]);
        assert multiset(b) == multiset{b[0]} + multiset(b[1..]);
        assert multiset(a[1..]) == multiset(a) - multiset{a[0]};
        assert multiset(b[1..]) == multiset(b) - multiset{b[0]};
      }
      SortedTail(a);
      SortedTail(b);
      SortedUnique(a[1..], b[1..]);
    }
  }

  /** The merge loop of the source, over items `xs` and `ys` ordered by the
      keys `xk` and `yk`: an item of `ys` goes first only when the current
      key of `xs` is strictly greater, so on a tie the item of `xs` stays
      in front. */
  function MergeBy<A>(xs: seq<A>, xk: seq<int>, ys: seq<A>, yk: seq<int>): (r: seq<A>)
    requires |xs| == |xk| && |ys| == |yk|
    ensures |r| == |xs| + |ys|
    decreases |xs| + |ys|
  {
    if xs == [] then ys
    else if ys == [] then xs
    else if xk[0] > yk[0] then [ys[0]] + MergeBy(xs, xk, ys[1..], yk[1..])
    else [xs[0]] + MergeBy(xs[1..], xk[1..], ys, yk)
  }

  /** Merging values by themselves. */
  function Merge(xs: seq<int>, ys: seq<int>): seq<int>
  {
    MergeBy(xs, xs, ys, ys)
  }

  /** Every item of either input appears in the merge. */
  lemma MergeByMembers<A>(xs: seq<A>, xk: seq<int>, ys: seq<A>, yk: seq<int>)
    requires |xs| == |xk| && |ys| == |yk|
    ensures forall x :: x in xs || x in ys ==> x in MergeBy(xs, xk, ys, yk)
  {
    MergeByPermutation(xs, xk, ys, yk);
    forall x | x in xs || x in ys
      ensures x in MergeBy(xs, xk, ys, yk)
    {
      assert x in multiset(xs) + multiset(ys);
    }
  }

  /** A merge holds exactly the items of both inputs. */
  lemma {:induction false} MergeByPermutation<A>(xs: seq<A>, xk: seq<int>, ys: seq<A>, yk: seq<int>)
    requires |xs| == |xk| && |ys| == |yk|
    ensures multiset(MergeBy(xs, xk, ys, yk)) == multiset(xs) + multiset(ys)
    decreases |xs| + |ys|
  {
    if xs != [] && ys != [] {
      if xk[0] > yk[0] {
        var t := MergeBy(xs, xk, ys[1..], yk[1..]);
        MergeByPermutation(xs, xk, ys[1..], yk[1..]);
        assert MergeBy(xs, xk, ys, yk) == [ys[0]] + t;
        assert multiset([ys[0]] + t) == multiset{ys[0]} + multiset(t);
        assert ys == [ys[0]] + ys[1..];
        assert multiset(ys) == multiset{ys[0]} + multiset(ys[1..]);
      } else {
        var t := MergeBy(xs[1..], xk[1..], ys, yk);
        MergeByPermutation(xs[1..], xk[1..], ys, yk);
        assert MergeBy(xs, xk, ys, yk) == [xs[0]] + t;
        assert multiset([xs[0]] + t) == multiset{xs[0]} + multiset(t);
        assert xs == [xs[0]] + xs[1..];
        assert multiset(xs) == multiset{xs[0]} + multiset(xs[1..]);
      }
    }
  }

  /** Merging two ascending sequences gives an ascending sequence whose
      first element is the smaller of the two first elements. */
  lemma {:induction false} MergeSorted(xs: seq<int>, ys: seq<int>)
    requires Sorted(xs) && Sorted(ys)
    ensures Sorted(Merge(xs, ys))
    ensures xs != [] && ys != [] ==>
      Merge(xs, ys)[0] == if xs[0] > ys[0] then ys[0] else xs[0]
    decreases |xs| + |ys|
  {
    if xs != [] && ys != [] {
      var m := Merge(xs, ys);
      if xs[0] > ys[0] {
        var t := Merge(xs, ys[1..]);
        MergeSorted(xs, ys[1..]);
        assert m == [ys[0]] + t;
        assert t != [] ==> ys[0] <= t[0] by {
          if ys[1..] != [] { assert ys[0] <= ys[1]; }
        }
        forall i, j | 0 <= i < j < |m| ensures m[i] <= m[j] {
          if i > 0 { assert m[i] == t[i - 1] && m[j] == t[j - 1]; }
          else { assert t[0] <= t[j - 1]; }
        }
      } else {
        var t := Merge(xs[1..], ys);
        MergeSorted(xs[1..], ys);
        assert m == [xs[0]] + t;
        assert t != [] ==> xs[0] <= t[0] by {
          if xs[1..] != [] { assert xs[0] <= xs[1]; }
        }
        forall i, j | 0 <= i < j < |m| ensures m[i] <= m[j] {
          if i > 0 { assert m[i] == t[i - 1] && m[j] == t[j - 1]; }
          else { assert t[0] <= t[j - 1]; }
        }
      }
    }
  }

  /** The state of the merging loop: the first `p` items of `xs` are
      final, and merging the rest of `xs` with `ys` completes `t`. */
  ghost predicate MergeLoop<A>(xs: seq<A>, xk: seq<int>, p: nat, ys: seq<A>, yk: seq<int>, t: seq<A>)
  {
    p <= |xs| == |xk| && |ys| == |yk| && xs[..p] + MergeBy(xs[p..], xk[p..], ys, yk) == t
  }

  lemma MergeLoopStart<A>(xs: seq<A>, xk: seq<int>, ys: seq<A>, yk: seq<int>)
    requires |xs| == |xk| && |ys| == |yk|
    ensures MergeLoop(xs, xk, 0, ys, yk, MergeBy(xs, xk, ys, yk))
  {
    assert xs[..0] == [] && xs[0..] == xs && xk[0..] == xk;
  }

  /** The head of `ys` is smaller than the item at `p`: it goes in before
      that item, which stays next in line. */
  lemma MergeLoopTake<A>(xs: seq<A>, xk: seq<int>, p: nat, ys: seq<A>, yk: seq<int>, t: seq<A>)
    requires MergeLoop(xs, xk, p, ys, yk, t) && p < |xs| && ys != [] && xk[p] > yk[0]
    ensures MergeLoop(xs[..p] + [ys[0]] + xs[p..], xk[..p] + [yk[0]] + xk[p..], p + 1, ys[1..], yk[1..], t)
  {
    var xs', xk' := xs[..p] + [ys[0]] + xs[p..], xk[..p] + [yk[0]] + xk[p..];
    assert xs'[..p + 1] == xs[..p] + [ys[0]];
    assert xs'[p + 1..] == xs[p..] && xk'[p + 1..] == xk[p..];
    var u := MergeBy(xs[p..], xk[p..], ys[1..], yk[1..]);
    assert MergeBy(xs[p..], xk[p..], ys, yk) == [ys[0]] + u;
    assert (xs[..p] + [ys[0]]) + u == xs[..p] + ([ys[0]] + u);
  }

  /** The item at `p` is not bigger than the head of `ys`: it stays final. */
  lemma MergeLoopKeep<A>(xs: seq<A>, xk: seq<int>, p: nat, ys: seq<A>, yk: seq<int>, t: seq<A>)
    requires MergeLoop(xs, xk, p, ys, yk, t) && p < |xs| && ys != [] && xk[p] <= yk[0]
    ensures MergeLoop(xs, xk, p + 1, ys, yk, t)
  {
    assert xs[p..][1..] == xs[p + 1..] && xk[p..][1..] == xk[p + 1..];
    var u := MergeBy(xs[p + 1..], xk[p + 1..], ys, yk);
    assert MergeBy(xs[p..], xk[p..], ys, yk) == [xs[p]] + u;
    assert xs[..p + 1] == xs[..p] + [xs[p]];
    assert (xs[..p] + [xs[p]]) + u == xs[..p] + ([xs[p]] + u);
  }

  /** Once either side is used up, the rest of `ys` goes at the back. */
  lemma MergeLoopDone<A>(xs: seq<A>, xk: seq<int>, p: nat, ys: seq<A>, yk: seq<int>, t: seq<A>)
    requires MergeLoop(xs, xk, p, ys, yk, t) && (p == |xs| || ys == [])
    ensures t == xs + ys
  {
    MergeByEmpty(xs[p..], xk[p..]);
    MergeByEmpty(ys, yk);
    if p == |xs| {
      assert xs[p..] == [] && xk[p..] == [] && xs[..p] == xs;
    } else {
      assert xs[..p] + xs[p..] == xs;
    }
  }

  /** Merging with nothing leaves a sequence as it is. */
  lemma MergeByEmpty<A>(xs: seq<A>, xk: seq<int>)
    requires |xs| == |xk|
    ensures MergeBy(xs, xk, [], []) == xs && MergeBy([], [], xs, xk) == xs
  {
  }

  /** The result of the source's `Unique`: for each element in turn, every
      later element equal to it is removed. */
  function Dedup(s: seq<int>): seq<int>
    decreases |s|
  {
    if s == [] then []
    else
      RemoveMatchingLength(s[1..], Is(s[0]));
      [s[0]] + Dedup(RemoveMatching(s[1..], Is(s[0])))
  }

  /** `Unique` keeps exactly the values of its input. */
  lemma {:induction false} DedupSameValues(s: seq<int>)
    ensures forall y :: y in Dedup(s) <==> y in s
    decreases |s|
  {
    if s != [] {
      var t := RemoveMatching(s[1..], Is(s[0]));
      RemoveMatchingLength(s[1..], Is(s[0]));
      DedupSameValues(t);
      assert Dedup(s) == [s[0]] + Dedup(t);
      forall y ensures y in Dedup(s) <==> y in s {
        RemoveMatchingHas(s[1..], Is(s[0]), y);
        assert y in s <==> y == s[0] || y in s[1..];
      }
    }
  }

  /** `Unique` leaves no two equal elements, however far apart. */
  lemma {:induction false} DedupDistinct(s: seq<int>)
    ensures forall i, j :: 0 <= i < j < |Dedup(s)| ==> Dedup(s)[i] != Dedup(s)[j]
    decreases |s|
  {
    if s != [] {
      var t := RemoveMatching(s[1..], Is(s[0]));
      var d := Dedup(s);
      RemoveMatchingLength(s[1..], Is(s[0]));
      DedupDistinct(t);
      DedupSameValues(t);
      assert d == [s[0]] + Dedup(t);
      forall i, j | 0 <= i < j < |d| ensures d[i] != d[j] {
        if i == 0 {
          assert d[j] == Dedup(t)[j - 1];
          assert d[j] in Dedup(t);
          RemoveMatchingHas(s[1..], Is(s[0]), d[j]);
        } else {
          assert d[i] == Dedup(t)[i - 1] && d[j] == Dedup(t)[j - 1];
        }
      }
    }
  }

  /** On a sequence without duplicates `Unique` changes nothing; with
      DedupDistinct this makes it idempotent. */
  lemma {:induction false} DedupOfDistinct(s: seq<int>)
    requires forall i, j :: 0 <= i < j < |s| ==> s[i] != s[j]
    ensures Dedup(s) == s
    decreases |s|
  {
    if s != [] {
      var u := s[1..];
      forall i | 0 <= i < |u| ensures !Is(s[0]).Matches(u[i]) {
        assert u[i] == s[i + 1];
      }
      RemoveMatchingNone(u, Is(s[0]));
      DistinctTail(s);
      DedupOfDistinct(u);
      assert Dedup(s) == [s[0]] + Dedup(u);
      assert s == [s[0]] + u;
    }
  }

  lemma DistinctTail(s: seq<int>)
    requires s != [] && forall i, j :: 0 <= i < j < |s| ==> s[i] != s[j]
    ensures forall i, j :: 0 <= i < j < |s[1..]| ==> s[1..][i] != s[1..][j]
  {
    forall i, j | 0 <= i < j < |s[1..]| ensures s[1..][i] != s[1..][j] {
      assert s[1..][i] == s[i + 1] && s[1..][j] == s[j + 1];
    }
  }

  lemma DedupIdempotent(s: seq<int>)
    ensures Dedup(Dedup(s)) == Dedup(s)
  {
    DedupDistinct(s);
    DedupOfDistinct(Dedup(s));
  }

  /** The worked example: only the first occurrence of each value stays,
      in first-occurrence order, even when the duplicates are not adjacent. */
  lemma DedupExample()
    ensures Dedup([3, 1, 3, 2, 1]) == [3, 1, 2]
  {
    DedupExampleRest();
    DedupExampleFirstPass();
    assert [3, 1, 3, 2, 1][1..] == [1, 3, 2, 1];
  }

  lemma DedupExampleFirstPass()
    ensures RemoveMatching([1, 3, 2, 1], Is(3)) == [1, 2, 1]
  {
    assert [1, 3, 2, 1][1..] == [3, 2, 1] && [3, 2, 1][1..] == [2, 1];
    assert [2, 1][1..] == [1] && [1][1..] == [];
  }

  lemma DedupExampleRest()
    ensures Dedup([1, 2, 1]) == [1, 2]
  {
    assert Dedup([2]) == [2] by {
      assert [2][1..] == [];
    }
    assert [1, 2, 1][1..] == [2, 1] && [2, 1][1..] == [1] && [1][1..] == [];
    assert RemoveMatching([2, 1], Is(1)) == [2];
  }
  /** A forward search that starts where a sequence `w` begins searches `w`. */
  lemma IndexFromShift(q: seq<int>, w: seq<int>, key: Key)
    ensures IndexFrom(q + w, |q|, key) == |q| + IndexFrom(w, 0, key)
  {
    var d := IndexFrom(w, 0, key);
    var s := q + w;
    forall t | |q| <= t < |q| + d ensures !key.Matches(s[t]) {
      assert s[t] == w[t - |q|];
    }
    if d < |w| {
      assert s[|q| + d] == w[d];
    }
    IndexFromAt(s, |q|, key, |q| + d);
  }

  /** A stretch without matches followed by a match loses just the match. */
  lemma RemoveMatchingFound(w: seq<int>, d: nat, key: Key)
    requires d < |w| && key.Matches(w[d])
    requires forall x :: 0 <= x < d ==> !key.Matches(w[x])
    ensures RemoveMatching(w[..d + 1], key) == w[..d]
  {
    assert w[..d + 1] == w[..d] + [w[d]];
    RemoveMatchingAppend(w[..d], [w[d]], key);
    RemoveMatchingNone(w[..d], key);
    assert RemoveMatching([w[d]], key) == [] by {
      assert [w[d]][1..] == [];
    }
  }

  /** Dropping inside the second part of a concatenation. */
  lemma DropAtRight<A>(q: seq<A>, w: seq<A>, d: nat)
    requires d < |w|
    ensures DropAt(q + w, |q| + d) == (q + w[..d]) + w[d + 1..]
  {
    var s := q + w;
    assert s[..|q| + d] == q + w[..d];
    assert s[|q| + d + 1..] == w[d + 1..];
  }

  /** One round of the loop that removes every match: the elements `rest`
      not yet scanned start with `d` elements that do not match and then a
      match; the scan moves past the match, and what is kept grows by the
      elements before it. */
  lemma RemoveFromStep(p: seq<int>, scanned: seq<int>, rest: seq<int>, d: nat, key: Key)
    requires d < |rest| && key.Matches(rest[d])
    requires forall x :: 0 <= x < d ==> !key.Matches(rest[x])
    ensures p + RemoveMatching(scanned + rest[..d + 1], key) == (p + RemoveMatching(scanned, key)) + rest[..d]
    ensures scanned + rest == (scanned + rest[..d + 1]) + rest[d + 1..]
  {
    RemoveMatchingFound(rest, d, key);
    RemoveMatchingAppend(scanned, rest[..d + 1], key);
    assert rest == rest[..d + 1] + rest[d + 1..];
  }

  /** When no match is left among the elements not yet scanned, the loop's
      sequence is the prefix followed by the kept part of everything. */
  lemma RemoveFromDone(p: seq<int>, scanned: seq<int>, rest: seq<int>, key: Key)
    requires forall x :: 0 <= x < |rest| ==> !key.Matches(rest[x])
    ensures p + RemoveMatching(scanned, key) + rest == p + RemoveMatching(scanned + rest, key)
  {
    RemoveMatchingNone(rest, key);
    RemoveMatchingAppend(scanned, rest, key);
  }
  /** The state of the loop that removes every match after a prefix `p`:
      the list holds `kept + unscanned`, where `kept` is `p` followed by
      what survives of the elements `scanned` so far. */
  ghost predicate RemoveLoop(e: seq<int>, p: seq<int>, scanned: seq<int>, unscanned: seq<int>, kept: seq<int>, key: Key)
  {
    e == kept + unscanned && kept == p + RemoveMatching(scanned, key)
  }

  lemma RemoveLoopStart(e: seq<int>, p: seq<int>, rest: seq<int>, key: Key)
    requires e == p + rest
    ensures RemoveLoop(e, p, [], rest, p, key)
  {
    assert p + [] == p;
  }

  /** A round of that loop: the match found at `m` is dropped and the scan
      moves past it. */
  lemma RemoveLoopStep(e: seq<int>, p: seq<int>, scanned: seq<int>, unscanned: seq<int>, kept: seq<int>, key: Key)
    returns (scanned': seq<int>, unscanned': seq<int>, kept': seq<int>)
    requires RemoveLoop(e, p, scanned, unscanned, kept, key)
    requires IndexFrom(e, |kept|, key) < |e|
    ensures RemoveLoop(DropAt(e, IndexFrom(e, |kept|, key)), p, scanned', unscanned', kept', key)
    ensures scanned + unscanned == scanned' + unscanned' && |unscanned'| < |unscanned|
    ensures |kept'| == IndexFrom(e, |kept|, key) && |kept| <= |kept'|
  {
    IndexFromShift(kept, unscanned, key);
    var d := IndexFrom(unscanned, 0, key);
    scanned', unscanned', kept' := scanned + unscanned[..d + 1], unscanned[d + 1..], kept + unscanned[..d];
    DropAtRight(kept, unscanned, d);
    RemoveFromStep(p, scanned, unscanned, d, key);
  }

  /** When the search finds nothing more, the loop is done. */
  lemma RemoveLoopDone(e: seq<int>, p: seq<int>, scanned: seq<int>, unscanned: seq<int>, kept: seq<int>, key: Key)
    requires RemoveLoop(e, p, scanned, unscanned, kept, key)
    requires IndexFrom(e, |kept|, key) == |e|
    ensures e == p + RemoveMatching(scanned + unscanned, key)
  {
    IndexFromShift(kept, unscanned, key);
    RemoveFromDone(p, scanned, unscanned, key);
  }

  /** One round of the predicate-driven removal loop, which looks at each
      element in turn: `scanned` are the elements already looked at, and
      `rest` the ones not yet looked at. */
  lemma RemoveScanStep(scanned: seq<int>, rest: seq<int>, key: Key)
    requires rest != []
    ensures RemoveMatching(scanned + [rest[0]], key) ==
      RemoveMatching(scanned, key) + (if key.Matches(rest[0]) then [] else [rest[0]])
    ensures scanned + rest == (scanned + [rest[0]]) + rest[1..]
  {
    RemoveMatchingAppend(scanned, [rest[0]], key);
    assert RemoveMatching([rest[0]], key) == if key.Matches(rest[0]) then [] else [rest[0]] by {
      assert [rest[0]][1..] == [];
    }
    assert rest == [rest[0]] + rest[1..];
  }

  /** One round of the loop that tests each element in turn: the elements
      are what was kept of `scanned` followed by `rest`; the first element
      of `rest` is dropped when it matches and kept otherwise. */
  lemma RemoveScanRound(scanned: seq<int>, rest: seq<int>, key: Key)
    requires rest != []
    ensures var q, q' := RemoveMatching(scanned, key), RemoveMatching(scanned + [rest[0]], key);
      (key.Matches(rest[0]) ==> DropAt(q + rest, |q|) == q' + rest[1..] && |q'| == |q|) &&
      (!key.Matches(rest[0]) ==> q + rest == q' + rest[1..] && |q'| == |q| + 1)
    ensures scanned + rest == (scanned + [rest[0]]) + rest[1..]
  {
    var q := RemoveMatching(scanned, key);
    RemoveScanStep(scanned, rest, key);
    DropAtRight(q, rest, 0);
    assert rest[..0] == [] && q + [] == q;
    assert q + rest == (q + [rest[0]]) + rest[1..];
  }

  /** One round of the `Unique` loop: `kept` is the part already made
      unique, `x` the element under the cursor and `rest` what follows it;
      removing every later copy of `x` moves the cursor past `x`. */
  lemma DedupStep(kept: seq<int>, x: int, rest: seq<int>)
    ensures kept + Dedup([x] + rest) == (kept + [x]) + Dedup(RemoveMatching(rest, Is(x)))
    ensures kept + ([x] + rest) == (kept + [x]) + rest
  {
    var s := [x] + rest;
    assert s[0] == x && s[1..] == rest;
    assert Dedup(s) == [x] + Dedup(RemoveMatching(rest, Is(x)));
  }

  /** The state of the `Unique` loop: the list holds `kept + tail`, where
      `kept` is already free of duplicates and what `Unique` still does to
      `tail` completes the result for the original elements `orig`. */
  ghost predicate UniqueLoop(e: seq<int>, orig: seq<int>, kept: seq<int>, tail: seq<int>)
  {
    e == kept + tail && kept + Dedup(tail) == Dedup(orig)
  }

  lemma UniqueLoopStart(orig: seq<int>)
    ensures UniqueLoop(orig, orig, [], orig)
  {
    assert [] + orig == orig;
  }

  /** A round of the `Unique` loop: with `x` the element under the cursor
      and `rest` the elements after it, removing the later copies of `x`
      from `rest` moves the cursor past `x`. */
  lemma UniqueLoopStep(e: seq<int>, orig: seq<int>, kept: seq<int>, tail: seq<int>) returns (x: int, rest: seq<int>)
    requires UniqueLoop(e, orig, kept, tail) && tail != []
    ensures |kept| < |e| && e[|kept|] == x && e == (kept + [x]) + rest
    ensures UniqueLoop((kept + [x]) + RemoveMatching(rest, Is(x)), orig, kept + [x], RemoveMatching(rest, Is(x)))
    ensures |RemoveMatching(rest, Is(x))| < |tail|
  {
    x, rest := tail[0], tail[1..];
    assert tail == [x] + rest;
    DedupStep(kept, x, rest);
    RemoveMatchingLength(rest, Is(x));
  }

  lemma UniqueLoopDone(e: seq<int>, orig: seq<int>, kept: seq<int>, tail: seq<int>)
    requires UniqueLoop(e, orig, kept, tail) && |kept| >= |e|
    ensures e == Dedup(orig)
  {
    assert tail == [] && kept + [] == kept;
  }

  /** The source's `Resize`: the first `n` elements of `s`, padded with
      copies of `x` when `s` is shorter. */
  function Resized(s: seq<int>, n: nat, x: int): (r: seq<int>)
    ensures |r| == n
    ensures forall i :: 0 <= i < n ==> r[i] == if i < |s| then s[i] else x
  {
    if n <= |s| then s[..n] else s + seq(n - |s|, _ => x)
  }
}
