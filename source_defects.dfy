/** Behaviours of the two containers as their code is written, where that
    differs from what the code evidently intends; each comes with the
    input that shows the difference. The rest of the model implements the
    intended behaviour. */
module SourceDefects {
  import opened ListSpec

  datatype Option<T> = None | Some(value: T)

  /** The merging loop as written, on values: `done` holds the elements
      before the cursor of this list, `rest` those from the cursor on, and
      `ys` the other list. The loop runs while the cursor is on a node and
      reads the other list's first element each round, so an exhausted
      other list is read through a null pointer: `None`. Once the cursor
      is past the end, what is left of the other list is concatenated as
      written, which fails when this list is still empty. */
  function MergeAsWritten(done: seq<int>, rest: seq<int>, ys: seq<int>): (r: Option<seq<int>>)
    ensures r.Some? ==> multiset(r.value) == multiset(done + rest + ys)
    ensures rest != [] && ys == [] ==> r == None
    ensures done == [] && rest == [] && ys != [] ==> r == None
    decreases |rest| + |ys|
  {
    if rest == [] then
      assert done + rest + ys == done + ys;
      ConcatenateAsWritten(done, ys)
    else if ys == [] then None
    else if rest[0] > ys[0] then
      var r := MergeAsWritten(done + [ys[0]], rest, ys[1..]);
      assert multiset(done + rest + ys) == multiset(done + [ys[0]] + rest + ys[1..]) by {
        assert ys == [ys[0]] + ys[1..];
      }
      r
    else
      var r := MergeAsWritten(done + [rest[0]], rest[1..], ys);
      assert done + rest + ys == done + [rest[0]] + rest[1..] + ys by {
        assert rest == [rest[0]] + rest[1..];
      }
      r
  }

  /** Whenever every element of the other list is smaller than the last
      element of this one, the loop as written takes all of them in and
      then reads the emptied other list. */
  lemma {:induction false} MergeAsWrittenFails(done: seq<int>, rest: seq<int>, ys: seq<int>)
    requires rest != [] && forall y :: y in ys ==> y < rest[|rest| - 1]
    ensures MergeAsWritten(done, rest, ys) == None
    decreases |rest| + |ys|
  {
    if ys == [] {
    } else if rest[0] > ys[0] {
      forall y | y in ys[1..] ensures y < rest[|rest| - 1] {
        assert y in ys;
      }
      MergeAsWrittenFails(done + [ys[0]], rest, ys[1..]);
    } else {
      assert ys[0] in ys;
      assert |rest| > 1;
      MergeAsWrittenFails(done + [rest[0]], rest[1..], ys);
    }
  }

  /** The smallest case: merging `[3]` into `[5]` fails as written, while
      the intended merge is `[3, 5]`. */
  lemma MergeCounterexample()
    ensures MergeAsWritten([], [5], [3]) == None
    ensures Merge([5], [3]) == [3, 5]
  {
    MergeAsWrittenFails([], [5], [3]);
    MergeAllBelow([5], [3]);
  }

  /** Merging `[1]` into an empty list fails as written too, in the
      concatenation that follows the loop; the intended merge is `[1]`. */
  lemma MergeIntoEmptyCounterexample()
    ensures MergeAsWritten([], [], [1]) == None
    ensures Merge([], [1]) == [1]
  {
  }

  /** Merging a list whose every element exceeds every element of `ys`
      puts `ys` first. */
  lemma MergeAllBelow(xs: seq<int>, ys: seq<int>)
    requires |xs| == 1 && |ys| == 1 && ys[0] < xs[0]
    ensures Merge(xs, ys) == ys + xs
  {
    assert Merge(xs, []) == xs;
  }

  /** Concatenation as written: an empty other list changes nothing;
      otherwise the last node of this list gets a successor, which for an
      empty list means writing through a null pointer: `None`. */
  function ConcatenateAsWritten(xs: seq<int>, ys: seq<int>): (r: Option<seq<int>>)
    ensures r.None? <==> xs == [] && ys != []
    ensures r.Some? ==> r.value == xs + ys
  {
    if ys == [] then Some(xs)
    else if xs == [] then None
    else Some(xs + ys)
  }

  /** Concatenating `[1]` onto an empty list fails as written; the
      intended result is `[1]`. */
  lemma ConcatenateCounterexample()
    ensures ConcatenateAsWritten([], [1]) == None
  {
  }

  /** Where an end pointer of a list of `count` nodes points: nowhere, at
      the node of a position, or at a node that has been deleted. */
  datatype Ptr = Null | At(i: nat) | Freed

  /** The end pointers and count of a list. */
  datatype Ends = Ends(first: Ptr, last: Ptr, count: nat)

  /** The end pointers agree with the count: null on an empty list, the
      first and last positions otherwise. */
  predicate EndsAgree(e: Ends)
  {
    if e.count == 0 then e.first == Null && e.last == Null
    else e.first == At(0) && e.last == At(e.count - 1)
  }

  /** `RemoveFirst` as written: the first pointer moves to the successor
      and the count drops, but the last pointer is left alone, so on a
      one-node list it still points at the deleted node. */
  function RemoveFirstAsWritten(e: Ends): (r: Ends)
    requires EndsAgree(e)
    ensures r.count == if e.count == 0 then 0 else e.count - 1
    ensures e.count != 1 ==> EndsAgree(r)
    ensures e.count == 1 ==> r.last == Freed
  {
    if e.count == 0 then e
    else Ends(if e.count > 1 then At(0) else Null, if e.count > 1 then At(e.count - 2) else Freed, e.count - 1)
  }

  /** `RemoveLast` as written: the mirror image, leaving the first pointer
      on the deleted node of a one-node list. */
  function RemoveLastAsWritten(e: Ends): (r: Ends)
    requires EndsAgree(e)
    ensures r.count == if e.count == 0 then 0 else e.count - 1
    ensures e.count != 1 ==> EndsAgree(r)
    ensures e.count == 1 ==> r.first == Freed
  {
    if e.count == 0 then e
    else Ends(if e.count > 1 then At(0) else Freed, if e.count > 1 then At(e.count - 2) else Null, e.count - 1)
  }

  /** Removing the only node leaves a list whose end pointers disagree
      with its count, whichever end it is removed from. */
  lemma StaleEndCounterexample()
    ensures !EndsAgree(RemoveFirstAsWritten(Ends(At(0), At(0), 1)))
    ensures !EndsAgree(RemoveLastAsWritten(Ends(At(0), At(0), 1)))
  {
  }

  /** An array on values: its recorded size and its buffer, if any. */
  datatype ArrayState<T> = ArrayState(size: nat, buffer: Option<seq<T>>)

  /** The number of elements the array reports: zero without a buffer. */
  function ReportedSize<T>(a: ArrayState<T>): nat
  {
    if a.buffer.None? then 0 else a.size
  }

  /** The move constructor as written: the new array takes the buffer and
      the reported size; the source loses its buffer but keeps its
      recorded size. Returns the new array and the source. */
  function MoveAsWritten<T>(a: ArrayState<T>): (r: (ArrayState<T>, ArrayState<T>))
    ensures r.0.buffer == a.buffer && r.1.buffer == None && r.1.size == a.size
  {
    (ArrayState(ReportedSize(a), a.buffer), ArrayState(a.size, None))
  }

  /** The subscript as written accepts every index below the recorded
      size. */
  predicate IndexAccepted<T>(a: ArrayState<T>, index: nat)
  {
    index < a.size
  }

  /** Reading at `index` is defined: there is a buffer and it is long
      enough. */
  predicate ReadDefined<T>(a: ArrayState<T>, index: nat)
  {
    a.buffer.Some? && index < |a.buffer.value|
  }

  /** Every index of a moved array that the subscript as written accepts
      on the moved-from source is a read through its null buffer. */
  lemma MovedFromReadsNull<T>(a: ArrayState<T>, index: nat)
    requires a.buffer.Some? && |a.buffer.value| == a.size && index < a.size
    ensures IndexAccepted(MoveAsWritten(a).1, index) && !ReadDefined(MoveAsWritten(a).1, index)
    ensures ReadDefined(MoveAsWritten(a).0, index)
  {
  }

  /** Assignment as written, on values: the old buffer is released and a
      new one of the right-hand size, holding the unspecified values
      `junk`, becomes this array's buffer before the elements are copied.
      When the right-hand side is this array itself, the copy reads that
      new buffer. */
  function AssignAsWritten<T>(left: seq<T>, right: seq<T>, same: bool, junk: seq<T>): (r: seq<T>)
    requires |junk| == |right| && (same ==> left == right)
    ensures |r| == |right|
    ensures !same ==> r == right
    ensures same ==> r == junk
  {
    var source := if same then junk else right;
    seq(|right|, i requires 0 <= i < |right| => source[i])
  }

  /** Assigning an array to itself as written replaces its elements with
      whatever the new buffer held, unless that happened to be the old
      elements. */
  lemma SelfAssignmentLoses<T>(s: seq<T>, junk: seq<T>)
    requires |junk| == |s| && junk != s
    ensures AssignAsWritten(s, s, true, junk) != s
  {
  }
}
