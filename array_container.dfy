/** The fixed-size array container: a size and a heap buffer, with
    bounds-checked access, element-wise comparison and deep assignment. */
module ArrayContainer {
  import opened Errors

  class Array<T(==,0)> {
    /** The size given at construction; assignment overwrites it. */
    var size: nat
    /** The buffer; null once its elements have been moved elsewhere. */
    var container: array?<T>

    /** A buffer, when there is one, holds exactly `size` elements. */
    ghost predicate Valid()
      reads this
    {
      container != null ==> container.Length == size
    }

    /** The elements the array holds: none without a buffer. */
    ghost function Contents(): seq<T>
      reads this, container
    {
      if container == null then [] else container[..]
    }

    constructor Wrap(n: nat, buffer: array?<T>)
      ensures size == n && container == buffer
    {
      size := n;
      container := buffer;
    }

    /** The number of elements: zero without a buffer, whatever `size`
        says. */
    function GetSize(): (n: nat)
      reads this, container
      requires Valid()
      ensures n == |Contents()|
      ensures container == null ==> n == 0
    {
      if container == null then 0 else size
    }

    /** An array of `n` elements, whose values are left unspecified; no
        size means no array. */
    static method OfSize(n: nat) returns (r: Result<Array<T>>)
      ensures n == 0 <==> r.Err?
      ensures r.Err? ==> r.error == ZeroSize
      ensures r.Ok? ==> (fresh(r.value) && fresh(r.value.container) && r.value.Valid() &&
        r.value.container != null && r.value.GetSize() == n)
    {
      if n == 0 {
        return Err(ZeroSize);
      }
      var buffer := new T[n];
      var a := new Array.Wrap(n, buffer);
      r := Ok(a);
    }

    /** A copy of `src` in a buffer of its own, element by element; an
        array without elements cannot be copied. */
    static method Copy(src: Array<T>) returns (r: Result<Array<T>>)
      requires src.Valid()
      ensures src.GetSize() == 0 <==> r.Err?
      ensures r.Err? ==> r.error == ZeroSize
      ensures r.Ok? ==> (fresh(r.value) && fresh(r.value.container) && r.value.Valid() &&
        r.value.Contents() == src.Contents())
    {
      var n := src.GetSize();
      if n == 0 {
        return Err(ZeroSize);
      }
      var buffer := new T[n];
      for index := 0 to n
        invariant buffer[..index] == src.container[..index]
      {
        buffer[index] := src.container[index];
      }
      var a := new Array.Wrap(n, buffer);
      r := Ok(a);
    }

    /** Takes over the buffer of `src`, which is left without one but
        keeps its recorded size; an array without elements cannot be
        moved. */
    static method Move(src: Array<T>) returns (r: Result<Array<T>>)
      requires src.Valid()
      modifies src
      ensures old(src.GetSize()) == 0 <==> r.Err?
      ensures r.Err? ==> r.error == ZeroSize && src.container == old(src.container)
      ensures r.Ok? ==> (fresh(r.value) && r.value.Valid() &&
        r.value.container == old(src.container) && r.value.Contents() == old(src.Contents()))
      ensures r.Ok? ==> src.container == null && src.GetSize() == 0
      ensures src.Valid() && src.size == old(src.size)
    {
      var n := src.GetSize();
      var buffer := src.container;
      if n == 0 {
        return Err(ZeroSize);
      }
      src.container := null;
      var a := new Array.Wrap(n, buffer);
      r := Ok(a);
    }

    /** A copy of the first `n` elements of the buffer `source`; a zero
        size is refused first, then a missing source. */
    static method FromBuffer(source: array?<T>, n: nat) returns (r: Result<Array<T>>)
      requires source != null ==> n <= source.Length
      ensures r.Err? <==> n == 0 || source == null
      ensures r.Err? ==> r.error == (if n == 0 then ZeroSize else InvalidSource)
      ensures r.Ok? ==> (fresh(r.value) && fresh(r.value.container) && r.value.Valid() &&
        source != null && r.value.Contents() == source[..n])
    {
      if n == 0 {
        return Err(ZeroSize);
      } else if source == null {
        return Err(InvalidSource);
      }
      var buffer := new T[n];
      for index := 0 to n
        invariant buffer[..index] == source[..index]
      {
        buffer[index] := source[index];
      }
      var a := new Array.Wrap(n, buffer);
      r := Ok(a);
    }

    /** The elements of `s`, in order; an empty list of elements is
        refused. */
    static method FromSeq(s: seq<T>) returns (r: Result<Array<T>>)
      ensures r.Err? <==> s == []
      ensures r.Err? ==> r.error == ZeroSize
      ensures r.Ok? ==> (fresh(r.value) && fresh(r.value.container) && r.value.Valid() &&
        r.value.Contents() == s)
    {
      if |s| == 0 {
        return Err(ZeroSize);
      }
      var buffer := new T[|s|];
      var index := 0;
      while index < |s|
        invariant index <= |s| && buffer[..index] == s[..index]
      {
        buffer[index] := s[index];
        index := index + 1;
      }
      var a := new Array.Wrap(|s|, buffer);
      r := Ok(a);
    }

    /** The element at `index`. An array without a buffer has no
        elements and reports that; otherwise an index past the end is a
        range error. */
    function Get(index: nat): (r: Result<T>)
      reads this, container
      requires Valid()
      ensures r.Ok? <==> index < GetSize()
      ensures r.Ok? ==> r.value == Contents()[index]
      ensures r.Err? && container == null ==> r.error == InvalidState
      ensures r.Err? && container != null ==> r.error == OutOfRange(size, index)
    {
      if index < size && container != null then Ok(container[index])
      else if container == null then Err(InvalidState)
      else Err(OutOfRange(size, index))
    }

    /** Writes `x` at `index` through the reference the subscript
        returns; the errors are those of `Get`. */
    method Set(index: nat, x: T) returns (o: Outcome)
      requires Valid()
      modifies container
      ensures Valid()
      ensures o == Pass <==> index < GetSize()
      ensures o == Pass ==> Contents() == old(Contents())[index := x]
      ensures o != Pass ==> Contents() == old(Contents()) && o == Fail(old(Get(index)).error)
    {
      if index < size && container != null {
        container[index] := x;
        return Pass;
      }
      if container == null {
        return Fail(InvalidState);
      }
      o := Fail(OutOfRange(size, index));
    }

    /** Equality with `right`: false when the sizes differ or `right` has
        no buffer, true on a shared buffer, and otherwise element-wise
        equality; reading this array fails when it has lost its buffer. */
    method Equals(right: Array<T>) returns (r: Result<bool>)
      requires Valid() && right.Valid()
      ensures right.size != size || right.container == null ==> r == Ok(false)
      ensures right.size == size && right.container != null && right.container == container ==> r == Ok(true)
      ensures right.size == size && right.container != null && right.container != container ==>
        r == if container == null && size > 0 then Err(InvalidState) else Ok(Contents() == right.Contents())
    {
      if right.size != size {
        return Ok(false);
      }
      if right.container == null {
        return Ok(false);
      }
      if right.container == container {
        return Ok(true);
      }
      for index := 0 to size
        invariant container != null ==> container[..index] == right.container[..index]
        invariant container == null ==> index == 0
      {
        var mine := Get(index);
        if mine.Err? {
          return Err(mine.error);
        }
        var theirs := right.Get(index);
        if mine.value != theirs.value {
          assert Contents()[index] != right.Contents()[index];
          return Ok(false);
        }
      }
      assert container != null ==> container[..] == container[..size];
      r := Ok(true);
    }

    /** The negation of `Equals`, with its errors. */
    method NotEquals(right: Array<T>) returns (r: Result<bool>)
      requires Valid() && right.Valid()
      ensures r.Err? <==> (right.size == size && right.container != null && right.container != container &&
        container == null && size > 0)
      ensures right.size != size || right.container == null ==> r == Ok(true)
      ensures right.size == size && right.container != null && container != null ==>
        r == Ok(Contents() != right.Contents())
    {
      var e := Equals(right);
      r := if e.Ok? then Ok(!e.value) else e;
    }

    /** Deep assignment: this array gets a buffer of its own holding the
        elements of `right`; assigning an array to itself keeps it as it
        is. */
    method Assign(right: Array<T>)
      requires Valid() && right.Valid()
      modifies this
      ensures Valid() && Contents() == old(right.Contents()) && GetSize() == old(right.GetSize())
      ensures right != this ==> fresh(container) && container != null
      ensures right == this ==> container == old(container) && size == old(size)
    {
      if right == this {
        return;
      }
      var n := right.GetSize();
      var buffer := new T[n];
      container := buffer;
      size := n;
      for index := 0 to n
        invariant container == buffer && size == n && right.Valid()
        invariant buffer[..index] == right.Contents()[..index]
      {
        buffer[index] := right.container[index];
      }
    }
  }
}
