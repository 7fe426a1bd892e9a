/**
 * MyList: a growable, indexable sequence kept in a raw fixed-size buffer.
 * The buffer has exactly `capacity` slots; the first `size` hold the elements,
 * the others are vacant. Appending to a full buffer doubles it; popping
 * halves it once at most a quarter of it is in use.
 */
module GrowableList {
  import opened Errors

  /** One slot of the raw buffer: a never-written or cleared slot is Vacant. */
  datatype Slot<T> = Vacant | Filled(value: T)

  /** Python-style index normalisation: a negative index counts from the end. */
  function NormalizeIndex(index: int, size: nat): (position: int)
    ensures 0 <= position < size <==> -(size as int) <= index < size
    ensures -(size as int) <= index < size ==> position == index % size
  {
    if index < 0 then size + index else index
  }

  ghost predicate IsPowerOfTwo(n: nat)
  {
    n == 1 || (2 <= n && n % 2 == 0 && IsPowerOfTwo(n / 2))
  }

  /** The capacity after appending to a list of `size` elements: full buffers double. */
  function CapacityAfterAppend(size: nat, capacity: nat): (c: nat)
    ensures c == capacity || c == 2 * capacity
    ensures 1 <= capacity && size <= capacity ==> size < c
  {
    if size == capacity then capacity * 2 else capacity
  }

  /** The capacity after a pop has left `size` elements: a quarter-full buffer halves. */
  function CapacityAfterPop(size: nat, capacity: nat): (c: nat)
    ensures c == capacity || c == capacity / 2
    ensures 1 <= capacity ==> 1 <= c <= capacity
    ensures size <= capacity ==> size <= c
  {
    if capacity > 1 && size <= capacity / 4 then capacity / 2 else capacity
  }

  /**
   * What append and pop keep true of (size, capacity): there is at least one
   * slot, the elements fit, the capacity is a power of two (it starts at 1 and
   * is only ever doubled or halved), and, past a single slot, more than a
   * quarter of the buffer is in use (a pop that reaches a quarter shrinks it).
   */
  ghost predicate CapacityInvariant(size: nat, capacity: nat)
  {
    1 <= capacity && size <= capacity && IsPowerOfTwo(capacity) &&
    (capacity == 1 || capacity / 4 < size)
  }

  lemma AppendKeepsInvariant(size: nat, capacity: nat)
    requires CapacityInvariant(size, capacity)
    ensures size < CapacityAfterAppend(size, capacity)
    ensures CapacityInvariant(size + 1, CapacityAfterAppend(size, capacity))
  {
  }

  lemma PopKeepsInvariant(size: nat, capacity: nat)
    requires CapacityInvariant(size + 1, capacity)
    ensures size <= CapacityAfterPop(size, capacity) <= capacity
    ensures CapacityInvariant(size, CapacityAfterPop(size, capacity))
  {
    // When the buffer shrinks, more than a quarter was in use before the pop,
    // so exactly a quarter is in use now, which is more than an eighth.
  }

  /** Right after a growth, popping the new element does not shrink the buffer again. */
  lemma GrowThenPopKeepsCapacity(size: nat, capacity: nat)
    requires 1 <= capacity && size == capacity
    ensures CapacityAfterAppend(size, capacity) == 2 * capacity
    ensures CapacityAfterPop(size, 2 * capacity) == 2 * capacity
  {
  }

  /** Right after a shrink, appending does not grow the buffer again. */
  lemma ShrinkThenAppendKeepsCapacity(size: nat, capacity: nat)
    requires CapacityAfterPop(size, capacity) < capacity
    ensures CapacityAfterPop(size, capacity) == capacity / 2
    ensures CapacityAfterAppend(size, capacity / 2) == capacity / 2
  {
  }

  lemma {:induction false} PowerOfTwoGap(a: nat, b: nat)
    requires IsPowerOfTwo(a) && IsPowerOfTwo(b) && b < a
    ensures 2 * b <= a
  {
    if b != 1 {
      PowerOfTwoGap(a / 2, b / 2);
    }
  }

  /**
   * Once a list holds more elements than some earlier capacity, its capacity
   * is at least twice that earlier capacity.
   */
  lemma GrowthAtLeastDoubles(size: nat, capacity: nat, laterSize: nat, laterCapacity: nat)
    requires CapacityInvariant(size, capacity) && CapacityInvariant(laterSize, laterCapacity)
    requires capacity < laterSize
    ensures 2 * capacity <= laterCapacity
  {
    PowerOfTwoGap(laterCapacity, capacity);
  }

  class MyList<T> {
    ghost var Contents: seq<T>
    ghost var Repr: set<object>

    var size: nat
    var capacity: nat
    var buf: array<Slot<T>>

    /** The buffer holds exactly the contents, followed by vacant slots. */
    ghost predicate Consistent()
      reads this, Repr
    {
      Repr == {this, buf} &&
      buf.Length == capacity && 1 <= capacity && size <= capacity &&
      |Contents| == size &&
      (forall i :: 0 <= i < size ==> buf[i] == Filled(Contents[i])) &&
      (forall i :: size <= i < capacity ==> buf[i] == Vacant)
    }

    ghost predicate Valid()
      reads this, Repr
    {
      Consistent() && CapacityInvariant(size, capacity)
    }

    constructor ()
      ensures Valid() && fresh(Repr)
      ensures Contents == [] && size == 0 && capacity == 1 && buf.Length == 1
    {
      size := 0;
      capacity := 1;
      buf := new Slot<T>[1](_ => Vacant);
      Contents := [];
      Repr := {this, buf};
    }

    function Length(): (n: nat)
      reads this, Repr
      requires Valid()
      ensures n == |Contents|
    {
      size
    }

    /** Element at `index`, counting from the end when `index` is negative. */
    function Get(index: int): (r: Result<T>)
      reads this, Repr
      requires Valid()
      ensures r.Ok? <==> -|Contents| <= index < |Contents|
      ensures 0 <= index < |Contents| ==> r.value == Contents[index]
      ensures -|Contents| <= index < 0 ==> r.value == Contents[|Contents| + index]
      ensures r.Err? ==> r.error == IndexError(OutOfRange(index))
    {
      var position := NormalizeIndex(index, size);
      if !(0 <= position < size) then Err(IndexError(OutOfRange(index)))
      else Ok(buf[position].value)
    }

    method Append(v: T)
      requires Valid()
      modifies Repr
      ensures Valid() && fresh(Repr - old(Repr))
      ensures Contents == old(Contents) + [v]
      ensures capacity == CapacityAfterAppend(old(size), old(capacity))
      ensures capacity == old(capacity) ==> buf == old(buf)
    {
      AppendKeepsInvariant(size, capacity);
      if size == capacity {
        Resize(capacity * 2);
      }
      buf[size] := Filled(v);
      size := size + 1;
      Contents := Contents + [v];
    }

    /** Removes and returns the last element; an empty list raises IndexError and is left as it was. */
    method Pop() returns (r: Result<T>)
      requires Valid()
      modifies Repr
      ensures Valid() && fresh(Repr - old(Repr))
      ensures old(size) == 0 ==>
                r == Err(IndexError(PopFromEmpty)) && Contents == old(Contents) &&
                capacity == old(capacity) && buf == old(buf)
      ensures old(size) != 0 ==>
                r == Ok(old(Contents)[old(size) - 1]) &&
                Contents == old(Contents)[..old(size) - 1] &&
                capacity == CapacityAfterPop(size, old(capacity))
      ensures capacity == old(capacity) ==> buf == old(buf)
    {
      if size == 0 {
        return Err(IndexError(PopFromEmpty));
      }
      var last := buf[size - 1];
      buf[size - 1] := Vacant;
      size := size - 1;
      Contents := Contents[..size];
      PopKeepsInvariant(size, capacity);
      Shrink();
      r := Ok(last.value);
    }

    /** Moves the elements, in order, into a fresh buffer of `newCapacity` slots. */
    method Resize(newCapacity: nat)
      requires Consistent()
      requires 1 <= newCapacity && size <= newCapacity
      modifies this
      ensures Consistent() && fresh(buf)
      ensures capacity == newCapacity && size == old(size) && Contents == old(Contents)
    {
      var newBuf := new Slot<T>[newCapacity](_ => Vacant);
      for i := 0 to size
        modifies newBuf
        invariant forall j :: 0 <= j < i ==> newBuf[j] == buf[j]
        invariant forall j :: i <= j < newCapacity ==> newBuf[j] == Vacant
      {
        newBuf[i] := buf[i];
      }
      buf := newBuf;
      capacity := newCapacity;
      Repr := {this, buf};
    }

    /** Halves the buffer once at most a quarter of it is in use. */
    method Shrink()
      requires Consistent()
      modifies this
      ensures Consistent() && fresh(Repr - old(Repr))
      ensures capacity == CapacityAfterPop(size, old(capacity))
      ensures size == old(size) && Contents == old(Contents)
      ensures capacity == old(capacity) ==> buf == old(buf)
    {
      if capacity > 1 && size <= capacity / 4 {
        Resize(capacity / 2);
      }
    }
  }

  /**
   * Appends 0, 1 and 2 to a fresh list and pops until it is empty: the pops
   * return 2, 1 and 0, and one more pop raises IndexError.
   */
  method PopUntilEmpty() returns (popped: seq<Result<int>>, length: nat)
    ensures popped == [Ok(2), Ok(1), Ok(0), Err(IndexError(PopFromEmpty))]
    ensures length == 0
  {
    var l := new MyList<int>();
    AppendAll(l, [0, 1, 2]);
    var r1 := l.Pop();
    assert l.Contents == [0, 1];
    var r2 := l.Pop();
    assert l.Contents == [0];
    var r3 := l.Pop();
    length := l.Length();
    var r4 := l.Pop();
    popped := [r1, r2, r3, r4];
  }

  /** On a one-element list, indices 1 and -2 are out of range while 0 and -1 are not. */
  method OneElementIndexing<T>(v: T) returns (results: seq<Result<T>>)
    ensures results == [Ok(v), Ok(v), Err(IndexError(OutOfRange(1))), Err(IndexError(OutOfRange(-2)))]
  {
    var l := new MyList<T>();
    l.Append(v);
    results := [l.Get(0), l.Get(-1), l.Get(1), l.Get(-2)];
  }

  /** Appends the elements of `xs` in order. */
  method AppendAll<T>(l: MyList<T>, xs: seq<T>)
    requires l.Valid()
    modifies l.Repr
    ensures l.Valid() && fresh(l.Repr - old(l.Repr))
    ensures l.Contents == old(l.Contents) + xs
  {
    for i := 0 to |xs|
      invariant l.Valid() && fresh(l.Repr - old(l.Repr))
      invariant l.Contents == old(l.Contents) + xs[..i]
    {
      l.Append(xs[i]);
      assert xs[..i + 1] == xs[..i] + [xs[i]];
    }
  }

  /** Reads every element of `l` from the front, with indices 0, 1, ... */
  method ReadForward<T>(l: MyList<T>) returns (values: seq<Result<T>>)
    requires l.Valid()
    ensures |values| == |l.Contents|
    ensures forall i :: 0 <= i < |values| ==> values[i] == Ok(l.Contents[i])
  {
    values := [];
    for i := 0 to l.Length()
      invariant |values| == i && forall j :: 0 <= j < i ==> values[j] == Ok(l.Contents[j])
    {
      values := values + [l.Get(i)];
    }
  }

  /** Reads every element of `l` from the back, with indices -1, -2, ... */
  method ReadBackward<T>(l: MyList<T>) returns (values: seq<Result<T>>)
    requires l.Valid()
    ensures |values| == |l.Contents|
    ensures forall j :: 0 <= j < |values| ==> values[j] == Ok(l.Contents[|l.Contents| - 1 - j])
  {
    values := [];
    for i := 0 to l.Length()
      invariant |values| == i
      invariant forall j :: 0 <= j < i ==> values[j] == Ok(l.Contents[|l.Contents| - 1 - j])
    {
      values := values + [l.Get(-(i + 1))];
    }
  }

  /** A fresh list holding 0, 1, ..., n - 1, built by n appends. */
  method AppendRange(n: nat) returns (l: MyList<nat>)
    ensures l.Valid() && fresh(l.Repr)
    ensures |l.Contents| == n && forall j :: 0 <= j < n ==> l.Contents[j] == j
  {
    l := new MyList<nat>();
    for i := 0 to n
      invariant l.Valid() && fresh(l.Repr)
      invariant |l.Contents| == i
      invariant forall j :: 0 <= j < i ==> l.Contents[j] == j
    {
      l.Append(i);
    }
  }

  /** Pops `m` elements of `l`: they come out from the end backwards. */
  method PopTimes<T>(l: MyList<T>, m: nat) returns (popped: seq<Result<T>>)
    requires l.Valid() && m <= |l.Contents|
    modifies l.Repr
    ensures l.Valid() && fresh(l.Repr - old(l.Repr))
    ensures l.Contents == old(l.Contents)[..|old(l.Contents)| - m]
    ensures |popped| == m
    ensures forall i :: 0 <= i < m ==> popped[i] == Ok(old(l.Contents)[|old(l.Contents)| - 1 - i])
  {
    popped := [];
    for i := 0 to m
      invariant l.Valid() && fresh(l.Repr - old(l.Repr))
      invariant l.Contents == old(l.Contents)[..|old(l.Contents)| - i]
      invariant |popped| == i
      invariant forall p :: 0 <= p < i ==> popped[p] == Ok(old(l.Contents)[|old(l.Contents)| - 1 - p])
    {
      var r := l.Pop();
      popped := popped + [r];
    }
  }

  /**
   * Appends 0 to n - 1 to a fresh list and reads it from both ends: every
   * value is found at its position from the front and from the back.
   */
  method AppendThenRead(n: nat) returns (forward: seq<Result<nat>>, backward: seq<Result<nat>>)
    ensures |forward| == n && forall i :: 0 <= i < n ==> forward[i] == Ok(i)
    ensures |backward| == n && forall j :: 0 <= j < n ==> backward[j] == Ok(n - 1 - j)
  {
    var l := AppendRange(n);
    forward := ReadForward(l);
    backward := ReadBackward(l);
  }

  /**
   * Appends 0 to n - 1 to a fresh list, then pops n / 2 elements: the pops
   * return the values from the end backwards, and the values left are still
   * read at their positions, the last one also at index -1.
   */
  method AppendThenPopHalf(n: nat)
    returns (popped: seq<Result<nat>>, remaining: seq<Result<nat>>, last: Result<nat>, length: nat)
    ensures |popped| == n / 2 && forall i :: 0 <= i < n / 2 ==> popped[i] == Ok(n - 1 - i)
    ensures length == n - n / 2
    ensures |remaining| == length && forall j :: 0 <= j < length ==> remaining[j] == Ok(j)
    ensures 0 < length ==> last == Ok(length - 1)
  {
    var l := AppendRange(n);
    ghost var full := l.Contents;
    popped := PopTimes(l, n / 2);
    assert l.Contents == full[..n - n / 2];
    length := l.Length();
    remaining := ReadForward(l);
    last := l.Get(-1);
  }

  /**
   * Appends n values to a fresh list, then pops n / 2 of them: the capacity
   * grows to at least n and never falls below the length.
   */
  method GrowThenShrink(n: nat) returns (grownCapacity: nat, finalCapacity: nat, finalLength: nat)
    ensures n <= grownCapacity
    ensures finalLength == n - n / 2 && finalLength <= finalCapacity
  {
    var l := AppendRange(n);
    grownCapacity := l.capacity;
    var popped := PopTimes(l, n / 2);
    finalCapacity, finalLength := l.capacity, l.Length();
  }
}
