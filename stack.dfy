/** A LIFO stack whose elements are a sequence, pushed and popped at its end. */
module ListStack {
  import opened Errors

  class Stack<T> {
    /** The elements, bottom first: the last one is the top of the stack. */
    var elements: seq<T>

    constructor ()
      ensures elements == []
    {
      elements := [];
    }

    /** Pushes `v` on top of the stack. */
    method Add(v: T)
      modifies this
      ensures elements == old(elements) + [v]
    {
      elements := elements + [v];
    }

    /** Pops the top of the stack; an empty stack raises IndexError and is left as it was. */
    method Remove() returns (r: Result<T>)
      modifies this
      ensures old(elements) == [] ==> r == Err(IndexError(PopFromEmpty)) && elements == old(elements)
      ensures old(elements) != [] ==>
                r == Ok(old(elements)[|old(elements)| - 1]) &&
                elements == old(elements)[..|old(elements)| - 1]
    {
      if elements == [] {
        return Err(IndexError(PopFromEmpty));
      }
      r := Ok(elements[|elements| - 1]);
      elements := elements[..|elements| - 1];
    }
  }

  /** Pushing a value and popping right away returns that value and restores the stack. */
  method AddThenRemove<T>(s: Stack<T>, v: T) returns (r: Result<T>)
    modifies s
    ensures r == Ok(v) && s.elements == old(s.elements)
  {
    s.Add(v);
    r := s.Remove();
  }

  /** Pops every element of `s`: they come out in the reverse of the order they were pushed. */
  method RemoveAll<T>(s: Stack<T>) returns (popped: seq<T>)
    modifies s
    ensures s.elements == []
    ensures |popped| == |old(s.elements)|
    ensures forall i :: 0 <= i < |popped| ==> popped[i] == old(s.elements)[|popped| - 1 - i]
  {
    popped := [];
    while s.elements != []
      invariant |s.elements| + |popped| == |old(s.elements)|
      invariant s.elements == old(s.elements)[..|s.elements|]
      invariant forall i :: 0 <= i < |popped| ==> popped[i] == old(s.elements)[|old(s.elements)| - 1 - i]
      decreases |s.elements|
    {
      var r := s.Remove();
      popped := popped + [r.value];
    }
  }

  /**
   * Pushes x and y, pops y, pushes z, then pops z and x; one more pop, on the
   * now empty stack, raises IndexError.
   */
  method MixedOperations<T>(x: T, y: T, z: T) returns (popped: seq<Result<T>>)
    ensures popped == [Ok(y), Ok(z), Ok(x), Err(IndexError(PopFromEmpty))]
  {
    var s := new Stack<T>();
    s.Add(x);
    s.Add(y);
    var r1 := s.Remove();
    s.Add(z);
    var r2 := s.Remove();
    var r3 := s.Remove();
    var r4 := s.Remove();
    popped := [r1, r2, r3, r4];
  }
}
