/**
 * A FIFO queue over a singly linked list of nodes, with pointers to the
 * first node (`head`) and the last one (`tail`) and a length counter.
 * The ghost `Spine` lists the nodes from head to tail.
 */
module LinkedQueue {
  import opened Errors

  class Node<T> {
    var val: T
    var next: Node?<T>

    constructor (val: T, next: Node?<T> := null)
      ensures this.val == val && this.next == next
    {
      this.val := val;
      this.next := next;
    }
  }

  class Queue<T> {
    ghost var Contents: seq<T>
    ghost var Spine: seq<Node<T>>
    ghost var Repr: set<object>

    var head: Node?<T>
    var tail: Node?<T>
    var length: int

    /**
     * The spine is a chain of distinct nodes, each linked to the next, from
     * `head` to `tail`, whose `next` is null; the counter is its length and
     * the contents are the nodes' values in order.
     */
    ghost predicate Valid()
      reads this, Repr
    {
      this in Repr &&
      (forall i :: 0 <= i < |Spine| ==> Spine[i] in Repr) &&
      length == |Spine| == |Contents| &&
      (Spine == [] ==> head == null && tail == null) &&
      (Spine != [] ==> head == Spine[0] && tail == Spine[|Spine| - 1] && tail.next == null) &&
      (forall i :: 0 <= i < |Spine| - 1 ==> Spine[i].next == Spine[i + 1]) &&
      (forall i :: 0 <= i < |Spine| ==> Spine[i].val == Contents[i]) &&
      (forall i, j :: 0 <= i < j < |Spine| ==> Spine[i] != Spine[j])
    }

    constructor ()
      ensures Valid() && fresh(Repr)
      ensures Contents == [] && head == null && tail == null && length == 0
    {
      head := null;
      tail := null;
      length := 0;
      Contents := [];
      Spine := [];
      Repr := {this};
    }

    /** The first element; an empty queue raises ReferenceError. */
    function Peek(): (r: Result<T>)
      reads this, Repr
      requires Valid()
      ensures Contents == [] ==> r == Err(ReferenceError)
      ensures Contents != [] ==> r == Ok(Contents[0])
    {
      if head == null then Err(ReferenceError) else Ok(head.val)
    }

    function IsEmpty(): (b: bool)
      reads this, Repr
      requires Valid()
      ensures b <==> Contents == []
      ensures b <==> head == null
    {
      length == 0
    }

    /** Links a new node holding `v` after the tail. */
    method Add(v: T)
      requires Valid()
      modifies Repr
      ensures Valid() && fresh(Repr - old(Repr))
      ensures Contents == old(Contents) + [v]
      ensures length == old(length) + 1
      ensures fresh(tail) && tail.val == v
      ensures old(head) != null ==> head == old(head)
      ensures old(head) == null ==> head == tail
    {
      var node := new Node(v);
      if head == null {
        head := node;
      } else {
        tail.next := node;
      }
      tail := node;
      length := length + 1;
      Contents := Contents + [v];
      Spine := Spine + [node];
      Repr := Repr + {node};
    }

    /** Unlinks the head and returns its value; an empty queue raises ReferenceError and is left as it was. */
    method Remove() returns (r: Result<T>)
      requires Valid()
      modifies this
      ensures Valid() && Repr <= old(Repr)
      ensures old(Contents) == [] ==>
                r == Err(ReferenceError) && Contents == old(Contents) &&
                head == old(head) && tail == old(tail) && length == old(length)
      ensures old(Contents) != [] ==>
                r == Ok(old(Contents)[0]) && Contents == old(Contents)[1..] &&
                length == old(length) - 1
      ensures |old(Contents)| == 1 ==> head == null && tail == null
      ensures |old(Contents)| > 1 ==> head == old(head).next && tail == old(tail)
    {
      if head == null {
        return Err(ReferenceError);
      }
      if head == tail {
        tail := null;
      }
      var removed := head;
      head := head.next;
      length := length - 1;
      Contents := Contents[1..];
      Spine := Spine[1..];
      Repr := Repr - {removed};
      r := Ok(removed.val);
    }
  }

  /** Removes every element of `q` while it is not empty: they come out in insertion order. */
  method RemoveAll<T>(q: Queue<T>) returns (removed: seq<T>)
    requires q.Valid()
    modifies q
    ensures q.Valid() && q.Contents == []
    ensures removed == old(q.Contents)
  {
    removed := [];
    while !q.IsEmpty()
      invariant q.Valid() && q.Repr <= old(q.Repr)
      invariant |removed| <= |old(q.Contents)|
      invariant removed == old(q.Contents)[..|removed|] && q.Contents == old(q.Contents)[|removed|..]
      decreases |q.Contents|
    {
      var r := q.Remove();
      removed := removed + [r.value];
    }
  }

  /** Adds the elements of `xs` in order. */
  method AddAll<T>(q: Queue<T>, xs: seq<T>)
    requires q.Valid()
    modifies q.Repr
    ensures q.Valid() && fresh(q.Repr - old(q.Repr))
    ensures q.Contents == old(q.Contents) + xs
  {
    for i := 0 to |xs|
      invariant q.Valid() && fresh(q.Repr - old(q.Repr))
      invariant q.Contents == old(q.Contents) + xs[..i]
    {
      q.Add(xs[i]);
      assert xs[..i + 1] == xs[..i] + [xs[i]];
    }
  }

  /** Removes the first `k` elements of `q`: they come out in insertion order. */
  method RemoveFirst<T>(q: Queue<T>, k: nat) returns (first: seq<T>)
    requires q.Valid() && k <= |q.Contents|
    modifies q
    ensures q.Valid() && q.Repr <= old(q.Repr)
    ensures first == old(q.Contents)[..k] && q.Contents == old(q.Contents)[k..]
  {
    first := [];
    for i := 0 to k
      invariant q.Valid() && q.Repr <= old(q.Repr)
      invariant first == old(q.Contents)[..i] && q.Contents == old(q.Contents)[i..]
    {
      var r := q.Remove();
      assert r.value == old(q.Contents)[i];
      first := first + [r.value];
      assert old(q.Contents)[..i + 1] == first;
    }
  }

  /**
   * Adds `xs`, removes the first `k` of them, adds `ys`, then empties the
   * queue: every removal returns the oldest element still queued.
   */
  method InterleavedOperations<T>(xs: seq<T>, k: nat, ys: seq<T>) returns (first: seq<T>, rest: seq<T>)
    requires k <= |xs|
    ensures first == xs[..k]
    ensures rest == xs[k..] + ys
  {
    var q := new Queue<T>();
    AddAll(q, xs);
    first := RemoveFirst(q, k);
    AddAll(q, ys);
    assert q.Contents == xs[k..] + ys;
    rest := RemoveAll(q);
  }

  /**
   * Adds a, removes it, adds b and c, peeks b, removes b, adds d and e, then
   * removes c, d and e: every removal and the peek see the oldest element,
   * and the queue ends empty.
   */
  method MixedOperations<T>(a: T, b: T, c: T, d: T, e: T) returns (removed: seq<Result<T>>, peeked: Result<T>, empty: bool)
    ensures removed == [Ok(a), Ok(b), Ok(c), Ok(d), Ok(e)]
    ensures peeked == Ok(b)
    ensures empty
  {
    var q := new Queue<T>();
    q.Add(a);
    var r1 := q.Remove();
    q.Add(b);
    q.Add(c);
    assert q.Contents == [b, c];
    peeked := q.Peek();
    var r2 := q.Remove();
    q.Add(d);
    q.Add(e);
    assert q.Contents == [c, d, e];
    var r3 := q.Remove();
    var r4 := q.Remove();
    var r5 := q.Remove();
    removed := [r1, r2, r3, r4, r5];
    empty := q.IsEmpty();
  }
}
