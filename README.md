# Three containers, modelled and verified in Dafny

This project models the three container classes of a small Python data-structures repository and proves their behaviour against abstract sequences.

- **`MyList`** (module `GrowableList`, `my_list.dfy`) is a growable array. It sits on a raw buffer of exactly `capacity` slots. `size` counts the elements in use. Appending to a full buffer doubles it. `pop` clears the freed slot, then halves the buffer once at most a quarter of it is in use. Indexing accepts Python-style negative indices.
- **`Queue`** (module `LinkedQueue`, `queue.dfy`) is a FIFO queue over a singly linked list of `Node`s. It keeps `head` and `tail` pointers and a `length` counter.
- **`Stack`** (module `ListStack`, `stack.dfy`) is a LIFO stack that appends to and pops from a list. In Dafny the list is a `seq` field.
- Module `Errors` (`errors.dfy`) turns the Python exceptions into values. `IndexError` carries either the rejected index or "pop from empty". `ReferenceError` stands for the empty-queue error. Methods that may raise return a `Result`.

`MyList` and `Queue` follow the usual dynamic-frames pattern:

- a ghost `Contents: seq<T>` is the abstract value;
- a ghost `Repr` holds the objects the class uses;
- `Valid()` ties these to the concrete fields.

`Stack` needs none of this: its `elements` sequence is its own abstract value. `Node` is a plain record of a value and a successor.

For `MyList`, `Valid()` has two parts.

`Consistent()` covers the buffer:
- `buf.Length == capacity`, `1 <= capacity` and `size <= capacity`;
- slot `i < size` holds `Contents[i]`;
- every slot from `size` on is `Vacant`, so no stale reference is kept.

`CapacityInvariant` covers the sizing policy:
- the capacity is a power of two;
- once the capacity is above 1, more than a quarter of the buffer is in use.

The source never writes these two facts down, but its grow and shrink rules keep them. The lemmas below prove that they do.

For `Queue`, the ghost `Spine: seq<Node<T>>` lists the nodes from head to tail. `Valid()` requires:
- consecutive nodes are linked, and the nodes are distinct;
- `head` is the first node and `tail` is the last, whose `next` is null;
- `head` and `tail` are both null exactly when the spine is empty;
- `length == |Spine|`;
- `Contents` is the nodes' values in spine order.

Small client methods at the end of each module restate scenarios of the repository's unit tests. Each one returns what it observes, and its `ensures` gives the values the test checks. Each is proved from the classes' contracts alone:
- `GrowableList.PopUntilEmpty`, `GrowableList.OneElementIndexing`, `GrowableList.AppendThenRead`, `GrowableList.AppendThenPopHalf` and `GrowableList.GrowThenShrink`;
- `LinkedQueue.MixedOperations`, `LinkedQueue.InterleavedOperations`, `LinkedQueue.RemoveFirst` and `LinkedQueue.RemoveAll`;
- `ListStack.MixedOperations`, `ListStack.AddThenRemove` and `ListStack.RemoveAll`.

The test with 100 appends and 50 pops is stated for any `n` appends followed by `n / 2` pops. The capacity test is stated the same way, for any `n`.

Some helpers stand for the tests' loops. Each has its own contract:
- `GrowableList.AppendAll` and `LinkedQueue.AddAll` stand for `for … append`/`add`. The contents become the old contents followed by the given values, in order.
- `GrowableList.AppendRange` builds a fresh list holding 0 to n - 1.
- `GrowableList.ReadForward` reads every position from the front. `GrowableList.ReadBackward` reads every position from the back, with negative indices.
- `GrowableList.PopTimes` pops a given number of elements.

## Model

| member | source | states |
|---|---|---|
| `GrowableList.NormalizeIndex` | src/list/list_implemented_without_list.py:17-22 | the normalised position is in `[0, size)` exactly when `-size <= index < size`, and then it equals `index` modulo `size` |
| `GrowableList.CapacityAfterAppend` | src/list/list_implemented_without_list.py:28-29 | the growth rule keeps the capacity or doubles it, and always leaves room for one more element in a list that fits its buffer |
| `GrowableList.CapacityAfterPop` | src/list/list_implemented_without_list.py:64-65 | the shrink rule keeps the capacity or halves it, never goes below one slot or above the old capacity, and never below the size |
| `GrowableList.MyList.constructor` | src/list/list_implemented_without_list.py:5-8 | a new list is valid, has no elements, size 0, capacity 1 and a buffer of exactly one slot |
| `GrowableList.MyList.Length` | src/list/list_implemented_without_list.py:13-14 | the result is the number of elements in the list |
| `GrowableList.MyList.Get` | src/list/list_implemented_without_list.py:16-25 | succeeds exactly when `-size <= index < size`; a non-negative index gives element `index`, `-k` gives element `size - k`; otherwise IndexError carries the index as given; reads change nothing |
| `GrowableList.MyList.Append` | src/list/list_implemented_without_list.py:27-32 | the contents become the old contents plus `v`; the capacity doubles when the buffer was full and stays otherwise (same buffer); the invariant is kept |
| `GrowableList.MyList.Pop` | src/list/list_implemented_without_list.py:34-45 | on an empty list: IndexError, nothing changes; otherwise returns the old last element, drops it from the contents, leaves its slot vacant, and halves the capacity exactly when the capacity was above 1 and the new size is at most a quarter of it |
| `GrowableList.MyList.Resize` | src/list/list_implemented_without_list.py:50-57 | the elements are copied in order into a fresh buffer of the requested capacity; the contents and size are unchanged and the slots after them are vacant |
| `GrowableList.MyList.Shrink` | src/list/list_implemented_without_list.py:59-65 | the capacity becomes half when it is above 1 and at most a quarter of it is in use, and stays (same buffer) otherwise; the contents are unchanged |
| `GrowableList.AppendKeepsInvariant` | src/list/list_implemented_without_list.py:28-32 | from any state satisfying the sizing invariant, the capacity chosen by append leaves room for the new element and the invariant holds for the grown list |
| `GrowableList.PopKeepsInvariant` | src/list/list_implemented_without_list.py:59-65 | after a pop the shrink rule keeps the sizing invariant (never below one slot, never below the size, a power of two), and capacity never grows |
| `GrowableList.GrowThenPopKeepsCapacity` | src/list/list_implemented_without_list.py:64-65 | popping the element whose append doubled the buffer does not shrink it back (no thrashing at the growth boundary) |
| `GrowableList.ShrinkThenAppendKeepsCapacity` | src/list/list_implemented_without_list.py:28-29 | appending right after a pop that halved the buffer does not grow it again (no thrashing at the shrink boundary) |
| `GrowableList.GrowthAtLeastDoubles` | src/list/list_implemented_without_list.py:28-29 | once a list holds more elements than an earlier capacity, its capacity is at least twice that capacity |
| `GrowableList.PopUntilEmpty` | src/tests/list/test_list.py:71-84 | after appending 0, 1 and 2, three pops return 2, 1 and 0, the length is 0, and a fourth pop raises IndexError |
| `GrowableList.OneElementIndexing` | src/tests/list/test_list.py:86-100 | on a one-element list, indices 0 and -1 give the element and indices 1 and -2 raise IndexError carrying that index |
| `GrowableList.AppendRange` | src/tests/list/test_list.py:104-108 | `n` appends of 0, 1, … to a fresh list leave a valid list whose element `j` is `j`, for every `j < n` |
| `GrowableList.ReadForward` | src/tests/list/test_list.py:111-112 | reading indices 0, 1, … of a list returns every element, in order, each as a success |
| `GrowableList.ReadBackward` | src/tests/list/test_list.py:115-116 | reading indices -1, -2, … of a list returns every element from the last one backwards, each as a success |
| `GrowableList.PopTimes` | src/tests/list/test_list.py:119-120 | `m` pops on a list of at least `m` elements return its last `m` elements from the end backwards and leave the rest in order |
| `GrowableList.AppendThenRead` | src/tests/list/test_list.py:102-116 | after appending 0 to n - 1 to a fresh list, index `i` reads `i` for every `i < n`, and index `-k` reads `n - k` for every `1 <= k <= n` |
| `GrowableList.AppendThenPopHalf` | src/tests/list/test_list.py:102-129 | after appending 0 to n - 1, the next n / 2 pops return n - 1, n - 2, … in turn; the length is then n - n / 2, every remaining position j reads j, and index -1 reads the last remaining value |
| `GrowableList.GrowThenShrink` | src/tests/list/test_list.py:143-167 | after `n` appends to a fresh list the capacity is at least `n`; after `n / 2` pops the length is `n - n / 2` and the capacity is at least the length |
| `LinkedQueue.Node.constructor` | src/queue/queue_implemented_with_linked_list.py:2-4 | a node holds the given value and successor, which defaults to null |
| `LinkedQueue.Queue.constructor` | src/queue/queue_implemented_with_linked_list.py:11-15 | a new queue is valid and empty, with null head and tail and length 0 |
| `LinkedQueue.Queue.Peek` | src/queue/queue_implemented_with_linked_list.py:29-33 | an empty queue raises ReferenceError; otherwise the first element is returned; nothing changes |
| `LinkedQueue.Queue.IsEmpty` | src/queue/queue_implemented_with_linked_list.py:60-61 | the length-counter test holds exactly when the queue has no elements, and exactly when `head` is null (the test used by peek and remove) |
| `LinkedQueue.Queue.Add` | src/queue/queue_implemented_with_linked_list.py:35-44 | the contents become the old contents plus `v`; the tail is the new node; the length grows by one; the head stays unless the queue was empty, in which case head and tail are the new node |
| `LinkedQueue.Queue.Remove` | src/queue/queue_implemented_with_linked_list.py:46-58 | an empty queue raises ReferenceError and nothing changes; otherwise returns the first element, drops it from the contents, decrements the length, and clears both head and tail when the last node leaves |
| `LinkedQueue.RemoveAll` | src/tests/queue/test_queue.py:195-198 | removing until the queue is empty returns its contents in insertion order |
| `LinkedQueue.RemoveFirst` | src/tests/queue/test_queue.py:187-188 | removing `k` elements returns the first `k` in insertion order and leaves the rest queued |
| `LinkedQueue.InterleavedOperations` | src/tests/queue/test_queue.py:178-198 | adding `xs` and removing `k` elements returns `xs[..k]`; then adding `ys` and draining returns exactly `xs[k..] + ys`, in that order |
| `LinkedQueue.MixedOperations` | src/tests/queue/test_queue.py:69-89 | the interleaved adds, peek and removes of that test return a, b, c, d, e in order, the peek sees b, and the queue ends empty |
| `ListStack.Stack.constructor` | src/stack/stack_implemented_with_list.py:2-3 | a new stack is empty |
| `ListStack.Stack.Add` | src/stack/stack_implemented_with_list.py:8-9 | the contents become the old contents plus `v` |
| `ListStack.Stack.Remove` | src/stack/stack_implemented_with_list.py:11-12 | an empty stack raises IndexError and nothing changes; otherwise the last element pushed is returned and removed |
| `ListStack.AddThenRemove` | src/tests/stack/test_stack.py:32-43 | pushing `v` and popping returns `v` and restores the previous contents |
| `ListStack.MixedOperations` | src/tests/stack/test_stack.py:26-43 | pushing x and y, popping, pushing z and popping twice returns y, z, x; a further pop on the empty stack raises IndexError |
| `ListStack.RemoveAll` | src/tests/stack/test_stack.py:56-66 | popping until empty returns the elements in the reverse of push order |

## Left out

- `__repr__` of all three classes and of `Node` is not modelled. These methods render arbitrary Python objects with `str`/`repr`, and this model has no model of those.
- `MyList.__create` is not a separate member. The `ctypes.py_object` allocation is a foreign call, so the model writes it inline as a fresh Dafny array of `Vacant` slots. `Vacant` stands both for the NULL slots of a new buffer and for the `None` that `pop` writes.
- Python's dynamic typing is not modelled. Elements of mixed types become a generic `T`. A non-integer index, which would raise `TypeError` in Python, cannot be expressed.
- Python integers are unbounded, and so are Dafny's. No width or wrap-around is modelled, because none exists in the source.
- Timing and amortised cost are not modelled. This covers the queue's wall-clock test and the constant-time-append claim. Both are about performance, not results.
- Node identity inside the queue is modelled through the ghost spine. The model does not say that a removed node keeps its `next` pointer, because nothing reads it.
