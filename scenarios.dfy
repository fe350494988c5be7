/**
 * The unit tests and doc-tests of the three containers, replayed as client
 * sessions over the model, and two sessions that exercise the sharing of
 * the persistent list under `Drop`. Each session returns what the test
 * observes, and its postcondition is what the test expects.
 */
module Scenarios {
  import opened Options
  import LinkedNodes
  import Queue
  import Stack
  import ImmutableList
  import RcArena

  /** Pushes `vs` in order onto the back of `q`. */
  method PushQueue<T>(q: Queue.Queue<T>, vs: seq<T>)
    requires q.Valid()
    modifies q.Repr
    ensures q.Valid() && fresh(q.Repr - old(q.Repr))
    ensures q.Contents == old(q.Contents) + vs
  {
    ghost var start := q.Contents;
    var i := 0;
    while i < |vs|
      invariant 0 <= i <= |vs|
      invariant q.Valid() && fresh(q.Repr - old(q.Repr))
      invariant q.Contents == start + vs[..i]
    {
      ghost var before := q.Contents;
      q.Push(vs[i]);
      AppendedOneMore(vs, i, start, before, q.Contents);
      i := i + 1;
    }
    assert vs[..i] == vs;
  }

  /** The step of `PushQueue`'s loop, on the contents alone. */
  lemma AppendedOneMore<T>(vs: seq<T>, i: int, start: seq<T>, before: seq<T>, after: seq<T>)
    requires 0 <= i < |vs|
    requires before == start + vs[..i] && after == before + [vs[i]]
    ensures after == start + vs[..i + 1]
  {
    assert vs[..i + 1] == vs[..i] + [vs[i]];
  }

  /** Pops `n` values off the front of `q`, which holds at least `n`. */
  method PopQueue<T>(q: Queue.Queue<T>, n: nat) returns (popped: seq<T>)
    requires q.Valid() && n <= |q.Contents|
    modifies q
    ensures q.Valid() && q.Repr <= old(q.Repr)
    ensures popped == old(q.Contents)[..n] && q.Contents == old(q.Contents)[n..]
  {
    popped := [];
    var i := 0;
    while i < n
      invariant 0 <= i <= n
      invariant q.Valid() && q.Repr <= old(q.Repr)
      invariant popped == old(q.Contents)[..i] && q.Contents == old(q.Contents)[i..]
    {
      var r := q.Pop();
      popped := popped + [r.value];
      i := i + 1;
    }
  }

  /** Pops `n` values off the top of `st`, which holds at least `n`. */
  method PopStack<T>(st: Stack.Stack<T>, n: nat) returns (popped: seq<T>)
    requires st.Valid() && n <= |st.Contents|
    modifies st
    ensures st.Valid() && st.Repr <= old(st.Repr)
    ensures popped == old(st.Contents)[..n] && st.Contents == old(st.Contents)[n..]
  {
    popped := [];
    var i := 0;
    while i < n
      invariant 0 <= i <= n
      invariant st.Valid() && st.Repr <= old(st.Repr)
      invariant popped == old(st.Contents)[..i] && st.Contents == old(st.Contents)[i..]
    {
      var r := st.Pop();
      popped := popped + [r.value];
      i := i + 1;
    }
  }

  /**
   * The `basics` test of the queue: an empty pop, then pops interleaved
   * with pushes come out in insertion order, then the queue is exhausted.
   */
  method QueueBasics() returns (first: Option<int>, values: seq<int>, last: Option<int>)
    ensures first == None && values == [1, 2, 3, 4, 5] && last == None
  {
    var q := new Queue.Queue<int>();
    first := q.Pop();
    assert first == None && q.Contents == [];
    PushQueue(q, [1, 2, 3]);
    var front := PopQueue(q, 2);
    assert front == [1, 2] && q.Contents == [3];
    var rest;
    rest, last := RefillAndDrain(q);
    values := front + rest;
  }

  /** The `basics` test of the queue as one session of pushes and pops. */
  const BasicsOps: seq<Queue.Op<int>> := [
    Queue.Dequeue, Queue.Enqueue(1), Queue.Enqueue(2), Queue.Enqueue(3), Queue.Dequeue, Queue.Dequeue,
    Queue.Enqueue(4), Queue.Enqueue(5), Queue.Dequeue, Queue.Dequeue, Queue.Dequeue, Queue.Dequeue]

  /**
   * The `basics` test run through `Queue.Run`: the pops give 1 to 5 in
   * insertion order and leave the queue empty, so one more pop is None.
   */
  method QueueBasicsRun() returns (popped: seq<int>, last: Option<int>)
    ensures popped == [1, 2, 3, 4, 5] && last == None
  {
    var q := new Queue.Queue<int>();
    BasicsCounts();
    popped := q.Run(BasicsOps);
    assert q.Contents == [];
    assert popped == popped + q.Contents == Queue.Pushed(BasicsOps);
    last := q.Pop();
  }

  /**
   * The bookkeeping of the `basics` session: it pushes 1 to 5 and leaves
   * an empty queue empty.
   */
  lemma BasicsCounts()
    ensures Queue.Pushed(BasicsOps) == [1, 2, 3, 4, 5]
    ensures Queue.Left(0, BasicsOps) == 0
  {
    var ops := BasicsOps;
    assert ops[..0] == [];
    assert ops[..1][..0] == ops[..0];
    assert Queue.Pushed(ops[..1]) == [] && Queue.Left(0, ops[..1]) == 0;
    assert ops[..2][..1] == ops[..1];
    assert Queue.Pushed(ops[..2]) == [1] && Queue.Left(0, ops[..2]) == 1;
    assert ops[..3][..2] == ops[..2];
    assert Queue.Pushed(ops[..3]) == [1, 2] && Queue.Left(0, ops[..3]) == 2;
    assert ops[..4][..3] == ops[..3];
    assert Queue.Pushed(ops[..4]) == [1, 2, 3] && Queue.Left(0, ops[..4]) == 3;
    assert ops[..5][..4] == ops[..4];
    assert Queue.Pushed(ops[..5]) == [1, 2, 3] && Queue.Left(0, ops[..5]) == 2;
    assert ops[..6][..5] == ops[..5];
    assert Queue.Pushed(ops[..6]) == [1, 2, 3] && Queue.Left(0, ops[..6]) == 1;
    assert ops[..7][..6] == ops[..6];
    assert Queue.Pushed(ops[..7]) == [1, 2, 3, 4] && Queue.Left(0, ops[..7]) == 2;
    assert ops[..8][..7] == ops[..7];
    assert Queue.Pushed(ops[..8]) == [1, 2, 3, 4, 5] && Queue.Left(0, ops[..8]) == 3;
    assert ops[..9][..8] == ops[..8];
    assert Queue.Pushed(ops[..9]) == [1, 2, 3, 4, 5] && Queue.Left(0, ops[..9]) == 2;
    assert ops[..10][..9] == ops[..9];
    assert Queue.Pushed(ops[..10]) == [1, 2, 3, 4, 5] && Queue.Left(0, ops[..10]) == 1;
    assert ops[..11][..10] == ops[..10];
    assert Queue.Pushed(ops[..11]) == [1, 2, 3, 4, 5] && Queue.Left(0, ops[..11]) == 0;
    assert ops[..12][..11] == ops[..11];
    assert Queue.Pushed(ops[..12]) == [1, 2, 3, 4, 5] && Queue.Left(0, ops[..12]) == 0;
    assert ops[..12] == ops;
  }

  /**
   * The second half of the `basics` test: with 3 left in the queue, push
   * 4 and 5, then pop until the queue answers None.
   */
  method RefillAndDrain(q: Queue.Queue<int>) returns (rest: seq<int>, last: Option<int>)
    requires q.Valid() && q.Contents == [3]
    modifies q.Repr
    ensures rest == [3, 4, 5] && last == None
  {
    PushQueue(q, [4, 5]);
    assert q.Contents == [3, 4, 5];
    rest := PopQueue(q, 3);
    assert q.Contents == [];
    last := q.Pop();
  }

  /**
   * Emptying the queue resets `last`, so a later push starts a fresh chain
   * that a pop finds again.
   */
  method QueueRefill() returns (r: Option<int>)
    ensures r == Some(4)
  {
    var q := new Queue.Queue<int>();
    q.Push(1);
    q.Push(2);
    q.Push(3);
    r := q.Pop();
    r := q.Pop();
    r := q.Pop();
    q.Push(4);
    r := q.Pop();
  }

  /**
   * The doc-tests of `push` and `pop` of the queue (src/queue.rs:57-63,
   * 83-91): after pushing 5, a pop gives 5 and the next pop nothing.
   */
  method QueuePushPopDoc() returns (seen: seq<Option<int>>)
    ensures seen == [Some(5), None]
  {
    var q := new Queue.Queue<int>();
    q.Push(5);
    var first := q.Pop();
    var second := q.Pop();
    seen := [first, second];
  }

  /**
   * The doc-test of `peek` of the queue: after pushing 5, peek sees 5, a
   * pop takes it, and peek then sees nothing.
   */
  method QueuePeekDoc() returns (seen: seq<Option<int>>)
    ensures seen == [Some(5), Some(5), None]
  {
    var q := new Queue.Queue<int>();
    q.Push(5);
    var front := q.Peek();
    var popped := q.Pop();
    var after := q.Peek();
    seen := [front, popped, after];
  }

  /**
   * The doc-test of `peek_mut` of the queue: the reference shows 5, the
   * write through it multiplies by 5, the pop gives 25, and `peek_mut`
   * then finds nothing.
   */
  method QueuePeekMutDoc() returns (seen: seq<Option<int>>)
    ensures seen == [Some(5), Some(25), None]
  {
    var q := new Queue.Queue<int>();
    q.Push(5);
    var shown := q.PeekMut(v => v);
    assert shown == Some(5) && q.Contents == [5];
    var written := q.PeekMut(v => v * 5);
    assert q.Contents == [25];
    var popped := q.Pop();
    assert popped == Some(25);
    var after := q.PeekMut(v => v);
    seen := [shown, popped, after];
  }

  /**
   * The `peek` test of the queue, on the empty queue: neither `peek` nor
   * `peek_mut` finds a value.
   */
  method QueuePeekEmpty() returns (seen: Option<int>, shown: Option<int>)
    ensures seen == None && shown == None
  {
    var q := new Queue.Queue<int>();
    seen := q.Peek();
    shown := q.PeekMut(v => v);
  }

  /**
   * The `peek` test of the queue, after pushing 1, 2, 3: `peek` and
   * `peek_mut` show the front value 1; after 42 is written through
   * `peek_mut`, peek and pop see 42.
   */
  method QueuePeekFront() returns (seen: seq<Option<int>>)
    ensures seen == [Some(1), Some(1), Some(42), Some(42)]
  {
    var q := new Queue.Queue<int>();
    PushQueue(q, [1, 2, 3]);
    var front := q.Peek();
    assert front == Some(1);
    var shown := q.PeekMut(v => v);
    assert shown == Some(1) && q.Contents == [1, 2, 3];
    var before := q.PeekMut(v => 42);
    assert q.Contents == [42, 2, 3];
    var written := q.Peek();
    assert written == Some(42);
    var popped := q.Pop();
    assert popped == Some(42);
    seen := [front, shown, written, popped];
  }

  /**
   * The `iter` doc-test of the queue: the values front to back, and the
   * queue is not consumed.
   */
  method QueueIter() returns (s: seq<int>, front: Option<int>)
    ensures s == [1, 2, 3] && front == Some(1)
  {
    var q := new Queue.Queue<int>();
    q.Push(1);
    q.Push(2);
    q.Push(3);
    s := q.Elements();
    front := q.Peek();
  }

  /** The `iter_mut` doc-test of the queue: doubling in place, then 2, 4, 6. */
  method QueueIterMut() returns (popped: seq<int>)
    ensures popped == [2, 4, 6]
  {
    var q := new Queue.Queue<int>();
    PushQueue(q, [1, 2, 3]);
    q.MapInPlace(v => v * 2);
    assert q.Contents == [2, 4, 6];
    popped := PopQueue(q, 3);
  }

  /** The `iter` test of the queue: the cursor yields 1, 2, 3, then nothing. */
  method QueueIterSteps() returns (seen: seq<Option<int>>)
    ensures seen == [Some(1), Some(2), Some(3), None]
  {
    var q := new Queue.Queue<int>();
    PushQueue(q, [1, 2, 3]);
    var it := q.Iter();
    var a := it.Next();
    var b := it.Next();
    var c := it.Next();
    var d := it.Next();
    seen := [a, b, c, d];
  }

  /**
   * The `iter_mut` test of the queue: the mutable cursor hands out the
   * slots holding 1, 2, 3, then nothing.
   */
  method QueueIterMutSteps() returns (seen: seq<Option<int>>)
    ensures seen == [Some(1), Some(2), Some(3), None]
  {
    var q := new Queue.Queue<int>();
    PushQueue(q, [1, 2, 3]);
    var it := q.IterMut();
    var a := it.Next();
    var b := it.Next();
    var c := it.Next();
    var d := it.Next();
    seen := [Shown(a), Shown(b), Shown(c), Shown(d)];
  }

  /** What a slot handed out by a mutable cursor shows: its value, if any. */
  function Shown(slot: LinkedNodes.Node?<int>): (r: Option<int>)
    reads slot
    ensures r.None? <==> slot == null
  {
    if slot == null then None else Some(slot.value)
  }

  /** The `into_iter` test of the queue: 1, 2, 3 in insertion order. */
  method QueueIntoIter() returns (s: seq<int>, end: Option<int>)
    ensures s == [1, 2, 3] && end == None
  {
    var q := new Queue.Queue<int>();
    PushQueue(q, [1, 2, 3]);
    var it := new Queue.IntoIter(q);
    s := it.Collect();
    end := it.Next();
  }

  /**
   * The `into_iter` test of the stack: 3, 2, 1, the reverse of the pushes,
   * and then nothing.
   */
  method StackIntoIter() returns (s: seq<int>, end: Option<int>)
    ensures s == [3, 2, 1] && end == None
  {
    var st := new Stack.Stack<int>();
    st.PushAll([1, 2, 3]);
    var it := new Stack.IntoIter(st);
    s := it.Collect();
    end := it.Next();
  }

  /**
   * The `pops_empty` and `pops` tests of the stack: None on an empty stack,
   * and a push followed by a pop gives the value back and the stack as it
   * was.
   */
  method StackPops() returns (popped: seq<Option<int>>, emptyAgain: bool)
    ensures popped == [None, Some(5)] && emptyAgain
  {
    var st := new Stack.Stack<int>();
    var r := st.Pop();
    popped := [r];
    st.Push(5);
    r := st.Pop();
    popped := popped + [r];
    emptyAgain := st.head == null;
  }

  /**
   * The `creates_an_empty_list` and `pushes_element` tests of the stack:
   * a new stack has no top; after pushing 5, the top is 5.
   */
  method StackNewAndPush() returns (empty: Option<int>, pushed: Option<int>)
    ensures empty == None && pushed == Some(5)
  {
    var st := new Stack.Stack<int>();
    empty := st.Peek();
    st.Push(5);
    pushed := st.Peek();
  }

  /**
   * The doc-tests of `push` and `pop` of the stack (src/stack.rs:40-47,
   * 61-69): after pushing 5, a pop gives 5 and the next pop nothing.
   */
  method StackPushPopDoc() returns (seen: seq<Option<int>>)
    ensures seen == [Some(5), None]
  {
    var st := new Stack.Stack<int>();
    st.Push(5);
    var first := st.Pop();
    var second := st.Pop();
    seen := [first, second];
  }

  /**
   * The doc-test of `peek` of the stack: after pushing 5, peek sees 5, a
   * pop takes it, and peek then sees nothing.
   */
  method StackPeekDoc() returns (seen: seq<Option<int>>)
    ensures seen == [Some(5), Some(5), None]
  {
    var st := new Stack.Stack<int>();
    st.Push(5);
    var top := st.Peek();
    var popped := st.Pop();
    var after := st.Peek();
    seen := [top, popped, after];
  }

  /**
   * The doc-test of `peek_mut` of the stack: the reference shows 5, the
   * write through it multiplies by 5, the pop gives 25, and `peek_mut`
   * then finds nothing.
   */
  method StackPeekMutDoc() returns (seen: seq<Option<int>>)
    ensures seen == [Some(5), Some(25), None]
  {
    var st := new Stack.Stack<int>();
    st.Push(5);
    var shown := st.PeekMut(v => v);
    assert shown == Some(5) && st.Contents == [5];
    var written := st.PeekMut(v => v * 5);
    assert st.Contents == [25];
    var popped := st.Pop();
    assert popped == Some(25);
    var after := st.PeekMut(v => v);
    seen := [shown, popped, after];
  }

  /**
   * The `peek` test of the stack, on the empty stack: neither `peek` nor
   * `peek_mut` finds a value.
   */
  method StackPeekEmpty() returns (seen: Option<int>, shown: Option<int>)
    ensures seen == None && shown == None
  {
    var st := new Stack.Stack<int>();
    seen := st.Peek();
    shown := st.PeekMut(v => v);
  }

  /**
   * The `peek` test of the stack, after pushing 1, 2, 3: `peek` and
   * `peek_mut` show the top value 3; after 42 is written through
   * `peek_mut`, peek and pop see 42.
   */
  method StackPeekTop() returns (seen: seq<Option<int>>)
    ensures seen == [Some(3), Some(3), Some(42), Some(42)]
  {
    var st := new Stack.Stack<int>();
    st.PushAll([1, 2, 3]);
    assert st.Contents == [3, 2, 1];
    var top := st.Peek();
    assert top == Some(3);
    var shown := st.PeekMut(v => v);
    assert shown == Some(3) && st.Contents == [3, 2, 1];
    var before := st.PeekMut(v => 42);
    assert st.Contents == [42, 2, 1];
    var written := st.Peek();
    assert written == Some(42);
    var popped := st.Pop();
    assert popped == Some(42);
    seen := [top, shown, written, popped];
  }

  /**
   * The `iter` doc-test of the stack: the values top to bottom, and the
   * stack is not consumed.
   */
  method StackIter() returns (s: seq<int>, top: Option<int>)
    ensures s == [3, 2, 1] && top == Some(3)
  {
    var st := new Stack.Stack<int>();
    st.PushAll([1, 2, 3]);
    s := st.Elements();
    top := st.Peek();
  }

  /** The `iter_mut` doc-test of the stack: doubling in place, then 6, 4, 2. */
  method StackIterMut() returns (popped: seq<int>)
    ensures popped == [6, 4, 2]
  {
    var st := new Stack.Stack<int>();
    st.PushAll([1, 2, 3]);
    assert st.Contents == [3, 2, 1];
    st.MapInPlace(v => v * 2);
    assert st.Contents == [6, 4, 2];
    popped := PopStack(st, 3);
  }

  /** The `iter` test of the stack: the cursor yields 3, 2, 1. */
  method StackIterSteps() returns (seen: seq<Option<int>>)
    ensures seen == [Some(3), Some(2), Some(1)]
  {
    var st := new Stack.Stack<int>();
    st.PushAll([1, 2, 3]);
    assert st.Contents == [3, 2, 1];
    var it := st.Iter();
    var a := it.Next();
    var b := it.Next();
    var c := it.Next();
    seen := [a, b, c];
  }

  /**
   * The `iter_mut` test of the stack: the mutable cursor hands out the
   * slots holding 3, 2, 1.
   */
  method StackIterMutSteps() returns (seen: seq<Option<int>>)
    ensures seen == [Some(3), Some(2), Some(1)]
  {
    var st := new Stack.Stack<int>();
    st.PushAll([1, 2, 3]);
    assert st.Contents == [3, 2, 1];
    var it := st.IterMut();
    var a := it.Next();
    var b := it.Next();
    var c := it.Next();
    seen := [Shown(a), Shown(b), Shown(c)];
  }

  /**
   * The `creates_an_empty_list` and `pushes_element` tests of the
   * persistent list: `new()` has no head; after pushing 5, the head is 5.
   */
  method ListNewAndPush() returns (empty: Option<int>, pushed: Option<int>)
    ensures empty == None && pushed == Some(5)
  {
    var l := ImmutableList.New<int>();
    empty := ImmutableList.Head(l);
    l := ImmutableList.Push(l, 5);
    pushed := ImmutableList.Head(l);
  }

  /**
   * The `iter` test of the persistent list: for the list built by pushing
   * 1, 2, 3, the cursor yields 3, 2, 1, then nothing.
   */
  method ListIterSteps() returns (seen: seq<Option<int>>)
    ensures seen == [Some(3), Some(2), Some(1), None]
  {
    var l := ImmutableList.Push(ImmutableList.Push(ImmutableList.Push(ImmutableList.New<int>(), 1), 2), 3);
    var it := new ImmutableList.Iter(l);
    var a := it.Next();
    var b := it.Next();
    var c := it.Next();
    var d := it.Next();
    seen := [a, b, c, d];
  }

  /**
   * The `tail` test of the persistent list: after pushing 1, 2, 3, repeated
   * `tail` exposes 3, 2, 1 and then nothing, also past the end.
   */
  method ListTails() returns (heads: seq<Option<int>>)
    ensures heads == [None, Some(3), Some(2), Some(1), None, None]
  {
    var l := ImmutableList.New<int>();
    heads := [ImmutableList.Head(l)];
    l := ImmutableList.Push(ImmutableList.Push(ImmutableList.Push(l, 1), 2), 3);
    heads := heads + [ImmutableList.Head(l)];
    l := ImmutableList.Tail(l);
    heads := heads + [ImmutableList.Head(l)];
    l := ImmutableList.Tail(l);
    heads := heads + [ImmutableList.Head(l)];
    l := ImmutableList.Tail(l);
    heads := heads + [ImmutableList.Head(l)];
    l := ImmutableList.Tail(l);
    heads := heads + [ImmutableList.Head(l)];
  }

  /**
   * After `List::new().push(1).push(2).push(3)`, take a second handle on
   * the list's `tail`: the node holding 2 gains a reference, and the new
   * handle denotes 2, 1.
   */
  method BuildShared() returns (arena: RcArena.Arena<int>, three: RcArena.Link, tail: RcArena.Link)
    ensures fresh(arena) && arena.Valid()
    ensures three == RcArena.Ptr(2) && tail == RcArena.Ptr(1)
    ensures arena.handles == multiset{three, tail}
    ensures arena.cells == [RcArena.Cell(1, RcArena.Null, 1), RcArena.Cell(2, RcArena.Ptr(0), 2), RcArena.Cell(3, RcArena.Ptr(1), 1)]
    ensures RcArena.Abstract(arena.cells, tail) == ImmutableList.Cons(2, ImmutableList.Cons(1, ImmutableList.Nil))
  {
    arena, three := BuildOneTwoThree();
    tail := arena.Tail(three);
  }

  /** The cells right after the pushes of 1, 2, 3: counts 2, 2, 1. */
  const Pushed123: seq<RcArena.Cell<int>> :=
    [RcArena.Cell(1, RcArena.Null, 2), RcArena.Cell(2, RcArena.Ptr(0), 2), RcArena.Cell(3, RcArena.Ptr(1), 1)]

  /** The cells once the `push(2)` temporary is dropped: counts 2, 1, 1. */
  const TwoDropped: seq<RcArena.Cell<int>> :=
    [RcArena.Cell(1, RcArena.Null, 2), RcArena.Cell(2, RcArena.Ptr(0), 1), RcArena.Cell(3, RcArena.Ptr(1), 1)]

  /** The cells once the `push(1)` temporary is dropped too: counts 1, 1, 1. */
  const Built123: seq<RcArena.Cell<int>> :=
    [RcArena.Cell(1, RcArena.Null, 1), RcArena.Cell(2, RcArena.Ptr(0), 1), RcArena.Cell(3, RcArena.Ptr(1), 1)]

  /**
   * The statement `let list = List::new().push(1).push(2).push(3);` of the
   * `iter` test: once the pushes are done, the temporaries `push(2)`,
   * `push(1)` and `new()` are dropped, newest first. Each of those drops
   * finds its node also held by the next node, so it only lowers the
   * count. One handle is left, and every count is 1.
   */
  method BuildOneTwoThree() returns (arena: RcArena.Arena<int>, three: RcArena.Link)
    ensures fresh(arena) && arena.Valid() && arena.handles == multiset{three}
    ensures three == RcArena.Ptr(2)
    ensures arena.cells == Built123
  {
    var empty, one, two;
    arena, empty, one, two, three := PushOneTwoThree();
    TemporariesDropped();
    DropShared(arena, two, TwoDropped);
    DropShared(arena, one, Built123);
    DropNull(arena, empty);
  }

  /**
   * The bookkeeping of `BuildOneTwoThree`, on values alone: lowering the
   * count of the node holding 2, then of the node holding 1, leaves every
   * count at 1, and of the four handles only the last is left.
   */
  lemma TemporariesDropped()
    ensures TwoDropped == Pushed123[1 := Pushed123[1].(count := Pushed123[1].count - 1)]
    ensures Built123 == TwoDropped[0 := TwoDropped[0].(count := TwoDropped[0].count - 1)]
    ensures multiset{RcArena.Null, RcArena.Ptr(0), RcArena.Ptr(1), RcArena.Ptr(2)}
      - multiset{RcArena.Ptr(1)} - multiset{RcArena.Ptr(0)} - multiset{RcArena.Null} == multiset{RcArena.Ptr(2)}
  {
  }

  /**
   * `Drop` of a handle on a node that another reference also holds: the
   * first `try_unwrap` fails, so only that node's count falls by one, to
   * give `after`.
   */
  method DropShared(arena: RcArena.Arena<int>, l: RcArena.Link, ghost after: seq<RcArena.Cell<int>>)
    requires arena.Valid() && l in arena.handles
    requires l.Ptr? && l.addr < |arena.cells| && arena.cells[l.addr].count > 1
    requires after == arena.cells[l.addr := arena.cells[l.addr].(count := arena.cells[l.addr].count - 1)]
    modifies arena
    ensures arena.Valid() && arena.handles == old(arena.handles) - multiset{l}
    ensures arena.cells == after
  {
    arena.Drop(l);
  }

  /** `Drop` of a handle on nothing: the loop never runs. */
  method DropNull(arena: RcArena.Arena<int>, l: RcArena.Link)
    requires arena.Valid() && l in arena.handles && l.Null?
    modifies arena
    ensures arena.Valid() && arena.handles == old(arena.handles) - multiset{l}
    ensures arena.cells == old(arena.cells)
  {
    arena.Drop(l);
  }

  /**
   * The pushes of `List::new().push(1).push(2).push(3)`, while every
   * intermediate handle is still held, as it is until the statement ends.
   */
  method PushOneTwoThree() returns (arena: RcArena.Arena<int>, empty: RcArena.Link, one: RcArena.Link, two: RcArena.Link, three: RcArena.Link)
    ensures fresh(arena) && arena.Valid()
    ensures empty == RcArena.Null && one == RcArena.Ptr(0) && two == RcArena.Ptr(1) && three == RcArena.Ptr(2)
    ensures arena.handles == multiset{RcArena.Null, RcArena.Ptr(0), RcArena.Ptr(1), RcArena.Ptr(2)}
    ensures arena.cells == Pushed123
  {
    arena, empty, one := PushOne();
    two := arena.Push(one, 2);
    three := arena.Push(two, 3);
  }

  /** The first step of `PushOneTwoThree`: `List::new().push(1)`, both handles held. */
  method PushOne() returns (arena: RcArena.Arena<int>, empty: RcArena.Link, one: RcArena.Link)
    ensures fresh(arena) && arena.Valid()
    ensures empty == RcArena.Null && one == RcArena.Ptr(0)
    ensures arena.handles == multiset{RcArena.Null, RcArena.Ptr(0)}
    ensures arena.cells == [RcArena.Cell(1, RcArena.Null, 1)]
  {
    arena := new RcArena.Arena<int>();
    empty := arena.New();
    one := arena.Push(empty, 1);
  }

  /**
   * Sharing under `Drop`: build 3, 2, 1, take its `tail`, then drop the
   * whole list. Only the node holding 3 is freed; the node holding 2 is
   * shared with the tail handle, so it only loses a reference, and the tail
   * still denotes 2, 1.
   */
  method ListSharedDrop() returns (counts: seq<nat>, rest: ImmutableList.List<int>)
    ensures counts == [1, 1, 0]
    ensures rest == ImmutableList.Cons(2, ImmutableList.Cons(1, ImmutableList.Nil))
  {
    var arena, three, tail := BuildShared();
    arena.Drop(three);
    assert arena.cells == [RcArena.Cell(1, RcArena.Null, 1), RcArena.Cell(2, RcArena.Ptr(0), 1), RcArena.Cell(3, RcArena.Ptr(1), 0)];
    counts := [arena.cells[0].count, arena.cells[1].count, arena.cells[2].count];
    rest := RcArena.Abstract(arena.cells, tail);
  }
}
