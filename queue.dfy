/**
 * The FIFO queue of src/queue.rs: an owning `head` pointer to a chain of
 * heap nodes and a non-owning `last` pointer to its final node, so that
 * `push` appends in constant time. The ghost fields give the public view:
 * `Contents` front to back, `Nodes` the chain itself, `Repr` the objects
 * the queue owns.
 */
module Queue {
  import opened Options
  import opened LinkedNodes

  /** One step of a client's session with a queue. */
  datatype Op<T> = Enqueue(value: T) | Dequeue

  /** The values a session pushes, in the order it pushes them. */
  function Pushed<T>(ops: seq<Op<T>>): (r: seq<T>)
    ensures |r| <= |ops|
  {
    if ops == [] then []
    else Pushed(ops[..|ops| - 1]) + (match ops[|ops| - 1] case Enqueue(v) => [v] case Dequeue => [])
  }

  /**
   * How many values a queue holding `n` holds after the session: each
   * enqueue adds one, each dequeue removes one unless the queue is empty.
   */
  function Left<T>(n: nat, ops: seq<Op<T>>): (r: nat)
    ensures r <= n + |Pushed(ops)|
  {
    if ops == [] then n
    else
      var m := Left(n, ops[..|ops| - 1]);
      match ops[|ops| - 1]
      case Enqueue(_) => m + 1
      case Dequeue => if m == 0 then 0 else m - 1
  }

  class Queue<T> {
    var head: Node?<T>
    var last: Node?<T>
    ghost var Contents: seq<T>
    ghost var Nodes: seq<Node<T>>
    ghost var Repr: set<object>

    /**
     * The queue invariant: the queue owns exactly its chain, `head` is its
     * first node and `last` its final one; so `head` is null exactly when
     * `last` is, and `last` links to nothing.
     */
    ghost predicate Valid()
      reads this, Repr
      ensures Valid() ==> this in Repr
      ensures Valid() ==> (head == null <==> last == null) && (head == null <==> Contents == [])
      ensures Valid() && last != null ==> last.next == null
    {
      && this in Repr
      && Repr == {this} + NodeSet(Nodes)
      && Chain(Nodes, Contents)
      && head == First(Nodes)
      && last == Last(Nodes)
    }

    /** `Queue::new` (src/queue.rs:47-52): both pointers null. */
    constructor ()
      ensures Valid() && fresh(Repr)
      ensures Contents == [] && head == null && last == null
    {
      head := null;
      last := null;
      Contents := [];
      Nodes := [];
      Repr := {this};
    }

    /**
     * `push` (src/queue.rs:65-77): the new node is linked after `last`, or
     * becomes `head` when the queue is empty, and is the new `last`.
     */
    method Push(value: T)
      requires Valid()
      modifies Repr
      ensures Valid() && fresh(Repr - old(Repr))
      ensures Contents == old(Contents) + [value]
      ensures last != null && fresh(last) && last.value == value
      ensures old(Contents) == [] ==> head == last
      ensures old(Contents) != [] ==> head == old(head)
    {
      var newLast := new Node(value, null);
      if last == null {
        head := newLast;
      } else {
        last.next := newLast;
      }
      last := newLast;
      Nodes := Nodes + [newLast];
      Contents := Contents + [value];
      Repr := Repr + {newLast};
    }

    /**
     * `pop` (src/queue.rs:92-105): detaches and frees `head`; when that
     * empties the chain, `last` is reset to null as well.
     */
    method Pop() returns (r: Option<T>)
      requires Valid()
      modifies this
      ensures Valid() && Repr <= old(Repr)
      ensures old(Contents) == [] ==> r == None && Contents == []
      ensures old(Contents) != [] ==>
        && r == Some(old(Contents)[0])
        && Contents == old(Contents)[1..]
        && old(head) !in Repr
      ensures Contents == [] ==> head == null && last == null
    {
      if head == null {
        r := None;
      } else {
        var node := head;
        head := node.next;
        if head == null {
          last := null;
        }
        r := Some(node.value);
        AllDistinct(Nodes);
        Nodes := Nodes[1..];
        Contents := Contents[1..];
        Repr := {this} + NodeSet(Nodes);
      }
    }

    /** `peek` (src/queue.rs:121-123): the front value, if any. */
    method Peek() returns (r: Option<T>)
      requires Valid()
      ensures Contents == [] ==> r == None
      ensures Contents != [] ==> r == Some(Contents[0])
    {
      if head == null {
        r := None;
      } else {
        r := Some(head.value);
      }
    }

    /**
     * `peek_mut` (src/queue.rs:140-142) together with what the caller does
     * through the reference it returns: `r` is the value the reference shows
     * (None when there is no front value), and `write` is everything the
     * caller writes through it while the borrow lives, composed into one
     * function; it gives the new front value (the identity when the caller
     * only reads). Only the front element changes.
     */
    method PeekMut(write: T -> T) returns (r: Option<T>)
      requires Valid()
      modifies Repr
      ensures Valid() && Repr == old(Repr) && Nodes == old(Nodes)
      ensures old(Contents) == [] ==> r == None && Contents == old(Contents)
      ensures old(Contents) != [] ==>
        && r == Some(old(Contents)[0])
        && Contents == old(Contents)[0 := write(old(Contents)[0])]
    {
      if head == null {
        r := None;
      } else {
        AllDistinct(Nodes);
        r := Some(head.value);
        head.value := write(head.value);
        Contents := Contents[0 := head.value];
      }
    }

    /** `iter` (src/queue.rs:244-246): a read-only cursor at `head`. */
    method Iter() returns (it: Iter<T>)
      requires Valid()
      ensures fresh(it) && it.Valid()
      ensures it.Remaining == Contents && it.Nodes == Nodes
    {
      it := new Iter(head, Nodes, Contents);
    }

    /**
     * A full pass of `iter` (the doc-test at src/queue.rs:236-242): it
     * yields the contents front to back and leaves the queue as it was.
     */
    method Elements() returns (s: seq<T>)
      requires Valid()
      ensures s == Contents
    {
      var it := Iter();
      s := Collect(it);
    }

    /** `iter_mut` (src/queue.rs:298-300): a mutable cursor at `head`. */
    method IterMut() returns (it: IterMut<T>)
      requires Valid()
      ensures fresh(it) && it.Valid() && it.Nodes == Nodes
    {
      it := new IterMut(head, Nodes);
    }

    /**
     * A full pass of `iter_mut` writing `f` of each value in place (the
     * doc-test at src/queue.rs:289-296): the same nodes, in the same
     * order, now hold `f` applied to each value.
     */
    method MapInPlace(f: T -> T)
      requires Valid()
      modifies Repr
      ensures Valid() && Repr == old(Repr) && Nodes == old(Nodes)
      ensures Contents == MapSeq(f, old(Contents))
    {
      var it := IterMut();
      UpdateAll(it, f, Contents);
      Contents := MapSeq(f, Contents);
    }

    /**
     * `Drop::drop` (src/queue.rs:146-150): pops until `pop` answers None,
     * freeing every node.
     */
    method Drop()
      requires Valid()
      modifies this
      ensures Valid() && Contents == [] && Repr == {this}
      ensures head == null && last == null
    {
      var r := Pop();
      while r.Some?
        invariant Valid()
        invariant r.None? ==> Contents == []
        decreases |Contents|, r.Some?
      {
        r := Pop();
      }
    }

    /**
     * A whole client session: the ops run in order, and what the dequeues
     * returned, followed by what is left, is what was there before followed
     * by everything enqueued (the interleaving test at src/queue.rs:307-334).
     * Its length is `Left`, so a dequeue on a nonempty queue always pops.
     */
    method Run(ops: seq<Op<T>>) returns (popped: seq<T>)
      requires Valid()
      modifies Repr
      ensures Valid() && fresh(Repr - old(Repr))
      ensures popped + Contents == old(Contents) + Pushed(ops)
      ensures |Contents| == Left(|old(Contents)|, ops)
    {
      popped := [];
      ghost var start := Contents;
      var i := 0;
      while i < |ops|
        invariant 0 <= i <= |ops|
        invariant Valid() && fresh(Repr - old(Repr))
        invariant popped + Contents == start + Pushed(ops[..i])
        invariant |Contents| == Left(|start|, ops[..i])
      {
        ghost var before, prev := Contents, popped;
        match ops[i] {
          case Enqueue(v) =>
            Push(v);
          case Dequeue =>
            var r := Pop();
            if r.Some? {
              popped := popped + [r.value];
            }
        }
        SessionStep(ops, i, start, prev, before, popped, Contents);
        LeftStep(ops, i, |start|, before, Contents);
        i := i + 1;
      }
      assert ops[..i] == ops;
    }
  }

  /**
   * One step of `Run`'s loop, on the contents alone: whatever the step
   * pushes or pops, the popped values followed by the queue stay the
   * values present at the start followed by everything pushed so far.
   */
  lemma SessionStep<T>(ops: seq<Op<T>>, i: int, start: seq<T>, prev: seq<T>, before: seq<T>, popped: seq<T>, after: seq<T>)
    requires 0 <= i < |ops|
    requires prev + before == start + Pushed(ops[..i])
    requires ops[i].Enqueue? ==> popped == prev && after == before + [ops[i].value]
    requires ops[i].Dequeue? && before == [] ==> popped == prev && after == []
    requires ops[i].Dequeue? && before != [] ==> popped == prev + [before[0]] && after == before[1..]
    ensures popped + after == start + Pushed(ops[..i + 1])
  {
    assert ops[..i + 1][..i] == ops[..i] && ops[..i + 1][i] == ops[i];
    if ops[i].Enqueue? {
      assert Pushed(ops[..i + 1]) == Pushed(ops[..i]) + [ops[i].value];
      calc {
        popped + after;
        prev + (before + [ops[i].value]);
        (prev + before) + [ops[i].value];
        (start + Pushed(ops[..i])) + [ops[i].value];
        start + (Pushed(ops[..i]) + [ops[i].value]);
      }
    } else {
      assert Pushed(ops[..i + 1]) == Pushed(ops[..i]);
      if before != [] {
        calc {
          popped + after;
          prev + [before[0]] + before[1..];
          { assert [before[0]] + before[1..] == before; }
          prev + before;
        }
      }
    }
  }

  /**
   * One step of `Run`'s loop, on lengths alone: an enqueue adds a value, a
   * dequeue takes one exactly when there is one, so the queue keeps the
   * length `Left` gives.
   */
  lemma LeftStep<T>(ops: seq<Op<T>>, i: int, n: nat, before: seq<T>, after: seq<T>)
    requires 0 <= i < |ops|
    requires |before| == Left(n, ops[..i])
    requires ops[i].Enqueue? ==> after == before + [ops[i].value]
    requires ops[i].Dequeue? && before == [] ==> after == []
    requires ops[i].Dequeue? && before != [] ==> after == before[1..]
    ensures |after| == Left(n, ops[..i + 1])
  {
    assert ops[..i + 1][..i] == ops[..i] && ops[..i + 1][i] == ops[i];
  }

  /**
   * `IntoIter` (src/queue.rs:154-162, 192-194): owns the queue and yields
   * by popping it.
   */
  class IntoIter<T> {
    const queue: Queue<T>
    ghost var Repr: set<object>

    ghost predicate Valid()
      reads this, Repr
    {
      && this in Repr
      && queue in Repr
      && Repr == {this} + queue.Repr
      && queue.Valid()
    }

    /** `Queue::into_iter`: takes the queue over. */
    constructor (queue: Queue<T>)
      requires queue.Valid()
      ensures Valid() && this.queue == queue && queue.Contents == old(queue.Contents)
      ensures fresh(Repr - queue.Repr)
    {
      this.queue := queue;
      Repr := {this} + queue.Repr;
    }

    /** `IntoIter::next` (src/queue.rs:159-161): exactly `pop`. */
    method Next() returns (r: Option<T>)
      requires Valid()
      modifies Repr
      ensures Valid() && Repr <= old(Repr)
      ensures old(queue.Contents) == [] ==> r == None && queue.Contents == []
      ensures old(queue.Contents) != [] ==>
        r == Some(old(queue.Contents)[0]) && queue.Contents == old(queue.Contents)[1..]
    {
      r := queue.Pop();
      Repr := {this} + queue.Repr;
    }

    /**
     * Drains the iterator (the test at src/queue.rs:353-365): the values
     * come out in the queue's order and the queue ends empty.
     */
    method Collect() returns (s: seq<T>)
      requires Valid()
      modifies Repr
      ensures Valid() && s == old(queue.Contents) && queue.Contents == []
    {
      s := [];
      while true
        invariant Valid() && Repr <= old(Repr)
        invariant s + queue.Contents == old(queue.Contents)
        decreases |queue.Contents|
      {
        var r := Next();
        if r.None? {
          break;
        }
        s := s + [r.value];
      }
    }
  }
}
