/**
 * The LIFO stack of src/stack.rs: a single owning link to the top node of
 * a chain. The ghost fields give the public view: `Contents` with the top
 * at index 0, `Nodes` the chain itself, `Repr` the objects the stack owns.
 */
module Stack {
  import opened Options
  import opened LinkedNodes
  import opened Sequences

  class Stack<T> {
    var head: Node?<T>
    ghost var Contents: seq<T>
    ghost var Nodes: seq<Node<T>>
    ghost var Repr: set<object>

    /** The stack owns exactly its chain and `head` is its top node. */
    ghost predicate Valid()
      reads this, Repr
      ensures Valid() ==> this in Repr
      ensures Valid() ==> (head == null <==> Contents == [])
    {
      && this in Repr
      && Repr == {this} + NodeSet(Nodes)
      && Chain(Nodes, Contents)
      && head == First(Nodes)
    }

    /** `Stack::new` (src/stack.rs:33-35): no nodes. */
    constructor ()
      ensures Valid() && fresh(Repr)
      ensures Contents == [] && head == null
    {
      head := null;
      Contents := [];
      Nodes := [];
      Repr := {this};
    }

    /**
     * `push` (src/stack.rs:48-55): the old chain is taken out of the stack
     * and becomes the successor of a new top node.
     */
    method Push(value: T)
      requires Valid()
      modifies this
      ensures Valid() && fresh(Repr - old(Repr))
      ensures Contents == [value] + old(Contents)
      ensures head != null && fresh(head) && head.next == old(head)
    {
      var taken := head;
      head := null;
      head := new Node(value, taken);
      Nodes := [head] + Nodes;
      Contents := [value] + Contents;
      Repr := Repr + {head};
    }

    /**
     * `pop` (src/stack.rs:70-76): takes the top node out, leaves its
     * successor as the new top and frees it.
     */
    method Pop() returns (r: Option<T>)
      requires Valid()
      modifies this
      ensures Valid() && Repr <= old(Repr)
      ensures old(Contents) == [] ==> r == None && Contents == []
      ensures old(Contents) != [] ==>
        && r == Some(old(Contents)[0])
        && Contents == old(Contents)[1..]
        && old(head) !in Repr
    {
      var link := head;
      head := null;
      if link == null {
        r := None;
      } else {
        head := link.next;
        r := Some(link.value);
        OnlyOnce(Nodes, 0);
        Nodes := Nodes[1..];
        Contents := Contents[1..];
        Repr := {this} + NodeSet(Nodes);
      }
    }

    /** `peek` (src/stack.rs:92-95): the top value, if any. */
    method Peek() returns (r: Option<T>)
      requires Valid()
      ensures Contents == [] ==> r == None
      ensures Contents != [] ==> r == Some(Contents[0])
    {
      if head == null {
        r := None;
      } else {
        r := Some(head.value);
      }
    }

    /**
     * `peek_mut` (src/stack.rs:112-115) together with what the caller does
     * through the reference it returns: `r` is the value the reference shows
     * (None when there is no top value), and `write` is everything the
     * caller writes through it while the borrow lives, composed into one
     * function; it gives the new top value (the identity when the caller
     * only reads). Only the top element changes.
     */
    method PeekMut(write: T -> T) returns (r: Option<T>)
      requires Valid()
      modifies Repr
      ensures Valid() && Repr == old(Repr) && Nodes == old(Nodes)
      ensures old(Contents) == [] ==> r == None && Contents == old(Contents)
      ensures old(Contents) != [] ==>
        && r == Some(old(Contents)[0])
        && Contents == old(Contents)[0 := write(old(Contents)[0])]
    {
      if head == null {
        r := None;
      } else {
        OnlyOnce(Nodes, 0);
        r := Some(head.value);
        head.value := write(head.value);
        Contents := Contents[0 := head.value];
      }
    }

    /** `iter` (src/stack.rs:219-222): a read-only cursor at the top. */
    method Iter() returns (it: Iter<T>)
      requires Valid()
      ensures fresh(it) && it.Valid()
      ensures it.Remaining == Contents && it.Nodes == Nodes
    {
      it := new Iter(head, Nodes, Contents);
    }

    /**
     * A full pass of `iter` (the doc-test at src/stack.rs:211-217): it
     * yields the contents top to bottom and leaves the stack as it was.
     */
    method Elements() returns (s: seq<T>)
      requires Valid()
      ensures s == Contents
    {
      var it := Iter();
      s := Collect(it);
    }

    /** `iter_mut` (src/stack.rs:272-275): a mutable cursor at the top. */
    method IterMut() returns (it: IterMut<T>)
      requires Valid()
      ensures fresh(it) && it.Valid() && it.Nodes == Nodes
    {
      it := new IterMut(head, Nodes);
    }

    /**
     * A full pass of `iter_mut` writing `f` of each value in place (the
     * doc-test at src/stack.rs:262-270): the same nodes, in the same
     * order, now hold `f` applied to each value.
     */
    method MapInPlace(f: T -> T)
      requires Valid()
      modifies Repr
      ensures Valid() && Repr == old(Repr) && Nodes == old(Nodes)
      ensures Contents == MapSeq(f, old(Contents))
    {
      var it := IterMut();
      UpdateAll(it, f, Contents);
      Contents := MapSeq(f, Contents);
    }

    /**
     * `Drop::drop` (src/stack.rs:119-126): the chain is taken out of the
     * stack and each node's successor is taken out of it in turn, one node
     * per iteration, so that no node is left linked to another.
     */
    method Drop()
      requires Valid()
      modifies Repr
      ensures Valid() && Contents == [] && Repr == {this} && head == null
      ensures forall n :: n in old(Nodes) ==> n.next == null
    {
      var link := head;
      head := null;
      ghost var nodes := Nodes;
      AllDistinct(nodes);
      ghost var k := 0;
      while link != null
        invariant head == null && Nodes == nodes && Repr == old(Repr)
        invariant 0 <= k <= |nodes|
        invariant link == if k < |nodes| then nodes[k] else null
        invariant forall i :: k <= i < |nodes| - 1 ==> nodes[i].next == nodes[i + 1]
        invariant k < |nodes| ==> nodes[|nodes| - 1].next == null
        invariant forall i :: 0 <= i < k ==> nodes[i].next == null
        decreases |nodes| - k
      {
        var node := link;
        link := node.next;
        node.next := null;
        k := k + 1;
      }
      Nodes := [];
      Contents := [];
      Repr := {this};
    }

    /**
     * Pushes `vs` in order (the tests at src/stack.rs:327-339 push 1, 2, 3):
     * the last one pushed ends on top.
     */
    method PushAll(vs: seq<T>)
      requires Valid()
      modifies this
      ensures Valid() && fresh(Repr - old(Repr))
      ensures Contents == Reversed(vs) + old(Contents)
    {
      var i := 0;
      while i < |vs|
        invariant 0 <= i <= |vs|
        invariant Valid() && fresh(Repr - old(Repr))
        invariant Contents == Reversed(vs[..i]) + old(Contents)
      {
        ghost var before := Contents;
        Push(vs[i]);
        PushedOneMore(vs, i, before, Contents, old(Contents));
        i := i + 1;
      }
      assert vs[..i] == vs;
    }
  }

  /** The step of `PushAll`'s loop, on the contents alone. */
  lemma PushedOneMore<T>(vs: seq<T>, i: int, before: seq<T>, after: seq<T>, start: seq<T>)
    requires 0 <= i < |vs|
    requires before == Reversed(vs[..i]) + start && after == [vs[i]] + before
    ensures after == Reversed(vs[..i + 1]) + start
  {
    ReversedSnoc(vs[..i], vs[i]);
    assert vs[..i + 1] == vs[..i] + [vs[i]];
  }

  /**
   * `IntoIter` (src/stack.rs:130-138, 160-162): owns the stack and yields
   * by popping it.
   */
  class IntoIter<T> {
    const stack: Stack<T>
    ghost var Repr: set<object>

    ghost predicate Valid()
      reads this, Repr
    {
      && this in Repr
      && stack in Repr
      && Repr == {this} + stack.Repr
      && stack.Valid()
    }

    /** `Stack::into_iter`: takes the stack over. */
    constructor (stack: Stack<T>)
      requires stack.Valid()
      ensures Valid() && this.stack == stack && stack.Contents == old(stack.Contents)
      ensures fresh(Repr - stack.Repr)
    {
      this.stack := stack;
      Repr := {this} + stack.Repr;
    }

    /** `IntoIter::next` (src/stack.rs:135-137): exactly `pop`. */
    method Next() returns (r: Option<T>)
      requires Valid()
      modifies Repr
      ensures Valid() && Repr <= old(Repr)
      ensures old(stack.Contents) == [] ==> r == None && stack.Contents == []
      ensures old(stack.Contents) != [] ==>
        r == Some(old(stack.Contents)[0]) && stack.Contents == old(stack.Contents)[1..]
    {
      r := stack.Pop();
      Repr := {this} + stack.Repr;
    }

    /**
     * Drains the iterator (the test at src/stack.rs:327-339): the values
     * come out top to bottom and the stack ends empty.
     */
    method Collect() returns (s: seq<T>)
      requires Valid()
      modifies Repr
      ensures Valid() && s == old(stack.Contents) && stack.Contents == []
    {
      s := [];
      while true
        invariant Valid() && Repr <= old(Repr)
        invariant s + stack.Contents == old(stack.Contents)
        decreases |stack.Contents|
      {
        var r := Next();
        if r.None? {
          break;
        }
        s := s + [r.value];
      }
    }
  }
}
