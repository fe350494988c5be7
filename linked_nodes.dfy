/**
 * The singly linked node shared by the stack and the queue, the shape both
 * keep their chain in, and the borrowing cursors (`Iter`, `IterMut`) that
 * walk such a chain. The Rust sources declare one private `Node<T>` per
 * file (src/stack.rs:19-22, src/queue.rs:24-27); the two have the same
 * fields, so the model declares the node once.
 */
module LinkedNodes {
  import opened Options

  class Node<T> {
    var value: T
    var next: Node?<T>

    constructor (value: T, next: Node?<T>)
      ensures this.value == value && this.next == next
    {
      this.value := value;
      this.next := next;
    }
  }

  /** The objects of a chain, as a set (the footprint of the nodes). */
  ghost function NodeSet<T>(nodes: seq<Node<T>>): (r: set<Node<T>>)
    ensures forall n :: n in nodes ==> n in r
    ensures forall n :: n in r ==> n in nodes
  {
    set n | n in nodes :: n
  }

  /** The first node of a chain, null for an empty one. */
  ghost function First<T>(nodes: seq<Node<T>>): Node?<T>
  {
    if nodes == [] then null else nodes[0]
  }

  /** The final node of a chain, null for an empty one. */
  ghost function Last<T>(nodes: seq<Node<T>>): Node?<T>
  {
    if nodes == [] then null else nodes[|nodes| - 1]
  }

  /** Each node links to the one after it and the final node links to null. */
  ghost predicate Linked<T>(nodes: seq<Node<T>>)
    reads nodes`next
  {
    && (forall i :: 0 <= i < |nodes| - 1 ==> nodes[i].next == nodes[i + 1])
    && (nodes != [] ==> nodes[|nodes| - 1].next == null)
  }

  /** `nodes` is a null-terminated chain holding `values`, front to back. */
  ghost predicate Chain<T>(nodes: seq<Node<T>>, values: seq<T>)
    reads nodes
  {
    && Linked(nodes)
    && |nodes| == |values|
    && (forall i :: 0 <= i < |nodes| ==> nodes[i].value == values[i])
  }

  /** `f` applied to every element, order kept. */
  function MapSeq<T>(f: T -> T, s: seq<T>): (r: seq<T>)
    ensures |r| == |s|
    ensures forall i :: 0 <= i < |s| ==> r[i] == f(s[i])
  {
    if s == [] then [] else [f(s[0])] + MapSeq(f, s[1..])
  }

  /** A null-terminated chain visits no node twice: it has no cycle. */
  lemma {:induction false} LinkedDistinct<T>(nodes: seq<Node<T>>, i: int, j: int)
    requires Linked(nodes)
    requires 0 <= i < j < |nodes|
    ensures nodes[i] != nodes[j]
    decreases |nodes| - j
  {
    if j < |nodes| - 1 {
      LinkedDistinct(nodes, i + 1, j + 1);
      assert nodes[i].next != nodes[j].next;
    } else {
      assert nodes[i].next == nodes[i + 1];
    }
  }

  /** Every pair of positions of a chain holds different nodes. */
  lemma AllDistinct<T>(nodes: seq<Node<T>>)
    requires Linked(nodes)
    ensures forall i, j :: 0 <= i < j < |nodes| ==> nodes[i] != nodes[j]
  {
    forall i, j | 0 <= i < j < |nodes|
      ensures nodes[i] != nodes[j]
    {
      LinkedDistinct(nodes, i, j);
    }
  }

  /** The node at position `k` of a chain appears nowhere else in it. */
  lemma OnlyOnce<T>(nodes: seq<Node<T>>, k: int)
    requires Linked(nodes) && 0 <= k < |nodes|
    ensures forall i :: 0 <= i < |nodes| && i != k ==> nodes[i] != nodes[k]
  {
    forall i | 0 <= i < |nodes| && i != k
      ensures nodes[i] != nodes[k]
    {
      if i < k { LinkedDistinct(nodes, i, k); } else { LinkedDistinct(nodes, k, i); }
    }
  }

  /**
   * The read-only cursor (`Iter` of src/queue.rs:199-212 and
   * src/stack.rs:176-187): it holds the node it will yield next and the
   * chain from there on, which it only reads.
   */
  class Iter<T> {
    var cursor: Node?<T>
    ghost var Nodes: seq<Node<T>>
    ghost var Remaining: seq<T>

    ghost predicate Valid()
      reads this, Nodes
    {
      Chain(Nodes, Remaining) && cursor == First(Nodes)
    }

    constructor (start: Node?<T>, ghost nodes: seq<Node<T>>, ghost values: seq<T>)
      requires Chain(nodes, values) && start == First(nodes)
      ensures Valid() && Nodes == nodes && Remaining == values
    {
      cursor := start;
      Nodes := nodes;
      Remaining := values;
    }

    /** Yields the value under the cursor and moves to its successor. */
    method Next() returns (r: Option<T>)
      requires Valid()
      modifies this
      ensures Valid()
      ensures old(Remaining) == [] ==> r == None && Remaining == [] && Nodes == []
      ensures old(Remaining) != [] ==>
        && r == Some(old(Remaining)[0])
        && Remaining == old(Remaining)[1..]
        && Nodes == old(Nodes)[1..]
    {
      if cursor == null {
        r := None;
      } else {
        var node := cursor;
        cursor := node.next;
        r := Some(node.value);
        Nodes := Nodes[1..];
        Remaining := Remaining[1..];
      }
    }
  }

  /**
   * Runs a read-only cursor to its end (the `for x in &list` loop of the
   * doc-tests): it yields the values it had left, in order.
   */
  method Collect<T>(it: Iter<T>) returns (s: seq<T>)
    requires it.Valid()
    modifies it
    ensures it.Valid() && it.Remaining == []
    ensures s == old(it.Remaining)
  {
    s := [];
    while true
      invariant it.Valid()
      invariant s + it.Remaining == old(it.Remaining)
      decreases |it.Remaining|
    {
      var r := it.Next();
      if r.None? {
        break;
      }
      s := s + [r.value];
    }
  }

  /**
   * The mutable cursor (`IterMut` of src/queue.rs:251-264 and
   * src/stack.rs:227-238). Rust hands out `&mut node.value`; here `Next`
   * hands out the node itself, whose `value` the caller may overwrite. The
   * cursor keeps only the link structure, which such writes leave intact.
   */
  class IterMut<T> {
    var cursor: Node?<T>
    ghost var Nodes: seq<Node<T>>

    ghost predicate Valid()
      reads this, Nodes`next
    {
      Linked(Nodes) && cursor == First(Nodes)
    }

    constructor (start: Node?<T>, ghost nodes: seq<Node<T>>)
      requires Linked(nodes) && start == First(nodes)
      ensures Valid() && Nodes == nodes
    {
      cursor := start;
      Nodes := nodes;
    }

    /** Yields the node under the cursor (null once exhausted) and moves on. */
    method Next() returns (slot: Node?<T>)
      requires Valid()
      modifies this
      ensures Valid()
      ensures old(Nodes) == [] ==> slot == null && Nodes == []
      ensures old(Nodes) != [] ==> slot == old(Nodes)[0] && Nodes == old(Nodes)[1..]
    {
      slot := cursor;
      if cursor != null {
        cursor := cursor.next;
        Nodes := Nodes[1..];
      }
    }
  }

  /**
   * A full pass of a mutable cursor that overwrites each value `v` it is
   * handed with `f(v)` (the `for x in &mut list { *x = f(*x) }` loop of
   * the doc-tests): the nodes stay linked as they were and now hold `f`
   * applied to their old values, in the same order.
   */
  method UpdateAll<T>(it: IterMut<T>, f: T -> T, ghost values: seq<T>)
    requires it.Valid() && Chain(it.Nodes, values)
    modifies it, it.Nodes`value
    ensures it.Valid() && it.Nodes == []
    ensures Chain(old(it.Nodes), MapSeq(f, values))
  {
    ghost var nodes := it.Nodes;
    var slot := it.Next();
    ghost var k := 0;
    while slot != null
      invariant Updating(it, slot, f, nodes, k, values)
      decreases |nodes| - k
    {
      slot := UpdateStep(it, slot, f, nodes, k, values);
      k := k + 1;
    }
    MappedChain(nodes, f, values);
  }

  /**
   * The state of `UpdateAll` after `k` values were handed out: `slot` is
   * the node at position `k` (null past the end), the cursor holds the rest
   * of the chain, the links are as they were, and the first `k` nodes hold
   * `f` of their values while the others still hold theirs.
   */
  ghost predicate Updating<T>(it: IterMut<T>, slot: Node?<T>, f: T -> T, nodes: seq<Node<T>>, k: int, values: seq<T>)
    reads it, it.Nodes, nodes
  {
    && it.Valid()
    && 0 <= k <= |nodes| == |values|
    && (k < |nodes| ==> slot == nodes[k] && it.Nodes == nodes[k + 1..])
    && (k == |nodes| ==> slot == null && it.Nodes == [])
    && Linked(nodes)
    && (forall i :: 0 <= i < |nodes| ==> nodes[i].value == if i < k then f(values[i]) else values[i])
  }

  /**
   * One turn of the `for x in &mut list { *x = f(*x) }` loop: write `f` of
   * the value through the node the cursor handed out, then take the next.
   */
  method UpdateStep<T>(it: IterMut<T>, slot: Node<T>, f: T -> T, ghost nodes: seq<Node<T>>, ghost k: int, ghost values: seq<T>)
      returns (next: Node?<T>)
    requires Updating(it, slot, f, nodes, k, values)
    modifies it, slot`value
    ensures Updating(it, next, f, nodes, k + 1, values)
  {
    OnlyOnce(nodes, k);
    slot.value := f(slot.value);
    next := it.Next();
  }

  /** Nodes still linked as before and holding `f` of `values` form that chain. */
  lemma MappedChain<T>(nodes: seq<Node<T>>, f: T -> T, values: seq<T>)
    requires Linked(nodes) && |nodes| == |values|
    requires forall i :: 0 <= i < |nodes| ==> nodes[i].value == f(values[i])
    ensures Chain(nodes, MapSeq(f, values))
  {
  }
}
