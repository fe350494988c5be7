/**
 * The shared, reference-counted node chain behind the persistent list of
 * src/immutable_list.rs, and the teardown its `Drop` performs. Nodes live
 * in an arena (`cells`), addressed by position; `count` is the node's
 * `Arc` strong count, and a count of 0 marks a node that has been freed.
 * `handles` is the ghost multiset of `List` handles the clients hold.
 *
 * The arena invariant is the meaning of a reference count: the count of
 * every node equals the number of handles on it plus the number of live
 * nodes that link to it. It is kept by `Push`, `Tail` and `Drop`.
 */
module RcArena {
  import opened Options
  import ImmutableList

  /** An `Option<Arc<Node<T>>>`: nothing, or the address of a node. */
  datatype Link = Null | Ptr(addr: nat)

  /** A node and its strong count. */
  datatype Cell<T> = Cell(value: T, next: Link, count: nat)

  /** A measure that strictly drops from a node to its successor. */
  function Rank(l: Link): nat
  {
    if l.Null? then 0 else l.addr + 1
  }

  predicate InArena<T>(cells: seq<Cell<T>>, l: Link)
  {
    l.Ptr? ==> l.addr < |cells|
  }

  /** `l` is null or names a node that has not been freed. */
  predicate Live<T>(cells: seq<Cell<T>>, l: Link)
  {
    l.Ptr? ==> l.addr < |cells| && cells[l.addr].count > 0
  }

  /**
   * Every node links only to an older node: `push` allocates the new node
   * last and links it to a chain that already exists. So chains end.
   */
  predicate Ordered<T>(cells: seq<Cell<T>>)
  {
    forall a :: 0 <= a < |cells| ==> Rank(cells[a].next) <= a
  }

  /** The live nodes that link to node `b`. */
  function Referrers<T>(cells: seq<Cell<T>>, b: nat): (r: set<nat>)
    ensures forall a :: a in r <==> 0 <= a < |cells| && cells[a].count > 0 && cells[a].next == Ptr(b)
  {
    set a | 0 <= a < |cells| && cells[a].count > 0 && cells[a].next == Ptr(b)
  }

  /**
   * The counts are exact: each node's count is the number of handles on
   * it, plus the live nodes linking to it, plus one if `held` (an `Arc`
   * being moved by the teardown loop) names it.
   */
  ghost predicate Counted<T>(cells: seq<Cell<T>>, handles: multiset<Link>, held: Link)
  {
    forall b :: 0 <= b < |cells| ==>
      cells[b].count == handles[Ptr(b)] + |Referrers(cells, b)| + (if held == Ptr(b) then 1 else 0)
  }

  ghost predicate HandlesInArena<T>(cells: seq<Cell<T>>, handles: multiset<Link>)
  {
    forall h :: h in handles ==> InArena(cells, h)
  }

  /** No live node links to a freed one. */
  predicate Closed<T>(cells: seq<Cell<T>>)
  {
    forall a :: 0 <= a < |cells| && cells[a].count > 0 ==> Live(cells, cells[a].next)
  }

  /** Every node of the chain from `l` is live. */
  predicate ChainLive<T>(cells: seq<Cell<T>>, l: Link)
    requires Ordered(cells) && InArena(cells, l)
    decreases Rank(l)
  {
    l.Ptr? ==> cells[l.addr].count > 0 && ChainLive(cells, cells[l.addr].next)
  }

  /** `after` keeps every value and link of `before`, and may add nodes. */
  ghost predicate Extends<T>(before: seq<Cell<T>>, after: seq<Cell<T>>)
  {
    && |before| <= |after|
    && forall a :: 0 <= a < |before| ==> after[a].value == before[a].value && after[a].next == before[a].next
  }

  /** The persistent list that the chain from `l` represents. */
  function Abstract<T>(cells: seq<Cell<T>>, l: Link): ImmutableList.List<T>
    requires Ordered(cells) && InArena(cells, l)
    decreases Rank(l)
  {
    match l
    case Null => ImmutableList.Nil
    case Ptr(a) => ImmutableList.Cons(cells[a].value, Abstract(cells, cells[a].next))
  }

  /** The counts with `l`'s count raised by one (`Arc::clone`). */
  function Clone<T>(cells: seq<Cell<T>>, l: Link): (r: seq<Cell<T>>)
    requires InArena(cells, l)
    ensures Extends(cells, r) && |r| == |cells|
    ensures forall a :: 0 <= a < |cells| ==>
      r[a].count == cells[a].count + (if l == Ptr(a) then 1 else 0)
  {
    match l
    case Null => cells
    case Ptr(a) => cells[a := cells[a].(count := cells[a].count + 1)]
  }

  /**
   * The teardown of `Drop` (src/immutable_list.rs:39-49) on the counts:
   * walking from `l`, a node whose count is 1 is freed (its count drops to
   * 0) and the walk goes on to its successor; the first node with a
   * larger count only loses one reference and the walk stops there.
   */
  function Release<T>(cells: seq<Cell<T>>, l: Link): (r: seq<Cell<T>>)
    requires Ordered(cells) && InArena(cells, l) && ChainLive(cells, l)
    ensures Extends(cells, r) && |r| == |cells|
    decreases Rank(l)
  {
    match l
    case Null => cells
    case Ptr(a) =>
      var c := cells[a];
      if c.count == 1 then
        var freed := cells[a := c.(count := 0)];
        ChainLiveBelow(cells, freed, a, c.next);
        Release(freed, c.next)
      else
        cells[a := c.(count := c.count - 1)]
  }

  /** The nodes the teardown from `l` frees: the run of count-1 nodes at its start. */
  function Owned<T>(cells: seq<Cell<T>>, l: Link): (r: seq<nat>)
    requires Ordered(cells) && InArena(cells, l)
    ensures forall i :: 0 <= i < |r| ==> r[i] < Rank(l)
    decreases Rank(l)
  {
    match l
    case Null => []
    case Ptr(a) =>
      if cells[a].count == 1 then [a] + Owned(cells, cells[a].next) else []
  }

  /** Where the teardown from `l` stops: the first shared node, or Null. */
  function Stop<T>(cells: seq<Cell<T>>, l: Link): (r: Link)
    requires Ordered(cells) && InArena(cells, l)
    ensures Rank(r) <= Rank(l) && InArena(cells, r)
    decreases Rank(l)
  {
    match l
    case Null => Null
    case Ptr(a) =>
      if cells[a].count == 1 then Stop(cells, cells[a].next) else l
  }

  /** Changing the node at `a` leaves the liveness of a chain below `a` alone. */
  lemma {:induction false} ChainLiveBelow<T>(cells: seq<Cell<T>>, cells': seq<Cell<T>>, a: nat, l: Link)
    requires Ordered(cells) && InArena(cells, l) && Rank(l) <= a < |cells|
    requires |cells'| == |cells| && forall b :: 0 <= b < |cells| && b != a ==> cells'[b] == cells[b]
    requires ChainLive(cells, l)
    ensures Ordered(cells') ==> ChainLive(cells', l)
    decreases Rank(l)
  {
    if l.Ptr? && Ordered(cells') {
      ChainLiveBelow(cells, cells', a, cells[l.addr].next);
    }
  }

  /** Changing the node at `a` changes neither the run nor the stop below `a`. */
  lemma {:induction false} WalkBelow<T>(cells: seq<Cell<T>>, cells': seq<Cell<T>>, a: nat, l: Link)
    requires Ordered(cells) && Ordered(cells') && InArena(cells, l) && Rank(l) <= a < |cells|
    requires |cells'| == |cells| && forall b :: 0 <= b < |cells| && b != a ==> cells'[b] == cells[b]
    ensures Owned(cells', l) == Owned(cells, l) && Stop(cells', l) == Stop(cells, l)
    decreases Rank(l)
  {
    if l.Ptr? {
      WalkBelow(cells, cells', a, cells[l.addr].next);
    }
  }

  /**
   * What the teardown from `l` does, node by node: it frees exactly the
   * maximal run of count-1 nodes at the start of the chain, takes one
   * reference off the first shared node (which stays live) and touches no
   * other node, in particular none after the first shared one.
   */
  lemma {:induction false} ReleaseFreesOwnedRun<T>(cells: seq<Cell<T>>, l: Link)
    requires Ordered(cells) && InArena(cells, l) && ChainLive(cells, l)
    ensures forall a :: a in Owned(cells, l) ==> 0 <= a < |cells| && cells[a].count == 1
    ensures Stop(cells, l).Ptr? ==> cells[Stop(cells, l).addr].count > 1
    ensures forall a :: 0 <= a < |cells| ==>
      Release(cells, l)[a].count ==
        if a in Owned(cells, l) then 0
        else if Stop(cells, l) == Ptr(a) then cells[a].count - 1
        else cells[a].count
    decreases Rank(l)
  {
    match l
    case Null =>
    case Ptr(a) =>
      var c := cells[a];
      if c.count == 1 {
        var freed := cells[a := c.(count := 0)];
        ChainLiveBelow(cells, freed, a, c.next);
        WalkBelow(cells, freed, a, c.next);
        ReleaseFreesOwnedRun(freed, c.next);
        assert Owned(cells, l) == [a] + Owned(freed, c.next);
      }
  }

  /** Exact counts make every handle's chain live: nothing it needs is freed. */
  lemma HandlesLive<T>(cells: seq<Cell<T>>, handles: multiset<Link>, held: Link)
    requires Ordered(cells) && HandlesInArena(cells, handles) && InArena(cells, held)
    requires Counted(cells, handles, held)
    ensures Closed(cells)
    ensures forall h :: h in handles ==> ChainLive(cells, h)
    ensures ChainLive(cells, held)
  {
    forall a | 0 <= a < |cells| && cells[a].count > 0 && cells[a].next.Ptr?
      ensures Live(cells, cells[a].next)
    {
      assert a in Referrers(cells, cells[a].next.addr);
    }
    forall h | h in handles
      ensures ChainLive(cells, h)
    {
      ClosedChainLive(cells, h);
    }
    ClosedChainLive(cells, held);
  }

  /** In a closed arena the chain from a live node is live throughout. */
  lemma {:induction false} ClosedChainLive<T>(cells: seq<Cell<T>>, l: Link)
    requires Ordered(cells) && Closed(cells) && Live(cells, l)
    ensures ChainLive(cells, l)
    decreases Rank(l)
  {
    if l.Ptr? {
      ClosedChainLive(cells, cells[l.addr].next);
    }
  }

  /** The list a chain represents depends only on values and links. */
  lemma {:induction false} AbstractKept<T>(before: seq<Cell<T>>, after: seq<Cell<T>>, l: Link)
    requires Ordered(before) && Ordered(after) && Extends(before, after) && InArena(before, l)
    ensures Abstract(after, l) == Abstract(before, l)
    decreases Rank(l)
  {
    if l.Ptr? {
      AbstractKept(before, after, before[l.addr].next);
    }
  }

  /** Giving up a handle moves its reference to the teardown loop. */
  lemma HandOver<T>(cells: seq<Cell<T>>, handles: multiset<Link>, l: Link)
    requires Counted(cells, handles, Null) && l in handles
    ensures Counted(cells, handles - multiset{l}, l)
  {
  }

  /**
   * Rewriting the cell at `a` changes who links to `b` only through `a`:
   * `a` refers to `b` afterwards exactly when the new cell is live and
   * links to `b`.
   */
  lemma ReferrersAfterUpdate<T>(cells: seq<Cell<T>>, a: nat, c: Cell<T>, b: nat)
    requires a < |cells|
    ensures Referrers(cells[a := c], b) ==
      (Referrers(cells, b) - {a}) + (if c.count > 0 && c.next == Ptr(b) then {a} else {})
  {
    var after := cells[a := c];
    forall x
      ensures x in Referrers(after, b) <==>
        x in (Referrers(cells, b) - {a}) + (if c.count > 0 && c.next == Ptr(b) then {a} else {})
    {
      if 0 <= x < |cells| && x != a {
        assert after[x] == cells[x];
      }
    }
  }

  /**
   * Freeing node `a`, whose one reference the loop holds, hands the loop
   * the reference `a` held on its successor: the counts stay exact.
   */
  lemma FreeStep<T>(cells: seq<Cell<T>>, handles: multiset<Link>, a: nat)
    requires Ordered(cells) && HandlesInArena(cells, handles) && a < |cells| && cells[a].count == 1
    requires Counted(cells, handles, Ptr(a)) && ChainLive(cells, Ptr(a))
    ensures
      var freed := cells[a := cells[a].(count := 0)];
      && Ordered(freed) && HandlesInArena(freed, handles) && InArena(freed, cells[a].next)
      && Counted(freed, handles, cells[a].next)
      && ChainLive(freed, cells[a].next)
      && Release(freed, cells[a].next) == Release(cells, Ptr(a))
  {
    var freed := cells[a := cells[a].(count := 0)];
    ChainLiveBelow(cells, freed, a, cells[a].next);
    FreeCounts(cells, handles, a);
  }

  /** The counting half of `FreeStep`. */
  lemma FreeCounts<T>(cells: seq<Cell<T>>, handles: multiset<Link>, a: nat)
    requires Ordered(cells) && a < |cells| && cells[a].count == 1
    requires Counted(cells, handles, Ptr(a))
    ensures Counted(cells[a := cells[a].(count := 0)], handles, cells[a].next)
  {
    var freed := cells[a := cells[a].(count := 0)];
    forall b | 0 <= b < |cells|
      ensures freed[b].count ==
        handles[Ptr(b)] + |Referrers(freed, b)| + (if cells[a].next == Ptr(b) then 1 else 0)
    {
      ReferrersAfterUpdate(cells, a, freed[a], b);
      if cells[a].next == Ptr(b) {
        assert a in Referrers(cells, b);
      }
    }
  }

  /**
   * Dropping the loop's reference to a shared node only lowers its count;
   * nothing is freed, so no other count changes.
   */
  lemma DecrementStep<T>(cells: seq<Cell<T>>, handles: multiset<Link>, a: nat)
    requires Ordered(cells) && HandlesInArena(cells, handles) && a < |cells| && cells[a].count > 1
    requires Counted(cells, handles, Ptr(a)) && ChainLive(cells, Ptr(a))
    ensures
      var dropped := cells[a := cells[a].(count := cells[a].count - 1)];
      && Ordered(dropped) && HandlesInArena(dropped, handles)
      && Counted(dropped, handles, Null)
      && Release(cells, Ptr(a)) == dropped
  {
    DecrementCounts(cells, handles, a);
  }

  /** The counting half of `DecrementStep`. */
  lemma DecrementCounts<T>(cells: seq<Cell<T>>, handles: multiset<Link>, a: nat)
    requires a < |cells| && cells[a].count > 1
    requires Counted(cells, handles, Ptr(a))
    ensures Counted(cells[a := cells[a].(count := cells[a].count - 1)], handles, Null)
  {
    var dropped := cells[a := cells[a].(count := cells[a].count - 1)];
    forall b | 0 <= b < |cells|
      ensures Referrers(dropped, b) == Referrers(cells, b)
    {
      ReferrersAfterUpdate(cells, a, dropped[a], b);
    }
  }

  /**
   * A new node linked to `l`, with one reference from the new handle,
   * after `l`'s count was raised by the clone its `next` holds: the counts
   * stay exact.
   */
  lemma PushStep<T>(cells: seq<Cell<T>>, handles: multiset<Link>, l: Link, value: T)
    requires Ordered(cells) && InArena(cells, l) && Live(cells, l) && HandlesInArena(cells, handles)
    requires Counted(cells, handles, Null)
    ensures
      var after := Clone(cells, l) + [Cell(value, l, 1)];
      Ordered(after) && Counted(after, handles + multiset{Ptr(|cells|)}, Null)
  {
    var n := |cells|;
    var after := Clone(cells, l) + [Cell(value, l, 1)];
    var handles' := handles + multiset{Ptr(n)};
    assert !InArena(cells, Ptr(n));
    forall b | 0 <= b < |after|
      ensures after[b].count == handles'[Ptr(b)] + |Referrers(after, b)|
    {
      ReferrersAfterPush(cells, l, value, b);
      if b == n {
        forall x
          ensures x !in Referrers(cells, n)
        {
          if 0 <= x < |cells| {
            assert Rank(cells[x].next) <= x;
          }
        }
        assert Referrers(cells, n) == {};
      }
    }
    assert Ordered(after) by {
      forall b | 0 <= b < |after|
        ensures Rank(after[b].next) <= b
      {
        if b < n {
          assert after[b].next == cells[b].next;
        }
      }
    }
  }

  /** The new node is the one extra live node that may link to `b`. */
  lemma ReferrersAfterPush<T>(cells: seq<Cell<T>>, l: Link, value: T, b: nat)
    requires Ordered(cells) && InArena(cells, l) && Live(cells, l)
    ensures
      var after := Clone(cells, l) + [Cell(value, l, 1)];
      Referrers(after, b) == Referrers(cells, b) + (if l == Ptr(b) then {|cells|} else {})
  {
    var after := Clone(cells, l) + [Cell(value, l, 1)];
    forall x
      ensures x in Referrers(after, b) <==> x in Referrers(cells, b) + (if l == Ptr(b) then {|cells|} else {})
    {
      if 0 <= x < |cells| {
        assert after[x].next == cells[x].next;
        assert after[x].count > 0 <==> cells[x].count > 0;
      }
    }
  }

  /** A new handle on `l`'s successor raises that node's count by one. */
  lemma CloneStep<T>(cells: seq<Cell<T>>, handles: multiset<Link>, r: Link)
    requires InArena(cells, r) && Live(cells, r)
    requires Counted(cells, handles, Null)
    ensures Counted(Clone(cells, r), handles + multiset{r}, Null)
  {
    var after := Clone(cells, r);
    forall b | 0 <= b < |cells|
      ensures Referrers(after, b) == Referrers(cells, b)
    {
      if r.Ptr? {
        ReferrersAfterUpdate(cells, r.addr, after[r.addr], b);
      }
    }
  }

  /** Every handle in `handles` denotes the same list before and after. */
  lemma AbstractsKept<T>(before: seq<Cell<T>>, after: seq<Cell<T>>, handles: multiset<Link>)
    requires Ordered(before) && Ordered(after) && Extends(before, after)
    requires HandlesInArena(before, handles)
    ensures forall h :: h in handles ==> Abstract(after, h) == Abstract(before, h)
  {
    forall h | h in handles
      ensures Abstract(after, h) == Abstract(before, h)
    {
      AbstractKept(before, after, h);
    }
  }

  /**
   * The arena invariant: links only go to older nodes, every handle names
   * a node of the arena, the counts are exact and every handle's chain is
   * live.
   */
  ghost predicate Sound<T>(cells: seq<Cell<T>>, handles: multiset<Link>)
  {
    && Ordered(cells)
    && HandlesInArena(cells, handles)
    && Counted(cells, handles, Null)
    && (forall h :: h in handles ==> ChainLive(cells, h))
  }

  /**
   * `push` on handle `l` keeps the arena sound: the new handle denotes
   * `value` in front of `l`'s list, and every existing handle still
   * denotes its list.
   */
  lemma PushKeeps<T>(cells: seq<Cell<T>>, handles: multiset<Link>, l: Link, value: T)
    requires Sound(cells, handles) && l in handles
    ensures
      var after := Clone(cells, l) + [Cell(value, l, 1)];
      && Sound(after, handles + multiset{Ptr(|cells|)})
      && Abstract(after, Ptr(|cells|)) == ImmutableList.Push(Abstract(cells, l), value)
      && forall h :: h in handles ==> Abstract(after, h) == Abstract(cells, h)
  {
    var after := Clone(cells, l) + [Cell(value, l, 1)];
    var handles' := handles + multiset{Ptr(|cells|)};
    PushStep(cells, handles, l, value);
    assert HandlesInArena(after, handles');
    HandlesLive(after, handles', Null);
    AbstractKept(cells, after, l);
    AbstractsKept(cells, after, handles);
  }

  /**
   * `tail` on handle `l` keeps the arena sound: the new handle denotes the
   * tail of `l`'s list, and every existing handle still denotes its list.
   */
  lemma TailKeeps<T>(cells: seq<Cell<T>>, handles: multiset<Link>, l: Link)
    requires Sound(cells, handles) && l in handles
    ensures
      var r := if l.Null? then Null else cells[l.addr].next;
      && InArena(cells, r)
      && Sound(Clone(cells, r), handles + multiset{r})
      && Abstract(Clone(cells, r), r) == ImmutableList.Tail(Abstract(cells, l))
      && forall h :: h in handles ==> Abstract(Clone(cells, r), h) == Abstract(cells, h)
  {
    var r := if l.Null? then Null else cells[l.addr].next;
    var after := Clone(cells, r);
    var handles' := handles + multiset{r};
    CloneStep(cells, handles, r);
    assert HandlesInArena(after, handles');
    HandlesLive(after, handles', Null);
    AbstractKept(cells, after, r);
    AbstractsKept(cells, after, handles);
  }

  /**
   * The state of the teardown loop of `Drop`: the arena is well formed, the
   * counts are exact with the loop holding one reference on `head`, and the
   * chain from `head` is live.
   */
  ghost predicate Walking<T>(cells: seq<Cell<T>>, handles: multiset<Link>, head: Link)
  {
    && Ordered(cells) && HandlesInArena(cells, handles) && InArena(cells, head)
    && Counted(cells, handles, head) && ChainLive(cells, head)
  }

  class Arena<T> {
    var cells: seq<Cell<T>>
    ghost var handles: multiset<Link>

    ghost predicate Valid()
      reads this
    {
      Sound(cells, handles)
    }

    constructor ()
      ensures Valid() && cells == [] && handles == multiset{}
    {
      cells := [];
      handles := multiset{};
    }

    /** `List::new` (src/immutable_list.rs:16-18): a handle on nothing. */
    method New() returns (r: Link)
      requires Valid()
      modifies this
      ensures Valid() && cells == old(cells)
      ensures r == Null && handles == old(handles) + multiset{r}
      ensures Abstract(cells, r) == ImmutableList.New()
    {
      r := Null;
      handles := handles + multiset{r};
      HandlesLive(cells, handles, Null);
    }

    /**
     * `push` (src/immutable_list.rs:20-26): clones the receiver's link (one
     * more reference on its head) into a new node with count 1, and hands
     * out a new handle on it. Every existing handle still denotes the same
     * list.
     */
    method Push(l: Link, value: T) returns (r: Link)
      requires Valid() && l in handles
      modifies this
      ensures Valid()
      ensures r == Ptr(|old(cells)|) && handles == old(handles) + multiset{r}
      ensures cells == Clone(old(cells), l) + [Cell(value, l, 1)]
      ensures Abstract(cells, r) == ImmutableList.Push(Abstract(old(cells), l), value)
      ensures forall h :: h in old(handles) ==> Abstract(cells, h) == Abstract(old(cells), h)
    {
      PushKeeps(cells, handles, l, value);
      cells := Clone(cells, l) + [Cell(value, l, 1)];
      r := Ptr(|cells| - 1);
      handles := handles + multiset{r};
    }

    /**
     * `tail` (src/immutable_list.rs:28-31): a new handle on the head's
     * successor, which gains one reference. The clone of the head itself
     * is dropped again before `tail` returns, so its count ends unchanged.
     */
    method Tail(l: Link) returns (r: Link)
      requires Valid() && l in handles
      modifies this
      ensures Valid()
      ensures r == (if l.Null? then Null else old(cells)[l.addr].next)
      ensures cells == Clone(old(cells), r) && handles == old(handles) + multiset{r}
      ensures Abstract(cells, r) == ImmutableList.Tail(Abstract(old(cells), l))
      ensures forall h :: h in old(handles) ==> Abstract(cells, h) == Abstract(old(cells), h)
    {
      TailKeeps(cells, handles, l);
      r := if l.Null? then Null else cells[l.addr].next;
      cells := Clone(cells, r);
      handles := handles + multiset{r};
    }

    /**
     * `Arc::try_unwrap` on the loop's reference to node `a`, as `Drop`
     * uses it (src/immutable_list.rs:43-47): with a count of 1 it succeeds
     * and the node is freed, its `next` passing to the loop; otherwise the
     * `Arc` it hands back is dropped, which lowers the count by one.
     */
    method TryUnwrap(a: nat) returns (ok: bool)
      requires a < |cells| && Walking(cells, handles, Ptr(a))
      modifies this
      ensures handles == old(handles)
      ensures ok <==> old(cells)[a].count == 1
      ensures ok ==> && Walking(cells, handles, old(cells)[a].next)
                     && Release(cells, old(cells)[a].next) == Release(old(cells), Ptr(a))
      ensures !ok ==> && Ordered(cells) && HandlesInArena(cells, handles) && Counted(cells, handles, Null)
                      && cells == Release(old(cells), Ptr(a))
    {
      var node := cells[a];
      if node.count == 1 {
        FreeStep(cells, handles, a);
        cells := cells[a := node.(count := 0)];
        ok := true;
      } else {
        DecrementStep(cells, handles, a);
        cells := cells[a := node.(count := node.count - 1)];
        ok := false;
      }
    }

    /**
     * `Drop::drop` (src/immutable_list.rs:39-49): the handle's link is
     * taken; while it names a node, `try_unwrap` either frees the node and
     * the walk moves to the link taken out of its `next`, or fails and the
     * walk stops. The counts stay exact, and every other handle still
     * denotes the same, fully live, list.
     */
    method Drop(l: Link)
      requires Valid() && l in handles
      modifies this
      ensures Valid()
      ensures handles == old(handles) - multiset{l}
      ensures cells == Release(old(cells), l)
      ensures forall h :: h in handles ==> Abstract(cells, h) == Abstract(old(cells), h)
    {
      HandOver(cells, handles, l);
      handles := handles - multiset{l};
      var head := l;
      while head.Ptr?
        invariant handles == old(handles) - multiset{l}
        invariant Walking(cells, handles, head)
        invariant Release(cells, head) == Release(old(cells), l)
        decreases Rank(head)
      {
        var next := cells[head.addr].next;
        var ok := TryUnwrap(head.addr);
        if !ok {
          break;
        }
        head := next;
      }
      HandlesLive(cells, handles, Null);
      AbstractsKept(old(cells), cells, handles);
    }
  }
}
