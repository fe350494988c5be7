/**
 * The persistent list of src/immutable_list.rs. A handle is a value: `push`
 * and `tail` build new handles that share the receiver's chain and never
 * change it, which an algebraic datatype states directly (`Cons(v, l)`
 * holds `l` itself, not a copy). The reference counts that let Rust free
 * the shared chain are modelled in `RcArena`.
 */
module ImmutableList {
  import opened Options
  import opened Sequences

  datatype List<T> = Nil | Cons(value: T, next: List<T>)

  /** What `iter` yields: the values from the head to the end. */
  function Elements<T>(l: List<T>): (s: seq<T>)
  {
    match l
    case Nil => []
    case Cons(v, next) => [v] + Elements(next)
  }

  /** `List::new` (src/immutable_list.rs:16-18): the empty list. */
  function New<T>(): (r: List<T>)
    ensures Elements(r) == [] && Head(r) == None
  {
    Nil
  }

  /**
   * `push` (src/immutable_list.rs:20-26): a new node in front of the
   * receiver's chain, which it shares.
   */
  function Push<T>(l: List<T>, value: T): (r: List<T>)
    ensures Elements(r) == [value] + Elements(l)
    ensures r.Cons? && r.next == l
  {
    Cons(value, l)
  }

  /**
   * `tail` (src/immutable_list.rs:28-31): the chain after the head, shared;
   * the empty list for the empty list.
   */
  function Tail<T>(l: List<T>): (r: List<T>)
    ensures Elements(r) == if l.Nil? then [] else Elements(l)[1..]
    ensures l.Cons? ==> r == l.next
  {
    match l
    case Nil => Nil
    case Cons(_, next) => next
  }

  /** `head` (src/immutable_list.rs:33-35): the first value, if any. */
  function Head<T>(l: List<T>): (r: Option<T>)
    ensures r.None? <==> Elements(l) == []
    ensures r.Some? ==> r.value == Elements(l)[0]
  {
    match l
    case Nil => None
    case Cons(v, _) => Some(v)
  }

  /** The list reached by `k` calls of `tail`. */
  function Tails<T>(l: List<T>, k: nat): (r: List<T>)
  {
    if k == 0 then l else Tails(Tail(l), k - 1)
  }

  /** Pushes each of `vs` in order onto `l`. */
  function PushAll<T>(l: List<T>, vs: seq<T>): (r: List<T>)
    decreases |vs|
  {
    if vs == [] then l else PushAll(Push(l, vs[0]), vs[1..])
  }

  /** Popping the pushed value off again gives back the receiver. */
  lemma TailOfPush<T>(l: List<T>, v: T)
    ensures Tail(Push(l, v)) == l && Head(Push(l, v)) == Some(v)
  {
  }

  /** Once the list is empty, `tail` keeps returning the empty list. */
  lemma {:induction false} TailsOfEmpty<T>(k: nat)
    ensures Tails(New<T>(), k) == Nil
  {
    if k > 0 {
      TailsOfEmpty<T>(k - 1);
    }
  }

  /** `tail` of a longer chain peels off exactly one node per call. */
  lemma {:induction false} ElementsOfTails<T>(l: List<T>, k: nat)
    ensures Elements(Tails(l, k)) == if k <= |Elements(l)| then Elements(l)[k..] else []
  {
    if k > 0 {
      ElementsOfTails(Tail(l), k - 1);
      if l.Cons? && k <= |Elements(l)| {
        assert Elements(l)[1..][k - 1..] == Elements(l)[k..];
      } else if l.Nil? {
        TailsOfEmpty<T>(k - 1);
      }
    }
  }

  /**
   * Pushing `vs` in order puts them in front of the receiver's values,
   * most recently pushed first (src/immutable_list.rs:114-122).
   */
  lemma {:induction false} ElementsOfPushAll<T>(l: List<T>, vs: seq<T>)
    ensures Elements(PushAll(l, vs)) == Reversed(vs) + Elements(l)
    decreases |vs|
  {
    if vs != [] {
      ElementsOfPushAll(Push(l, vs[0]), vs[1..]);
    }
  }

  /**
   * After pushing `vs` onto the empty list, `k` calls of `tail` expose the
   * value pushed `k`-th from last, and None once all are gone (the test at
   * src/immutable_list.rs:91-111 pushes 1, 2, 3 and sees 3, 2, 1, None).
   */
  lemma HeadAfterTails<T>(vs: seq<T>, k: nat)
    ensures Head(Tails(PushAll(New(), vs), k)) == if k < |vs| then Some(vs[|vs| - 1 - k]) else None
  {
    var l := PushAll(New(), vs);
    ElementsOfPushAll(New(), vs);
    ElementsOfTails(l, k);
    if k < |vs| {
      ReversedAt(vs, k);
    }
  }

  /**
   * The read-only cursor `Iter` (src/immutable_list.rs:53-64): it holds the
   * rest of the chain still to be yielded.
   */
  class Iter<T> {
    var cursor: List<T>

    /** `List::iter` (src/immutable_list.rs:67-70): a cursor at the head. */
    constructor (l: List<T>)
      ensures cursor == l
    {
      cursor := l;
    }

    /** Yields the value under the cursor and moves to its successor. */
    method Next() returns (r: Option<T>)
      modifies this
      ensures r == Head(old(cursor)) && cursor == Tail(old(cursor))
      ensures Elements(old(cursor)) == (if r.Some? then [r.value] else []) + Elements(cursor)
    {
      match cursor
      case Nil =>
        r := None;
      case Cons(v, next) =>
        cursor := next;
        r := Some(v);
    }
  }

  /**
   * A full pass of `iter` (the test at src/immutable_list.rs:114-122): it
   * yields every value from the head to the end.
   */
  method IterAll<T>(l: List<T>) returns (s: seq<T>)
    ensures s == Elements(l)
  {
    var it := new Iter(l);
    s := [];
    while true
      invariant fresh(it)
      invariant s + Elements(it.cursor) == Elements(l)
      decreases |Elements(it.cursor)|
    {
      var r := it.Next();
      if r.None? {
        break;
      }
      s := s + [r.value];
    }
  }
}
