/**
 The frontier queue: a first-in first-out list of person indices. The whole
 state is one growable list that push appends to and pop takes from the front.
 */
module Queues {

  datatype Option<T> = None | Some(value: T)

  class Queue<T> {
    /** The stored elements, oldest first. */
    var elements: seq<T>

    constructor (initial: seq<T>)
      ensures elements == initial
    {
      elements := initial;
    }

    /** Appends at the back; earlier elements keep their places. */
    method Push(element: T)
      modifies this
      ensures elements == old(elements) + [element]
      ensures |elements| == old(|elements|) + 1
    {
      elements := elements + [element];
    }

    /** Removes and returns the oldest element, or returns None and changes nothing when empty. */
    method Pop() returns (first: Option<T>)
      modifies this
      ensures old(elements) == [] ==> first == None && elements == []
      ensures old(elements) != [] ==>
        first == Some(old(elements)[0]) && elements == old(elements)[1..] && |elements| == old(|elements|) - 1
    {
      first := if |elements| > 0 then Some(elements[0]) else None;
      if |elements| > 0 {
        elements := elements[1..];
      }
    }

    /** Drops every element. */
    method Clear()
      modifies this
      ensures elements == []
    {
      elements := [];
    }

    /** The number of stored elements. */
    method Size() returns (n: int)
      ensures n == |elements| && n >= 0
      ensures n == 0 <==> elements == []
    {
      n := |elements|;
    }
  }

  /**
   First in, first out: whatever is pushed onto an empty queue comes back out
   of pop in the order it went in, and the queue is empty afterwards.
   */
  method PushAllThenPopAll<T>(xs: seq<T>) returns (popped: seq<T>, rest: nat)
    ensures popped == xs
    ensures rest == 0
  {
    var q := new Queue<T>([]);
    for i := 0 to |xs|
      invariant q.elements == xs[..i]
    {
      q.Push(xs[i]);
    }
    popped := [];
    for i := 0 to |xs|
      invariant popped == xs[..i]
      invariant q.elements == xs[i..]
    {
      var first := q.Pop();
      popped := popped + [first.value];
    }
    var extra := q.Pop();
    assert extra == None;
    rest := q.Size();
  }
}
