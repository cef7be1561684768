/**
 * The FIFO queue of simplestructure/queue.go. The Go type wraps a `container/list`
 * that it mutates with PushBack and Remove; here the list is the sequence `elements`,
 * oldest first. Go lets a caller push nil, so each element is an `Option`.
 */
module SimpleQueues {
  import opened Wrappers

  class SimpleQueue<T> {
    var elements: seq<Option<T>>

    constructor ()
      ensures elements == []
    {
      elements := [];
    }

    method Pushback(v: Option<T>)
      modifies this
      ensures elements == old(elements) + [v]
    {
      elements := elements + [v];
    }

    /** Takes the oldest element off the front; `None` (Go's nil) when the queue is empty. */
    method Popfront() returns (r: Option<T>)
      modifies this
      ensures old(elements) == [] ==> r == None && elements == []
      ensures old(elements) != [] ==> r == old(elements)[0] && elements == old(elements)[1..]
    {
      if elements == [] {
        return None;
      }
      r := elements[0];
      elements := elements[1..];
    }

    method Size() returns (n: nat)
      ensures n == |elements|
    {
      return |elements|;
    }
  }

  /** Pops until Popfront yields nil, as the loop in simplestructure/queue_test.go does.
      The values in front of the first nil come out in the order they were pushed; that
      nil is consumed, and whatever was pushed after it stays queued. */
  method Drain<T>(q: SimpleQueue<T>) returns (popped: seq<T>)
    modifies q
    ensures popped == UntilNil(old(q.elements))
    ensures var k := FirstNil(old(q.elements));
      q.elements == if k < |old(q.elements)| then old(q.elements)[k + 1..] else []
  {
    ghost var s0 := q.elements;
    ghost var i := 0;
    popped := [];
    while true
      invariant i <= FirstNil(s0) && q.elements == s0[i..]
      invariant popped == UntilNil(s0)[..i]
      decreases |q.elements|
    {
      var v := q.Popfront();
      if v.None? {
        break;
      }
      popped := popped + [v.value];
      i := i + 1;
    }
  }

  /** simplestructure/queue_test.go: push 0, 1, 2 and drain; the pops give 0, 1, 2. */
  method QueueScenario() returns (popped: seq<int>, size: nat)
    ensures popped == [0, 1, 2] && size == 0
  {
    var q := new SimpleQueue<int>();
    q.Pushback(Some(0));
    q.Pushback(Some(1));
    q.Pushback(Some(2));
    popped := Drain(q);
    size := q.Size();
  }

  /** The test's loop stops at a pushed nil: push 0, nil, 2 and drain; only 0 comes out
      and 2 stays queued. */
  method QueueNilScenario() returns (popped: seq<int>, size: nat)
    ensures popped == [0] && size == 1
  {
    var q := new SimpleQueue<int>();
    q.Pushback(Some(0));
    q.Pushback(None);
    q.Pushback(Some(2));
    popped := Drain(q);
    size := q.Size();
  }
}
