/**
 * The LIFO stack of simplestructure/stack.go. The Go type wraps a `container/list`
 * that it mutates at the back; here the list is the sequence `elements`, bottom first.
 * Go lets a caller push nil, so each element is an `Option`.
 */
module SimpleStacks {
  import opened Wrappers

  /** `s` back to front. */
  function Reverse<X>(s: seq<X>): (r: seq<X>)
    ensures |r| == |s|
    ensures forall i :: 0 <= i < |s| ==> r[i] == s[|s| - 1 - i]
  {
    if s == [] then [] else [s[|s| - 1]] + Reverse(s[..|s| - 1])
  }

  class SimpleStack<T> {
    var elements: seq<Option<T>>

    constructor ()
      ensures elements == []
    {
      elements := [];
    }

    method Pushback(v: Option<T>)
      modifies this
      ensures elements == old(elements) + [v]
    {
      elements := elements + [v];
    }

    /** Takes the most recently pushed element off the top; `None` (Go's nil) when empty. */
    method Popback() returns (r: Option<T>)
      modifies this
      ensures old(elements) == [] ==> r == None && elements == []
      ensures old(elements) != [] ==> r == old(elements)[|old(elements)| - 1]
      ensures old(elements) != [] ==> elements == old(elements)[..|old(elements)| - 1]
    {
      if elements == [] {
        return None;
      }
      r := elements[|elements| - 1];
      elements := elements[..|elements| - 1];
    }

    method Size() returns (n: nat)
      ensures n == |elements|
    {
      return |elements|;
    }
  }

  /** The values above the topmost nil of `s`, top first: what a loop that pops until
      nil sees. */
  function TopValues<T>(s: seq<Option<T>>): (r: seq<T>)
    ensures |r| <= |s|
    ensures forall i :: 0 <= i < |r| ==> s[|s| - 1 - i] == Some(r[i])
    ensures |r| < |s| ==> s[|s| - 1 - |r|].None?
  {
    if s == [] || s[|s| - 1].None? then [] else [s[|s| - 1].value] + TopValues(s[..|s| - 1])
  }

  /** Popping from the top is reading the reversed stack from the front. */
  lemma {:induction false} TopValuesReversed<T>(s: seq<Option<T>>)
    ensures TopValues(s) == UntilNil(Reverse(s))
    decreases |s|
  {
    if s != [] && s[|s| - 1].Some? {
      var r := Reverse(s);
      assert r[1..] == Reverse(s[..|s| - 1]);
      TopValuesReversed(s[..|s| - 1]);
    }
  }

  /** Pops until Popback yields nil, as the loop in simplestructure/stack_test.go does.
      The values above the topmost nil come out in the reverse of the order they were
      pushed; that nil is consumed, and whatever lies below it stays on the stack. */
  method Drain<T>(s: SimpleStack<T>) returns (popped: seq<T>)
    modifies s
    ensures popped == TopValues(old(s.elements))
    ensures s.elements == if |popped| < |old(s.elements)|
      then old(s.elements)[..|old(s.elements)| - |popped| - 1] else []
  {
    ghost var s0 := s.elements;
    popped := [];
    while true
      invariant popped + TopValues(s.elements) == TopValues(s0)
      invariant |popped| + |s.elements| == |s0| && s.elements == s0[..|s.elements|]
      decreases |s.elements|
    {
      var v := s.Popback();
      if v.None? {
        break;
      }
      popped := popped + [v.value];
    }
  }

  /** simplestructure/stack_test.go: push 0, 1, 2 and drain; the pops give 2, 1, 0. */
  method StackScenario() returns (popped: seq<int>, size: nat)
    ensures popped == [2, 1, 0] && size == 0
  {
    var s := new SimpleStack<int>();
    s.Pushback(Some(0));
    s.Pushback(Some(1));
    s.Pushback(Some(2));
    popped := Drain(s);
    size := s.Size();
  }

  /** The test's loop stops at a pushed nil: push 0, nil, 2 and drain; only 2 comes out
      and 0 stays on the stack. */
  method StackNilScenario() returns (popped: seq<int>, size: nat)
    ensures popped == [2] && size == 1
  {
    var s := new SimpleStack<int>();
    s.Pushback(Some(0));
    s.Pushback(None);
    s.Pushback(Some(2));
    popped := Drain(s);
    size := s.Size();
  }
}
