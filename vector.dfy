/**
 * The ordered vector of simplestructure/vector.go: a slice of `interface{}` slots,
 * rewritten in place by append, copy and index assignment. A slot may hold `nil`,
 * so the slots are `Option<T>` values; `None` is also the "nothing there" result
 * of Remove, Popback, Popfront and At.
 */
module SimpleVectors {
  import opened Wrappers

  datatype VectorError = IndexOutOfRange

  /** `s` with the slot at `i` cut out and the tail shifted left, as `append(s[:i], s[i+1:]...)`. */
  function RemoveAt<X>(s: seq<X>, i: nat): (r: seq<X>)
    requires i < |s|
    ensures |r| == |s| - 1
    ensures forall j :: 0 <= j < i ==> r[j] == s[j]
    ensures forall j :: i <= j < |r| ==> r[j] == s[j + 1]
    ensures multiset(r) + multiset{s[i]} == multiset(s)
  {
    assert s == s[..i] + [s[i]] + s[i + 1..];
    s[..i] + s[i + 1..]
  }

  /** A true insertion: `x` lands at `i` and every element from `i` on moves one slot right. */
  function InsertedAt<X>(s: seq<X>, x: X, i: nat): (r: seq<X>)
    requires i <= |s|
    ensures |r| == |s| + 1 && r[i] == x
    ensures forall j :: 0 <= j < i ==> r[j] == s[j]
    ensures forall j :: i <= j < |s| ==> r[j + 1] == s[j]
    ensures multiset(r) == multiset(s) + multiset{x}
  {
    assert s == s[..i] + s[i..];
    s[..i] + [x] + s[i..]
  }

  /**
   * What Insert does to the slice for `0 <= next <= |s|`: append a nil slot, copy
   * `data[next+1:]` onto `data[next:]` (a shift to the LEFT), then store `v` at `next`.
   */
  function InsertAsWritten<X>(s: seq<Option<X>>, v: Option<X>, next: nat): (r: seq<Option<X>>)
    requires next <= |s|
  {
    var grown := s + [None];
    var copied := grown[..next] + grown[next + 1..] + [grown[|grown| - 1]];
    copied[next := v]
  }

  /** Removing what was just inserted gives the original slice back. */
  lemma RemoveUndoesInsert<X>(s: seq<X>, x: X, i: nat)
    requires i <= |s|
    ensures RemoveAt(InsertedAt(s, x, i), i) == s
  {
    var r := InsertedAt(s, x, i);
    assert r[..i] == s[..i];
    assert r[i + 1..] == s[i..];
    assert s == s[..i] + s[i..];
  }

  /** Insert as written keeps the prefix and puts `v` at `next`, grows by one slot, but loses the
      element that was at `next` and pads the end with nil whenever `next` is not the last slot. */
  lemma {:induction false} InsertAsWrittenShape<X>(s: seq<Option<X>>, v: Option<X>, next: nat)
    requires next <= |s|
    ensures |InsertAsWritten(s, v, next)| == |s| + 1
    ensures next == |s| ==> InsertAsWritten(s, v, next) == s + [v]
    ensures next == |s| - 1 ==> InsertAsWritten(s, v, next) == s[..next] + [v, None]
    ensures next + 1 < |s| ==> InsertAsWritten(s, v, next) == s[..next] + [v] + s[next + 2..] + [None, None]
  {
    var grown := s + [None];
    var copied := grown[..next] + grown[next + 1..] + [grown[|grown| - 1]];
    assert grown[..next] == s[..next];
    if next + 1 < |s| {
      assert grown[next + 1..] == [s[next + 1]] + s[next + 2..] + [None];
    } else if next + 1 == |s| {
      assert grown[next + 1..] == [None];
    } else {
      assert grown[next + 1..] == [];
    }
  }

  /** The slice [1, 2, 3] with 9 inserted at 1 becomes [1, 9, nil, nil]: 2 and 3 are gone,
      and removing slot 1 again does not give [1, 2, 3] back. */
  lemma InsertAsWrittenLosesElements()
    ensures InsertAsWritten([Some(1), Some(2), Some(3)], Some(9), 1) == [Some(1), Some(9), None, None]
    ensures RemoveAt(InsertAsWritten([Some(1), Some(2), Some(3)], Some(9), 1), 1) != [Some(1), Some(2), Some(3)]
  {
    InsertAsWrittenShape([Some(1), Some(2), Some(3)], Some(9), 1);
  }

  class SimpleVector<T(==)> {
    var data: seq<Option<T>>

    constructor ()
      ensures data == []
    {
      data := [];
    }

    method Pushback(v: Option<T>)
      modifies this
      ensures data == old(data) + [v]
    {
      data := data + [v];
    }

    /** Insert as the source writes it. An index past the end makes Go's slicing panic,
        so callers must keep `next <= Len()`. */
    method Insert(v: Option<T>, next: int)
      requires next <= |data|
      modifies this
      ensures next < 0 ==> data == old(data)
      ensures 0 <= next ==> data == InsertAsWritten(old(data), v, next)
    {
      if next < 0 {
        return;
      }
      data := data + [None];
      data := data[..next] + data[next + 1..] + [data[|data| - 1]];
      data := data[next := v];
    }

    /** Insert with the copy in the evident direction (`copy(data[next+1:], data[next:])`). */
    method InsertShifting(v: Option<T>, next: int)
      requires next <= |data|
      modifies this
      ensures next < 0 ==> data == old(data)
      ensures 0 <= next ==> data == InsertedAt(old(data), v, next)
    {
      if next < 0 {
        return;
      }
      data := data + [None];
      data := data[..next + 1] + data[next..|data| - 1];
      data := data[next := v];
    }

    method Replace(index: int, v: Option<T>) returns (err: Option<VectorError>)
      modifies this
      ensures err.Some? <==> index < 0 || index >= |old(data)|
      ensures err.Some? ==> data == old(data)
      ensures err.None? ==> data == old(data)[index := v]
    {
      if index > |data| - 1 || index < 0 {
        return Some(IndexOutOfRange);
      }
      data := data[index := v];
      return None;
    }

    method Remove(index: int) returns (r: Option<T>)
      modifies this
      ensures !(0 <= index < |old(data)|) ==> r == None && data == old(data)
      ensures 0 <= index < |old(data)| ==> r == old(data)[index] && data == RemoveAt(old(data), index)
    {
      if index < 0 {
        return None;
      }
      if index > |data| - 1 {
        return None;
      }
      r := data[index];
      data := data[..index] + data[index + 1..];
    }

    method Popback() returns (r: Option<T>)
      modifies this
      ensures old(data) == [] ==> r == None && data == []
      ensures old(data) != [] ==> r == old(data)[|old(data)| - 1] && data == old(data)[..|old(data)| - 1]
    {
      r := Remove(|data| - 1);
    }

    method Popfront() returns (r: Option<T>)
      modifies this
      ensures old(data) == [] ==> r == None && data == []
      ensures old(data) != [] ==> r == old(data)[0] && data == old(data)[1..]
    {
      r := Remove(0);
    }

    method At(index: int) returns (r: Option<T>)
      ensures 0 <= index < |data| ==> r == data[index]
      ensures !(0 <= index < |data|) ==> r == None
    {
      if index < 0 {
        return None;
      }
      if index > |data| - 1 {
        return None;
      }
      return data[index];
    }

    /** Linear scan for the first slot equal to `v`. */
    method Find(v: Option<T>) returns (i: int)
      ensures -1 <= i < |data|
      ensures i >= 0 ==> data[i] == v && v !in data[..i]
      ensures i == -1 <==> v !in data
    {
      var k := 0;
      while k < |data|
        invariant 0 <= k <= |data|
        invariant v !in data[..k]
      {
        if v == data[k] {
          return k;
        }
        assert data[..k + 1] == data[..k] + [data[k]];
        k := k + 1;
      }
      assert data[..k] == data;
      return -1;
    }

    method Len() returns (n: nat)
      ensures n == |data|
    {
      return |data|;
    }

    method Data() returns (d: seq<Option<T>>)
      ensures d == data
    {
      return data;
    }
  }

  /** The sequence of calls in simplestructure/vector_test.go: push 0..4, pop from both ends,
      then remove index 3 from the three slots that are left. */
  method VectorScenario() returns (back: Option<int>, front: Option<int>, removed: Option<int>, rest: seq<Option<int>>)
    ensures back == Some(4) && front == Some(0) && removed == None
    ensures rest == [Some(1), Some(2), Some(3)]
  {
    var vec := new SimpleVector<int>();
    vec.Pushback(Some(0));
    vec.Pushback(Some(1));
    vec.Pushback(Some(2));
    vec.Pushback(Some(3));
    vec.Pushback(Some(4));
    back := vec.Popback();
    front := vec.Popfront();
    removed := vec.Remove(3);
    rest := vec.Data();
  }
}
