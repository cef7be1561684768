/** The nil sentinel of the Go containers and vertex lookups, as a value. */
module Wrappers {

  /** `None` stands for Go's `nil`; `Some(v)` for a present value `v`. */
  datatype Option<+T> = None | Some(value: T)

  /** The index of the first nil in `s`, or `|s|` when there is none. */
  function FirstNil<T>(s: seq<Option<T>>): (k: nat)
    ensures k <= |s|
    ensures forall i :: 0 <= i < k ==> s[i].Some?
    ensures k < |s| ==> s[k].None?
  {
    if s == [] || s[0].None? then 0 else 1 + FirstNil(s[1..])
  }

  /** The values in front of the first nil of `s`: what a loop that stops at nil sees. */
  function UntilNil<T>(s: seq<Option<T>>): (r: seq<T>)
    ensures |r| == FirstNil(s)
    ensures forall i :: 0 <= i < |r| ==> s[i] == Some(r[i])
  {
    if s == [] || s[0].None? then [] else [s[0].value] + UntilNil(s[1..])
  }
}
