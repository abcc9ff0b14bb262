/**
 Values that may be missing.
 */
module Wrappers {
  datatype Option<+T> = None | Some(value: T)

  /** A sequence that may be missing, behind one that was found before. */
  ghost function Prepend<T>(front: seq<T>, rest: Option<seq<T>>): Option<seq<T>>
  {
    match rest
    case None => None
    case Some(r) => Some(front + r)
  }

  lemma PrependNothing<T>(r: Option<seq<T>>)
    ensures Prepend([], r) == r
  {
    if r.Some? { assert [] + r.value == r.value; }
  }

  lemma PrependToEnd<T>(front: seq<T>)
    ensures Prepend(front, Some([])) == Some(front) && Prepend(front, None) == None
  {
    assert front + [] == front;
  }

  lemma PrependMore<T>(front: seq<T>, x: T, r: Option<seq<T>>)
    ensures Prepend(front, Prepend([x], r)) == Prepend(front + [x], r)
  {
    if r.Some? { assert front + ([x] + r.value) == front + [x] + r.value; }
  }
}
