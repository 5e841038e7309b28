/**
 * Windows onto a typed array: the element range a `subarray` call selects,
 * modelled as a start index and a length instead of an aliasing object.
 */
module TypedView {

  /** The elements [start, start + length) of an array of some length. */
  datatype Window = Window(start: nat, length: nat) {
    /** The first element past the window. */
    function End(): nat { start + length }

    /** True when element i is one of the window's elements. */
    predicate Covers(i: int) { start <= i < start + length }
  }

  /** The clamping of a relative index, as subarray and slice do it. */
  function RelativeIndex(len: nat, i: int): (r: nat)
    ensures r <= len
    ensures 0 <= i <= len ==> r == i
  {
    if i < 0 then (if len + i < 0 then 0 else len + i)
    else if i < len then i else len
  }

  /** `subarray(begin, end)` on an array of len elements. */
  function Subarray(len: nat, begin: int, end: int): (w: Window)
    ensures w.End() <= len
    ensures 0 <= begin <= end <= len ==> w == Window(begin, end - begin)
  {
    var b := RelativeIndex(len, begin);
    var e := RelativeIndex(len, end);
    Window(b, if e > b then e - b else 0)
  }
}
