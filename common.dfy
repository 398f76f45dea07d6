/** Small value types and sequence helpers shared by the puzzle modules. */
module Common {

  datatype Option<T> = None | Some(value: T)

  function Abs(x: int): (r: int) {
    if x < 0 then -x else x
  }

  /** The last element of a non-empty sequence. */
  function Last<T>(s: seq<T>): (r: T)
    requires |s| > 0
  {
    s[|s| - 1]
  }

  /** The elements of `s` in the opposite order (Python's `list.reverse()`). */
  function Reverse<T>(s: seq<T>): (r: seq<T>)
    ensures |r| == |s|
    ensures forall i :: 0 <= i < |s| ==> r[i] == s[|s| - 1 - i]
  {
    seq(|s|, i requires 0 <= i < |s| => s[|s| - 1 - i])
  }

  /** Appending at the back is prepending to the reversal. */
  lemma ReverseSnoc<T>(s: seq<T>, x: T)
    ensures Reverse(s + [x]) == [x] + Reverse(s)
  {
  }
}
