/** What several parts share. */
module Wrappers {
  /** The result of an operation that may fail; ui_badnews unwinds to the command loop, so a failure
      carries nothing. */
  datatype Option<+T> = None | Some(value: T) {
    predicate IsFailure() { None? }
    function PropagateFailure<U>(): Option<U>
      requires None?
    {
      None
    }
    function Extract(): T
      requires Some?
    {
      value
    }
  }

  /** a & ~3 */
  function Align(a: int): (r: int)
    ensures r % 4 == 0 && r <= a < r + 4 && (0 <= a ==> 0 <= r)
  {
    a - a % 4
  }
}
