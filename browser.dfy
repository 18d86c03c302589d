/** JavaScript arithmetic and DOM flag lists shared by the two scripts. */
module Browser {
  /** JavaScript's `%` on integers: truncated division, the result takes the dividend's sign. */
  function JsRem(a: int, b: int): (r: int)
    requires b > 0
    ensures a >= 0 ==> r == a % b && 0 <= r < b
    ensures a < 0 ==> r == -((-a) % b) && -b < r <= 0
  {
    if a >= 0 then a % b else -((-a) % b)
  }

  /** How many elements of a `classList`-per-element list carry the flag. */
  function CountTrue(s: seq<bool>): (n: nat)
    ensures n <= |s|
  {
    if s == [] then 0 else CountTrue(s[..|s| - 1]) + (if s[|s| - 1] then 1 else 0)
  }

  /** A list whose only flagged element is `i` has one flagged element, or none when `i` is out of range. */
  lemma {:induction false} OneHotCount(s: seq<bool>, i: int)
    requires forall k :: 0 <= k < |s| ==> s[k] == (k == i)
    ensures CountTrue(s) == if 0 <= i < |s| then 1 else 0
  {
    if s != [] {
      OneHotCount(s[..|s| - 1], if i == |s| - 1 then -1 else i);
    }
  }
}
