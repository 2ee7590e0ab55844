/** Linear search over arrays, as the store uses it: `Array.prototype.find`,
    `Array.prototype.some` and `Array.prototype.indexOf` all scan from the
    front and stop at the first hit. */
module Search {

  datatype Option<+T> = None | Some(value: T)

  /** Position of the first element of `s` that satisfies `p`, or `None` when
      no element does. `find` returns the element at this position and `some`
      asks whether there is one. */
  function FirstIndex<T>(s: seq<T>, p: T -> bool): (r: Option<nat>)
    ensures r.Some? ==> r.value < |s| && p(s[r.value])
    ensures r.Some? ==> forall j :: 0 <= j < r.value ==> !p(s[j])
    ensures r.None? <==> forall j :: 0 <= j < |s| ==> !p(s[j])
  {
    if |s| == 0 then None
    else if p(s[0]) then Some(0)
    else
      match FirstIndex(s[1..], p)
      case None => None
      case Some(k) => Some(k + 1)
  }

  /** `indexOf`: the position of the first element equal to `x`, or -1. */
  function IndexOf<T(==)>(s: seq<T>, x: T): (r: int)
    ensures -1 <= r < |s|
    ensures r == -1 <==> x !in s
    ensures 0 <= r ==> s[r] == x && x !in s[..r]
  {
    match FirstIndex(s, y => y == x)
    case None => -1
    case Some(k) => k
  }
}
