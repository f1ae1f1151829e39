/** Small sequence helpers shared by the validators, the account store and the recommender. */
module Common {

  datatype Option<T> = None | Some(value: T)

  function Min(a: int, b: int): int
  {
    if a <= b then a else b
  }

  /** Length of the longest prefix of `s` whose elements all satisfy `p`. */
  function Span<T>(s: seq<T>, p: T -> bool): (k: nat)
    ensures k <= |s|
    ensures forall i :: 0 <= i < k ==> p(s[i])
    ensures k < |s| ==> !p(s[k])
  {
    if s == [] || !p(s[0]) then 0 else 1 + Span(s[1..], p)
  }

  /** Position of the first element satisfying `p`, as a cursor's `fetchone` or a pandas
      boolean mask followed by `.index[0]` would find it. */
  function FirstMatch<T>(s: seq<T>, p: T -> bool): (r: Option<nat>)
    ensures r.Some? ==> r.value < |s| && p(s[r.value])
    ensures forall i :: 0 <= i < |s| && (r.None? || i < r.value) ==> !p(s[i])
  {
    var k := Span(s, x => !p(x));
    if k == |s| then None else Some(k)
  }

  /** Position of the last element satisfying `p`. */
  function LastMatch<T>(s: seq<T>, p: T -> bool): (r: Option<nat>)
    ensures r.Some? ==> r.value < |s| && p(s[r.value])
    ensures forall i :: 0 <= i < |s| && (r.None? || r.value < i) ==> !p(s[i])
  {
    if s == [] then None
    else if p(s[|s| - 1]) then Some(|s| - 1)
    else LastMatch(s[..|s| - 1], p)
  }
}
