/** Small things that several modules use. */
module Basics {

  datatype Option<T> = None | Some(value: T)

  function Min(x: int, y: int): (m: int) { if x < y then x else y }

  /** Elements i, ..., j - 1 replaced by the element a. */
  function Splice<T>(s: seq<T>, i: int, j: int, a: T): (t: seq<T>)
    requires 0 <= i <= j <= |s|
    ensures |t| == |s| - j + i + 1 && t[i] == a
    ensures forall k :: 0 <= k < i ==> t[k] == s[k]
    ensures forall k :: i < k < |t| ==> t[k] == s[k - i - 1 + j]
  {
    s[..i] + [a] + s[j..]
  }

  function Without<T>(s: seq<T>, i: int): (t: seq<T>)
    requires 0 <= i < |s|
    ensures |t| == |s| - 1
    ensures forall k :: 0 <= k < i ==> t[k] == s[k]
    ensures forall k :: i <= k < |t| ==> t[k] == s[k + 1]
  {
    s[..i] + s[i + 1..]
  }
}
