/** What may be missing. */
module Wrappers {

  datatype Option<+T> = None | Some(value: T)

  function Without<T>(s: seq<T>, k: nat): (r: seq<T>)
    requires k < |s|
    ensures |r| == |s| - 1
    ensures forall i | 0 <= i < |r| :: r[i] == s[if i < k then i else i + 1]
  {
    s[..k] + s[k + 1..]
  }
}
