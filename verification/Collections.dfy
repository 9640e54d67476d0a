/** What several modules need: optional values, and removal from a sequence. */
module Collections {
  datatype Option<+T> = None | Some(value: T)

  /** s with the element at i erased. */
  function Without<T>(s: seq<T>, i: nat): (r: seq<T>)
    requires i < |s|
    ensures |r| == |s| - 1
    ensures forall j :: 0 <= j < |r| ==> r[j] == s[if j < i then j else j + 1]
  {
    s[..i] + s[i + 1..]
  }
}
