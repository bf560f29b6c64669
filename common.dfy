/** Values shared by every part of the model manager: optional values and
    the truthiness rule that Python applies to the optional text columns. */
module Common {

  datatype Option<+T> = None | Some(value: T)

  /** A nullable text column or dictionary value: `None` is SQL NULL / Python `None`. */
  type Text = Option<string>

  /** Python truthiness of a nullable string: both `None` and `""` are falsy. */
  predicate Truthy(t: Text) {
    t.Some? && t.value != ""
  }

  /** Python's `a or b` on nullable strings. */
  function Or(a: Text, b: Text): Text
  {
    if Truthy(a) then a else b
  }

  /** One byte of a file. */
  newtype byte = x: int | 0 <= x < 256

  /** Python's `s[:n]` for `n >= 0`. */
  function Take<T>(s: seq<T>, n: nat): (r: seq<T>)
    ensures |r| == Min(n, |s|) && r == s[..|r|]
  {
    s[..Min(n, |s|)]
  }

  function Min(a: int, b: int): (m: int)
    ensures m <= a && m <= b && (m == a || m == b)
  {
    if a <= b then a else b
  }
}
