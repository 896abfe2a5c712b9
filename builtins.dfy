/** The small part of Python's built-in behaviour that the station resolver
    relies on: raised exceptions as values, `str.startswith`, string slices,
    `str.lower`, `list.index` and indexing a list with `[0]`. */
module Builtins {

  /** The exceptions the resolver can let escape. */
  datatype Exception = FileNotFoundError | ValueError | IndexError

  /** A Python call either returns a value or raises an exception. */
  datatype Result<T> = Ok(value: T) | Raise(error: Exception)

  /** A Python value that may be `None`. */
  datatype Option<T> = None | Some(value: T)

  /** `s.startswith(prefix)` */
  predicate StartsWith(s: string, prefix: string)
    ensures StartsWith(s, prefix) <==>
            |prefix| <= |s| && forall i :: 0 <= i < |prefix| ==> s[i] == prefix[i]
  {
    |prefix| <= |s| && s[..|prefix|] == prefix
  }

  /** `s[n:]` for a non-negative `n`: empty when `s` has at most `n` characters. */
  function DropFirst(s: string, n: nat): (r: string)
    ensures |s| <= n ==> r == ""
    ensures n < |s| ==> s == s[..n] + r
  {
    if |s| <= n then "" else s[n..]
  }

  /** `s[-n:]` for a positive `n`: the last `n` characters, or all of `s` when it is shorter. */
  function LastN(s: string, n: nat): (r: string)
    requires 0 < n
    ensures |r| == if |s| < n then |s| else n
    ensures s == s[..|s| - |r|] + r
  {
    if |s| <= n then s else s[|s| - n..]
  }

  /** One character of `str.lower`, restricted to ASCII letters. */
  function LowerChar(c: char): char
  {
    if 'A' <= c <= 'Z' then (c as int - 'A' as int + 'a' as int) as char else c
  }

  /** `s.lower()`, approximated by ASCII lowercasing. */
  function Lower(s: string): (r: string)
    ensures |r| == |s|
    ensures forall i :: 0 <= i < |s| ==> r[i] == LowerChar(s[i])
  {
    seq(|s|, i requires 0 <= i < |s| => LowerChar(s[i]))
  }

  /** Lowercasing a lowered string changes nothing. */
  lemma LowerIsIdempotent(s: string)
    ensures Lower(Lower(s)) == Lower(s)
  {
    var t := Lower(s);
    assert forall i :: 0 <= i < |t| ==> LowerChar(t[i]) == t[i];
  }

  /** `xs.index(x)`: the position of the first occurrence of `x`, or `ValueError`. */
  function IndexOf<T(==)>(xs: seq<T>, x: T): (r: Result<nat>)
    ensures r.Ok? <==> x in xs
    ensures r.Ok? ==> r.value < |xs| && xs[r.value] == x
    ensures r.Ok? ==> forall j :: 0 <= j < r.value ==> xs[j] != x
    ensures r.Raise? ==> r.error == ValueError
  {
    if xs == [] then Raise(ValueError)
    else if xs[0] == x then Ok(0)
    else
      match IndexOf(xs[1..], x)
      case Ok(i) => Ok(i + 1)
      case Raise(e) => Raise(e)
  }

  /** `xs[0]`: the first element, or `IndexError` on an empty list. */
  function First<T>(xs: seq<T>): (r: Result<T>)
    ensures r.Ok? <==> xs != []
    ensures r.Ok? ==> r.value == xs[0]
    ensures r.Raise? ==> r.error == IndexError
  {
    if xs == [] then Raise(IndexError) else Ok(xs[0])
  }
}
