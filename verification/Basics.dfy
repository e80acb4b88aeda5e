/** What several models need and none of them is about. */
module Basics {

  /** A value that may be missing: a null pointer or a failed search in the sources. */
  datatype Option<T> = None | Some(value: T)

  /** s without its element i. */
  function Without<T>(s: seq<T>, i: nat): seq<T>
    requires i < |s|
  {
    s[..i] + s[i + 1..]
  }

  lemma MulSucc(a: nat, n: nat)
    ensures a * (n + 1) == a * n + a
  {
  }

  lemma MulMono(a: nat, b: nat, n: nat)
    requires a <= b
    ensures a * n <= b * n
  {
  }

  /** n times a size, as a sum. */
  function Multiple(size: nat, n: nat): nat {
    if n == 0 then 0 else size + Multiple(size, n - 1)
  }

  lemma {:induction false} MultipleIsProduct(size: nat, n: nat)
    ensures Multiple(size, n) == size * n
  {
    if n > 0 {
      MultipleIsProduct(size, n - 1);
      MulSucc(size, n - 1);
    }
  }
}
