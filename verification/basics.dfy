/** What several modules share: optional values, constant sequences, and the largest `int`. */
module Basics {

  const INT_MAX := 0x7FFF_FFFF

  datatype Option<T> = Some(value: T) | None

  function Fill<T>(v: T, n: nat): (r: seq<T>)
    ensures |r| == n
  {
    seq(n, _ => v)
  }

  lemma Associate<T>(a: seq<T>, b: seq<T>, c: seq<T>)
    ensures a + b + c == a + (b + c)
  {
  }

  lemma {:induction false} MulMono(a: nat, b: nat, c: nat)
    requires b <= c
    ensures a * b <= a * c
    decreases c
  {
    if b < c { MulMono(a, b, c - 1); }
  }
}
