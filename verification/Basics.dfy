// What several of the models share.
module Basics {

  // A word of csh.
  type Word = string

  datatype Option<T> = None | Some(value: T)

  datatype Result<T, E> = Ok(value: T) | Err(error: E)

  lemma Slices<T>(w: seq<T>, p1: nat, p2: nat, a: nat, b: nat)
    requires p1 <= p2 <= |w| && a <= b <= p2 - p1
    ensures w[p1..p2][a..b] == w[p1 + a..p1 + b]
  {
    assert w[p1..p2][..b] == w[p1..p1 + b];
    assert w[p1..p1 + b][a..] == w[p1 + a..p1 + b];
  }
}
