/** Rearranging sequences; the equalities that the theory of sequences does not apply unasked. */
module Sequences {
  lemma ConcatAssoc<T>(x: seq<T>, y: seq<T>, z: seq<T>)
    ensures (x + y) + z == x + (y + z)
  {
  }

  lemma DropConcat<T>(x: seq<T>, y: seq<T>, n: nat)
    requires n <= |x|
    ensures (x + y)[n..] == x[n..] + y
  {
  }

  lemma DropDrop<T>(x: seq<T>, n: nat, m: nat)
    requires n + m <= |x|
    ensures x[n..][m..] == x[n + m..]
  {
  }

  lemma ConsAgree<T>(x: T, a: seq<T>, b: seq<T>)
    ensures [x] + a == [x] + b <==> a == b
  {
    assert ([x] + a)[1..] == a && ([x] + b)[1..] == b;
  }
}
