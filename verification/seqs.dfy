/** Small facts about sequence concatenation and slicing, proved once in an
    empty context so that the proofs that use them stay cheap. */
module Sequences {
  lemma Reassociate<T>(a: seq<T>, b: seq<T>, c: seq<T>, d: seq<T>)
    ensures a + (b + (c + d)) == a + ((b + c) + d)
  {
  }

  lemma Regroup4<T>(x: seq<T>, a: seq<T>, u: seq<T>, b: seq<T>)
    ensures x + a + u + b == x + (a + (u + b)) && x + a + b == x + (a + b)
  {
  }

  lemma DropFirst<T>(x: T, r: seq<T>)
    ensures ([x] + r)[1..] == r
  {
  }

  lemma RejoinAt<T>(a: seq<T>, b: seq<T>, n: nat)
    requires n <= |a|
    ensures a[..n] + (a[n..] + b) == a + b
  {
    assert a == a[..n] + a[n..];
  }

  lemma SliceAfter<T>(h: seq<T>, t: seq<T>, i: nat, j: nat)
    requires i <= j <= |t|
    ensures (h + t)[|h| + i .. |h| + j] == t[i..j]
  {
  }
}
