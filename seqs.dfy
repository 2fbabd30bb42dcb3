/**
 Small facts about sequence concatenation, stated once for any element type
 so that the proofs about strings and lists of strings can cite them.
 */
module Seqs {

  lemma AppendAssoc<T>(a: seq<T>, b: seq<T>, c: seq<T>)
    ensures (a + b) + c == a + (b + c)
  {
  }

  lemma EmptyAppend<T>(b: seq<T>)
    ensures [] + b == b && b + [] == b
  {
  }

  lemma HeadTail<T>(s: seq<T>)
    requires s != []
    ensures [s[0]] + s[1..] == s
  {
  }

  lemma DropOne<T>(s: seq<T>, i: nat)
    requires i < |s|
    ensures s[i..][0] == s[i] && s[i..][1..] == s[i + 1..]
  {
  }

  lemma ConsAppend<T>(a: seq<T>, b: seq<T>)
    requires a != []
    ensures (a + b)[0] == a[0] && (a + b)[1..] == a[1..] + b
  {
  }

  lemma SnocOne<T>(x: T, y: T)
    ensures [x] + [y] == [x, y]
  {
  }

  lemma SnocTwo<T>(x: T, y: T, z: T)
    ensures [x, y] + [z] == [x, y, z]
  {
  }

  lemma SnocThree<T>(x: T, y: T, z: T, w: T)
    ensures [x, y, z] + [w] == [x, y, z, w]
  {
  }

  lemma TailOfFour<T>(a: T, b: T, c: T, d: T)
    ensures [a, b, c, d][0] == a && [a, b, c, d][1..] == [b, c, d]
    ensures [b, c, d][1..] == [c, d] && [c, d][1..] == [d] && [d][1..] == []
  {
  }

  lemma TailOfThree<T>(a: T, b: T, c: T)
    ensures [a, b, c][0] == a && [a, b, c][1..] == [b, c] && [b, c][1..] == [c] && [c][1..] == []
  {
  }
}
