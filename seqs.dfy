/**
 * Small facts about sequence concatenation. Each is stated on its own so that
 * the proofs using them need no extensionality argument of their own.
 */
module Seqs {
  lemma TailOfAppend<T>(a: seq<T>, b: seq<T>)
    requires a != []
    ensures (a + b)[1..] == a[1..] + b
  {
  }

  lemma HeadThenTail<T>(a: seq<T>, b: seq<T>)
    requires a != []
    ensures [a[0]] + (a[1..] + b) == a + b
  {
  }

  lemma TailOfCons<T>(x: T, b: seq<T>)
    ensures ([x] + b)[1..] == b
  {
  }

  lemma AppendAssoc<T>(a: seq<T>, b: seq<T>, c: seq<T>)
    ensures a + (b + c) == a + b + c
  {
  }

  lemma PrefixSplit<T>(a: seq<T>, s: seq<T>)
    requires a <= s
    ensures |a| <= |s| && s == a + s[|a|..]
  {
    assert s[..|a|] == a;
    assert s == s[..|a|] + s[|a|..];
  }

  lemma AppendEmpty<T>(a: seq<T>)
    ensures a + [] == a && [] + a == a
  {
  }

  lemma DropOfAppend<T>(a: seq<T>, b: seq<T>, k: nat)
    requires k <= |a|
    ensures (a + b)[k..] == a[k..] + b
  {
  }

  lemma DropDrop<T>(s: seq<T>, a: nat, b: nat)
    requires a + b <= |s|
    ensures s[a..][b..] == s[a + b..]
  {
  }

  lemma TakeOfDrop<T>(s: seq<T>, a: nat, b: nat)
    requires a + b <= |s|
    ensures s[a..][..b] == s[a..a + b]
  {
  }

  lemma ConsHeadTail<T>(s: seq<T>)
    requires s != []
    ensures [s[0]] + s[1..] == s
  {
  }

  lemma ConsEnds<T>(x: T, t: seq<T>)
    ensures ([x] + t)[0] == x && |[x] + t| == |t| + 1
    ensures t != [] ==> ([x] + t)[|t|] == t[|t| - 1]
  {
  }
}
