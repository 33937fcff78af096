/** Regrouping facts about sequences, stated once for any element type so
    that the proofs about the tree can use them without reasoning about
    sequence equality in a large context. */
module Seqs {

  /** A non-empty sequence is its head followed by its tail. */
  lemma ConsAppend<T>(a: seq<T>, u: seq<T>)
    requires a != []
    ensures [a[0]] + (a[1..] + u) == a + u
  {
    assert a == [a[0]] + a[1..];
  }

  /** Replacing element `k + 1` of `ts` is the head followed by the tail with
      element `k` replaced. */
  lemma ConsSplice<T>(ts: seq<T>, k: nat, p: T)
    requires k + 1 < |ts|
    ensures [ts[0]] + (ts[1..][..k] + [p] + ts[1..][k + 1..]) == ts[..k + 1] + [p] + ts[k + 2..]
  {
    assert ts[1..][..k] == ts[1..k + 1];
    assert ts[..k + 1] == [ts[0]] + ts[1..k + 1];
  }

  /** A prefix one longer is the prefix followed by the next element. */
  lemma TakeSnoc<T>(s: seq<T>, i: nat)
    requires i < |s|
    ensures s[..i + 1] == s[..i] + [s[i]]
  {
  }

  lemma AppendAssoc<T>(a: seq<T>, b: seq<T>, c: seq<T>)
    ensures (a + b) + c == a + (b + c)
  {
  }

  /** The head and the tail of `a + b` when `a` is not empty. */
  lemma AppendCons<T>(a: seq<T>, b: seq<T>)
    requires a != []
    ensures (a + b)[0] == a[0] && (a + b)[1..] == a[1..] + b
  {
  }

  /** `s` split around its element `k`. */
  lemma SpliceAt<T>(s: seq<T>, k: nat)
    requires k < |s|
    ensures s == s[..k] + [s[k]] + s[k + 1..]
  {
  }
}
