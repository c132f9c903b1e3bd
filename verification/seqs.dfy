/** Facts about sequences in general, stated once so that proofs about the
    text and task models can use them without the solver unfolding the
    particular sequences involved. */
module Seqs {

  lemma PrefixThenRest<T>(s: seq<T>, k: nat)
    requires k <= |s|
    ensures s == s[..k] + s[k..]
  {
  }

  lemma PrefixThenLast<T>(s: seq<T>)
    requires |s| >= 1
    ensures s == s[..|s| - 1] + [s[|s| - 1]]
  {
  }

  lemma Regroup<T>(a: seq<T>, b: seq<T>, c: seq<T>)
    ensures a + b + c == a + (b + c)
  {
  }

  /** The middle part of a five-part concatenation. */
  lemma SliceMiddle<T>(h: seq<T>, a: seq<T>, b: seq<T>, r: seq<T>, z: seq<T>)
    ensures |h + (a + b + r) + z| >= |h| + |a| + |b|
    ensures (h + (a + b + r) + z)[|h| + |a|..|h| + |a| + |b|] == b
  {
    assert h + (a + b + r) + z == (h + a) + b + (r + z);
  }

  /** A slice's prefix is the prefix of the whole sequence at that place. */
  lemma SlicePrefix<T>(c: seq<T>, o: nat, b: seq<T>, k: nat)
    requires o + |b| <= |c| && c[o..o + |b|] == b && k <= |b|
    ensures c[o..o + k] == b[..k]
  {
    assert c[o..o + k] == c[o..o + |b|][..k];
  }
}
