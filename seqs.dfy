/** Sequence identities, each proved once in a small context so that the
    proofs using them need no extensional reasoning of their own. */
module Seqs {
  /** A non-empty sequence is its front followed by its last element. */
  lemma Snoc<T>(xs: seq<T>)
    requires |xs| > 0
    ensures xs == xs[..|xs| - 1] + [xs[|xs| - 1]]
  {
  }

  /** Appending in two steps or one. */
  lemma AppendAssoc<T>(a: seq<T>, b: seq<T>, c: seq<T>)
    ensures a + b + c == a + (b + c)
  {
  }

  /** Appending nothing. */
  lemma AppendNothing<T>(a: seq<T>)
    ensures a + [] == a && [] + a == a
  {
  }

  /** The first `i` elements of the first `i + 1`. */
  lemma TakeTake<T>(xs: seq<T>, i: nat)
    requires i < |xs|
    ensures xs[..i + 1][..i] == xs[..i]
    ensures xs[..i + 1] == xs[..i] + [xs[i]]
  {
  }

  /** Taking everything. */
  lemma TakeAll<T>(xs: seq<T>)
    ensures xs[..|xs|] == xs
  {
  }

  /** A slice grown by one element. */
  lemma SliceGrow<T>(xs: seq<T>, a: nat, b: nat)
    requires a <= b < |xs|
    ensures xs[a..b + 1] == xs[a..b] + [xs[b]]
    ensures xs[a..b + 1][..b - a] == xs[a..b]
  {
  }

  /** A suffix cut in two. */
  lemma DropSplit<T>(xs: seq<T>, a: nat, b: nat)
    requires a <= b <= |xs|
    ensures xs[a..] == xs[a..b] + xs[b..]
  {
  }

  /** Nothing is left after the end. */
  lemma DropAll<T>(xs: seq<T>, a: nat)
    requires a == |xs|
    ensures xs[a..] == []
  {
  }
}
