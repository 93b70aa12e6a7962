/**
 * Small facts about sequences, stated once for any element type so that
 * proofs about packets and queues can cite them instead of re-deriving
 * them in a large context.
 */
module Seqs {
  /** A sequence is its first `n` elements followed by the rest. */
  lemma TakeDrop<T>(s: seq<T>, n: nat)
    requires n <= |s|
    ensures s == s[..n] + s[n..]
  {
  }

  /** Nothing put in front changes nothing. */
  lemma EmptyFront<T>(s: seq<T>)
    ensures s == [] + s
  {
  }

  /** Appending nothing leaves a sequence as it is. */
  lemma EmptyBack<T>(s: seq<T>)
    ensures s == s + []
  {
  }

  /** A sequence splits around its `i`-th element. */
  lemma SplitAt<T>(s: seq<T>, i: nat)
    requires i < |s|
    ensures s == s[..i] + ([s[i]] + s[i + 1..])
  {
  }

  /** The two halves of a concatenation. */
  lemma Halves<T>(a: seq<T>, b: seq<T>)
    ensures (a + b)[..|a|] == a && (a + b)[|a|..] == b
  {
  }

  /** Two one-element sequences joined make the pair. */
  lemma Pair<T>(a: T, b: T)
    ensures [a] + [b] == [a, b]
  {
  }

  /** The head and the tail of a sequence with a first element put in front. */
  lemma Cons<T>(x: T, s: seq<T>)
    ensures ([x] + s)[0] == x && ([x] + s)[1..] == s
  {
  }

  /** Concatenation is associative. */
  lemma Associative<T>(a: seq<T>, b: seq<T>, c: seq<T>)
    ensures a + (b + c) == (a + b) + c
  {
  }
}
