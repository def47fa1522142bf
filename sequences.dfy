/** Shape facts about sequences that the proofs of the other modules use. */
module Sequences {

  /** A non-empty sequence is its first element followed by the rest, also with more after it. */
  lemma SplitFirst<T>(a: seq<T>, m: seq<T>)
    requires a != []
    ensures a == [a[0]] + a[1..]
    ensures a + m == [a[0]] + (a[1..] + m)
  {
  }

  /** A non-empty sequence is its front followed by its last element, also after something else. */
  lemma SplitLast<T>(a: seq<T>, b: seq<T>)
    requires b != []
    ensures b == b[..|b| - 1] + [b[|b| - 1]]
    ensures a + b == (a + b[..|b| - 1]) + [b[|b| - 1]]
  {
  }

  /** Appending after a non-empty sequence keeps its head and appends to its tail. */
  lemma HeadTailAppend<T>(r: seq<T>, q: seq<T>)
    requires r != []
    ensures (r + q)[0] == r[0] && (r + q)[1..] == r[1..] + q
  {
  }

  lemma AppendAssoc<T>(x: seq<T>, y: seq<T>, z: seq<T>)
    ensures x + y + z == x + (y + z)
  {
  }

  lemma ConsAppend<T>(x: T, r: seq<T>, q: seq<T>)
    ensures [x] + (r + q) == ([x] + r) + q
  {
  }

  /** The first `j + 1` elements are the first `j` and then element `j`. */
  lemma TakeSnoc<T>(a: seq<T>, s: seq<T>, j: nat)
    requires j < |s|
    ensures s[..j + 1] == s[..j] + [s[j]]
    ensures a + s[..j + 1] == (a + s[..j]) + [s[j]]
  {
  }

  lemma TakeAll<T>(s: seq<T>)
    ensures s[..|s|] == s && s[0..] == s && s + [] == s && [] + s == s
  {
  }

  /** A sequence is the concatenation of its first `i` elements and the rest. */
  lemma TakeDrop<T>(s: seq<T>, i: nat)
    requires i <= |s|
    ensures s == s[..i] + s[i..]
  {
  }
}
