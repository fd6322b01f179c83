/**
  Small facts about sequence concatenation. Stating them once, for any element
  type, keeps the solver from re-deriving sequence equalities inside the
  proofs about the reader and the text functions.
 */
module Seqs {

  lemma AppendAssoc<T>(a: seq<T>, b: seq<T>, c: seq<T>)
    ensures a + (b + c) == (a + b) + c
  {
  }

  lemma AppendEmpty<T>(a: seq<T>, b: seq<T>)
    requires a == [] || b == []
    ensures a + b == if a == [] then b else a
  {
  }

  /** A non-empty sequence is its front and then its last element. */
  lemma LastSplit<T>(s: seq<T>)
    requires |s| > 0
    ensures s[..|s| - 1] + [s[|s| - 1]] == s
  {
  }

  lemma AppendLast<T>(l: seq<T>, s: seq<T>)
    requires |s| > 0
    ensures l + s == (l + s[..|s| - 1]) + [s[|s| - 1]]
  {
    LastSplit(s);
  }

  lemma AppendFirst<T>(l: seq<T>, s: seq<T>)
    requires |s| > 0
    ensures l + s == (l + [s[0]]) + s[1..]
  {
    assert s == [s[0]] + s[1..];
  }

  /** A concatenation starts like its first part, and after that starts runs on. */
  lemma AppendRest<T>(a: seq<T>, b: seq<T>)
    requires |a| > 0
    ensures (a + b)[0] == a[0] && (a + b)[1..] == a[1..] + b
  {
  }

  lemma AppendTwo<T>(l: seq<T>, x: T, y: T)
    ensures l + [x] + [y] == l + [x, y]
  {
  }

  lemma AppendThree<T>(l: seq<T>, x: T, y: T, z: T)
    ensures l + [x] + [y] + [z] == l + [x, y, z]
  {
  }

  lemma AppendFour<T>(l: seq<T>, x: T, y: T, z: T, w: T)
    ensures l + [x] + [y] + [z] + [w] == l + [x, y, z, w]
  {
  }
}
