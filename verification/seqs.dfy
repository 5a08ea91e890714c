/** Facts about sequences that the proofs use on lists of cookies, of lines and of
    pieces of text.  Stated once, generically, they stay cheap to use in proofs whose
    context is full of facts about cookies. */
module Seqs {

  /** A prefix one longer is the shorter prefix and the next element. */
  lemma TakeSnoc<T>(s: seq<T>, k: nat)
    requires 0 < k <= |s|
    ensures s[..k] == s[..k - 1] + [s[k - 1]]
  {
  }

  /** A non-empty sequence is its front and its last element. */
  lemma InitLast<T>(s: seq<T>)
    requires s != []
    ensures s == s[..|s| - 1] + [s[|s| - 1]]
  {
  }

  /** A non-empty sequence is its first element and its tail. */
  lemma HeadTail<T>(s: seq<T>)
    requires s != []
    ensures s == [s[0]] + s[1..]
  {
  }

  lemma Around<T>(s: seq<T>, k: nat, mid: seq<T>)
    requires k + |mid| <= |s| && s[k..k + |mid|] == mid
    ensures s == s[..k] + mid + s[k + |mid|..]
  {
  }

  lemma TakeAll<T>(s: seq<T>)
    ensures s[..|s|] == s
  {
  }

  lemma TakeTake<T>(s: seq<T>, i: nat, j: nat)
    requires j <= i <= |s|
    ensures s[..i][..j] == s[..j]
  {
  }

  lemma SplitAt<T>(s: seq<T>, k: nat)
    requires k <= |s|
    ensures s == s[..k] + s[k..]
  {
  }

  lemma AppendNil<T>(a: seq<T>)
    ensures a + [] == a && [] + a == a
  {
  }

  /** The front of `a + b` is `a` and the rest is `b`. */
  lemma TakeAppend<T>(a: seq<T>, b: seq<T>)
    ensures (a + b)[..|a|] == a && (a + b)[|a|..] == b
  {
  }

  /** Dropping the last element of `a + b` drops that of `b`. */
  lemma AppendInit<T>(a: seq<T>, b: seq<T>)
    requires b != []
    ensures (a + b)[..|a + b| - 1] == a + b[..|b| - 1]
  {
  }

  /** Dropping the first element of `a + b` drops that of `a`. */
  lemma AppendTail<T>(a: seq<T>, b: seq<T>)
    requires a != []
    ensures (a + b)[1..] == a[1..] + b
  {
  }

  /** The elements from `i` on, then `t`: element `i`, then the rest, then `t`. */
  lemma DropCons<T>(s: seq<T>, i: nat, t: seq<T>)
    requires i < |s|
    ensures s[i..] + t == [s[i]] + (s[i + 1..] + t)
  {
  }

  lemma DropAll<T>(s: seq<T>, t: seq<T>)
    ensures s[|s|..] + t == t
  {
  }

  /** `t` is what is left of `s` after dropping some leading elements. */
  predicate IsSuffix<T(==)>(t: seq<T>, s: seq<T>) {
    |t| <= |s| && t == s[|s| - |t|..]
  }

  /** A suffix of a suffix of `s` is a suffix of `s`. */
  lemma SuffixTrans<T>(a: seq<T>, b: seq<T>, c: seq<T>)
    requires IsSuffix(a, b) && IsSuffix(b, c)
    ensures IsSuffix(a, c)
  {
    assert b[|b| - |a|..] == c[|c| - |a|..];
  }

  lemma DropNone<T>(s: seq<T>)
    ensures IsSuffix(s, s)
  {
  }

  lemma Assoc<T>(a: seq<T>, b: seq<T>, c: seq<T>)
    ensures (a + b) + c == a + (b + c)
  {
  }

  lemma Cons3<T>(x: T, y: T, z: T, rest: seq<T>)
    ensures [x, y, z] + rest == [x] + ([y] + ([z] + rest))
  {
  }
}
