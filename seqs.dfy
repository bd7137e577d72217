/**
 * Facts about slicing sequences, stated apart so that proofs with many other
 * facts in scope need not rediscover them.
 */
module Seqs {

  /** A sequence around its element at `i`. */
  lemma SplitAround<T>(s: seq<T>, i: int)
    requires 0 <= i < |s|
    ensures s == s[..i] + [s[i]] + s[i + 1..]
  {
  }

  /** Growing a prefix by one element. */
  lemma PrefixOfPrefix<T>(s: seq<T>, i: int)
    requires 0 <= i < |s|
    ensures s[..i + 1][..i] == s[..i] && s[..i + 1][i] == s[i]
  {
  }

  /** The prefix of full length is the whole sequence. */
  lemma WholePrefix<T>(s: seq<T>)
    ensures s[..|s|] == s
  {
  }

  /** Concatenation is associative. */
  lemma AppendAssoc<T>(a: seq<T>, b: seq<T>, c: seq<T>)
    ensures a + b + c == a + (b + c)
  {
  }

  /** Dropping the last element of a concatenation with a non-empty right part. */
  lemma ConcatDropLast<T>(a: seq<T>, b: seq<T>)
    requires b != []
    ensures (a + b)[..|a + b| - 1] == a + b[..|b| - 1] && (a + b)[|a + b| - 1] == b[|b| - 1]
  {
  }

  /** Appending nothing. */
  lemma ConcatEmpty<T>(a: seq<T>)
    ensures a + [] == a
  {
  }

  /** Equal sequences with the same ends have the same middle. */
  lemma CancelEnds<T>(x: seq<T>, m1: seq<T>, m2: seq<T>, y: seq<T>)
    requires x + m1 + y == x + m2 + y
    ensures m1 == m2
  {
    var s := x + m1 + y;
    assert |m1| == |m2|;
    assert m1 == s[|x|..|x| + |m1|];
  }

  /** A non-empty sequence is its first element followed by the rest. */
  lemma Uncons<T>(s: seq<T>)
    requires s != []
    ensures s == [s[0]] + s[1..]
  {
  }

  /** Slicing a concatenation at the seam gives back its parts. */
  lemma SplitAt<T>(u: seq<T>, v: seq<T>, s: seq<T>)
    requires s == u + v
    ensures s[..|u|] == u && s[|u|..] == v
  {
  }

  /** Equal sequences after a common prefix are equal. */
  lemma DropPrefix<T>(p: seq<T>, x: seq<T>, y: seq<T>)
    requires p + x == p + y
    ensures x == y
  {
    assert x == (p + x)[|p|..];
  }

  /** Five parts regrouped around the middle one. */
  lemma Regroup<T>(a: seq<T>, l: seq<T>, m: seq<T>, t: seq<T>, c: seq<T>)
    ensures a + (l + m + t) + c == (a + l) + m + (t + c)
  {
  }

  /** An element at two indices occurs at least twice. */
  lemma OccursTwice<T>(s: seq<T>, i: int, j: int)
    requires 0 <= i < j < |s| && s[i] == s[j]
    ensures multiset(s)[s[i]] >= 2
  {
    assert s == s[..j] + s[j..];
    assert s[i] == s[..j][i] && s[j] == s[j..][0];
  }

  /** An element occurring at least twice sits at two indices. */
  lemma TwiceOccurs<T>(s: seq<T>, x: T) returns (i: int, j: int)
    requires multiset(s)[x] >= 2
    ensures 0 <= i < j < |s| && s[i] == x && s[j] == x
  {
    assert x in multiset(s);
    var k :| 0 <= k < |s| && s[k] == x;
    SplitAround(s, k);
    assert multiset(s) == multiset(s[..k]) + multiset{x} + multiset(s[k + 1..]);
    if x in s[..k] {
      i :| 0 <= i < k && s[..k][i] == x;
      j := k;
    } else {
      assert x in multiset(s[k + 1..]);
      var m :| 0 <= m < |s| - k - 1 && s[k + 1..][m] == x;
      i, j := k, k + 1 + m;
    }
  }
}
