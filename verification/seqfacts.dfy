/**
 * Facts about concatenation and slicing, proved apart from the string functions so that
 * their definitions do not enter these proofs.
 */
module SeqFacts {
  /** Concatenation regroups. */
  lemma AppendAssoc<T>(a: seq<T>, b: seq<T>, c: seq<T>)
    ensures a + b + c == a + (b + c)
  {
  }

  /** The parts of a concatenation are its slices. */
  lemma AppendSlices<T>(a: seq<T>, b: seq<T>)
    ensures (a + b)[..|a|] == a && (a + b)[|a|..] == b
    ensures a + [] == a
  {
  }

  /** A sequence is its prefix up to `k` followed by the rest. */
  lemma SplitAt<T>(s: seq<T>, k: nat)
    requires k <= |s|
    ensures s[..k] + s[k..] == s
  {
  }

  /** The elements of a sequence with one element put in front. */
  lemma ConsElements<T>(x: T, s: seq<T>)
    ensures |[x] + s| == |s| + 1 && ([x] + s)[0] == x
    ensures forall i | 1 <= i <= |s| :: ([x] + s)[i] == s[i - 1]
  {
  }

  /** Dropping the first element of a concatenation drops it from the first part. */
  lemma TailOfAppend<T>(a: seq<T>, b: seq<T>)
    requires a != []
    ensures (a + b)[0] == a[0] && (a + b)[1..] == a[1..] + b
  {
  }

  /** A prefix stays a prefix of any longer prefix of the same sequence. */
  lemma PrefixOfPrefix<T>(p: seq<T>, l: seq<T>, n: nat)
    requires p <= l && |p| <= n <= |l|
    ensures p <= l[..n]
  {
  }

  /** The last element. */
  function Last<T>(s: seq<T>): T
    requires s != []
  {
    s[|s| - 1]
  }

  /** Putting an element in front of a non-empty sequence keeps its last element. */
  lemma LastOfCons<T>(a: seq<T>, x: T, s: seq<T>)
    requires s != [] && a == [x] + s
    ensures Last(a) == Last(s)
  {
  }

  /** A non-empty sequence is its first element followed by the rest. */
  lemma HeadTail<T>(s: seq<T>)
    requires s != []
    ensures [s[0]] + s[1..] == s
  {
  }

  /** A sequence is what precedes position `j`, the element there, and what follows. */
  lemma SplitAround<T>(s: seq<T>, j: nat)
    requires j < |s|
    ensures s == s[..j] + [s[j]] + s[j + 1..]
  {
  }

  /** A sequence is its last element after everything before it. */
  lemma InitLast<T>(s: seq<T>)
    requires s != []
    ensures s[..|s| - 1] + [s[|s| - 1]] == s
  {
  }

  /** A prefix of a prefix is a prefix, also of any extension. */
  lemma PrefixTrans<T>(a: seq<T>, b: seq<T>, c: seq<T>, d: seq<T>)
    requires a <= b && b <= c
    ensures a <= c + d
  {
    assert c + d == c[..|b|] + (c[|b|..] + d);
  }

  /** A field line `head`, a space, then the tags between backticks. */
  lemma TaggedLine(head: string, tags: string)
    ensures var line, before := head + " `" + tags + "`", head + " ";
      && line == before + "`" + tags + "`" + ""
      && before == head + [' ']
      && |before| == |head| + 1 && line[|before|] == '`'
      && line[..|before|] == before
  {
  }
}
