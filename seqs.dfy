/** Facts about sequences used by several proofs, each proved on its own. */
module Seqs {
  lemma ConcatAssoc<T>(a: seq<T>, b: seq<T>, c: seq<T>)
    ensures (a + b) + c == a + (b + c)
  {
  }

  lemma ConcatParts<T>(a: seq<T>, b: seq<T>)
    ensures |a + b| == |a| + |b| && (a + b)[..|a|] == a && (a + b)[|a|..] == b
  {
  }

  lemma SliceDropLast<T>(s: seq<T>, k: nat)
    requires k < |s|
    ensures s[k..] == s[..|s| - 1][k..] + [s[|s| - 1]]
  {
    assert s == s[..|s| - 1] + [s[|s| - 1]];
  }

  lemma PrefixOfExtension<T>(s: seq<T>, prefix: seq<T>, x: T)
    requires |prefix| + 1 <= |s| && s[..|prefix| + 1] == prefix + [x]
    ensures s[..|prefix|] == prefix
  {
    assert s[..|prefix|] == s[..|prefix| + 1][..|prefix|];
  }
}
