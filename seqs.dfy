/**
  Facts about sequences that hold whatever their elements are, kept apart
  so that proving them does not bring in the facts of the collector's own
  definitions.
 */
module Seqs {

  /** A non-empty sequence is its head followed by its tail. */
  lemma HeadTail<T>(s: seq<T>)
    requires s != []
    ensures [s[0]] + s[1..] == s
  {
  }

  /** A non-empty sequence is its front followed by its last element. */
  lemma FrontLast<T>(s: seq<T>)
    requires s != []
    ensures s == s[..|s| - 1] + [s[|s| - 1]]
  {
  }

  /** One element longer prefix. */
  lemma PrefixSnoc<T>(s: seq<T>, i: nat)
    requires i < |s|
    ensures s[..i + 1] == s[..i] + [s[i]]
  {
  }

  /** A prefix of a prefix is a prefix. */
  lemma PrefixOfPrefix<T>(s: seq<T>, n: nat, i: nat)
    requires i <= n <= |s|
    ensures s[..n][..i] == s[..i]
  {
  }

  /** Two non-empty sequences with the same head are equal exactly when
      their tails are. */
  lemma SameHeadEq<T>(q: seq<T>, p: seq<T>)
    requires q != [] && p != [] && q[0] == p[0]
    ensures q == p <==> q[1..] == p[1..]
  {
    assert q == [q[0]] + q[1..];
    assert p == [p[0]] + p[1..];
  }

  lemma AppendAssoc<T>(a: seq<T>, b: seq<T>, c: seq<T>)
    ensures a + b + c == a + (b + c)
  {
  }

  /** The concatenation of the parts, in order. */
  function Flatten<T>(parts: seq<seq<T>>): seq<T>
    decreases |parts|
  {
    if parts == [] then [] else Flatten(parts[..|parts| - 1]) + parts[|parts| - 1]
  }

  /** Element `i` of a concatenation comes from the first part or, past
      its end, from the second. */
  lemma AppendIndex<T>(a: seq<T>, b: seq<T>, i: nat)
    requires i < |a| + |b|
    ensures i < |a| ==> (a + b)[i] == a[i]
    ensures |a| <= i ==> (a + b)[i] == b[i - |a|]
  {
  }

  /** A sequence with `x` in front starts with `x`, followed by the rest. */
  lemma ConsParts<T>(x: T, r: seq<T>)
    ensures ([x] + r)[0] == x && ([x] + r)[1..] == r
  {
  }

  lemma InAppend<T>(a: seq<T>, b: seq<T>, x: T)
    ensures x in a + b <==> x in a || x in b
  {
  }

  /** An element of one part is in the concatenation. */
  lemma {:induction false} FlattenIncludes<T>(parts: seq<seq<T>>, i: nat, x: T)
    requires i < |parts| && x in parts[i]
    ensures x in Flatten(parts)
    decreases |parts|
  {
    var init := parts[..|parts| - 1];
    if i < |parts| - 1 {
      assert init[i] == parts[i];
      FlattenIncludes(init, i, x);
    }
    InAppend(Flatten(init), parts[|parts| - 1], x);
  }

  /** An element of the concatenation is in some part. */
  lemma {:induction false} FlattenMember<T>(parts: seq<seq<T>>, x: T) returns (i: nat)
    requires x in Flatten(parts)
    ensures i < |parts| && x in parts[i]
    decreases |parts|
  {
    var init := parts[..|parts| - 1];
    InAppend(Flatten(init), parts[|parts| - 1], x);
    if x in Flatten(init) {
      i := FlattenMember(init, x);
      assert init[i] == parts[i];
    } else {
      i := |parts| - 1;
    }
  }

  lemma FlattenStep<T>(parts: seq<seq<T>>, i: nat, before: seq<T>, pre: seq<T>, post: seq<T>)
    requires i < |parts| && pre == before + Flatten(parts[..i]) && post == pre + parts[i]
    ensures post == before + Flatten(parts[..i + 1])
  {
    assert parts[..i + 1][..i] == parts[..i];
    AppendAssoc(before, Flatten(parts[..i]), parts[i]);
  }
}
