/** Sequence helpers shared by the pipeline phases. */
module Seqs {
  /** Concatenation of a sequence of sequences, in order (JavaScript's `push(...xs)` repeated). */
  function Flatten<T>(xss: seq<seq<T>>): seq<T>
  {
    if xss == [] then [] else xss[0] + Flatten(xss[1..])
  }

  lemma {:induction false} FlattenAppend<T>(xss: seq<seq<T>>, xs: seq<T>)
    ensures Flatten(xss + [xs]) == Flatten(xss) + xs
  {
    if xss == [] {
      assert [xs][1..] == [];
    } else {
      assert (xss + [xs])[1..] == xss[1..] + [xs];
      FlattenAppend(xss[1..], xs);
    }
  }

  /** `sub` can be obtained from `s` by deleting elements, keeping the order of the rest. */
  predicate IsSubsequence<T(==)>(sub: seq<T>, s: seq<T>)
    decreases |s|
  {
    if sub == [] then true
    else if s == [] then false
    else if sub[0] == s[0] then IsSubsequence(sub[1..], s[1..])
    else IsSubsequence(sub, s[1..])
  }

  lemma {:induction false} SubsequenceExtend<T>(sub: seq<T>, s: seq<T>, x: T, keep: bool)
    requires IsSubsequence(sub, s)
    ensures IsSubsequence(if keep then sub + [x] else sub, s + [x])
    decreases |s|
  {
    if sub == [] {
      if keep {
        assert sub + [x] == [x];
        SubsequenceOfAny([x], s + [x]);
      }
    } else {
      assert s != [];
      assert (s + [x])[1..] == s[1..] + [x];
      if keep {
        assert (sub + [x])[0] == sub[0];
        assert (sub + [x])[1..] == sub[1..] + [x];
      }
      if sub[0] == s[0] {
        SubsequenceExtend(sub[1..], s[1..], x, keep);
      } else {
        SubsequenceExtend(sub, s[1..], x, keep);
      }
    }
  }

  lemma {:induction false} SubsequenceOfAny<T>(one: seq<T>, s: seq<T>)
    requires |one| == 1 && |s| > 0 && s[|s| - 1] == one[0]
    ensures IsSubsequence(one, s)
    decreases |s|
  {
    if one[0] != s[0] {
      SubsequenceOfAny(one, s[1..]);
    } else {
      assert one[1..] == [];
    }
  }

  lemma {:induction false} SubsequenceLength<T>(sub: seq<T>, s: seq<T>)
    requires IsSubsequence(sub, s)
    ensures |sub| <= |s|
    decreases |s|
  {
    if sub != [] {
      if sub[0] == s[0] {
        SubsequenceLength(sub[1..], s[1..]);
      } else {
        SubsequenceLength(sub, s[1..]);
      }
    }
  }

  lemma {:induction false} SubsequenceMembers<T>(sub: seq<T>, s: seq<T>)
    requires IsSubsequence(sub, s)
    ensures forall x :: x in sub ==> x in s
    decreases |s|
  {
    if sub != [] {
      if sub[0] == s[0] {
        SubsequenceMembers(sub[1..], s[1..]);
        assert forall x :: x in sub ==> x == sub[0] || x in sub[1..];
      } else {
        SubsequenceMembers(sub, s[1..]);
      }
    }
  }

  /** A subsequence of the tail is a subsequence of the whole. */
  lemma {:induction false} SubsequenceSkipFirst<T>(sub: seq<T>, s: seq<T>)
    requires s != [] && IsSubsequence(sub, s[1..])
    ensures IsSubsequence(sub, s)
    decreases |s|, 1
  {
    if sub != [] && sub[0] == s[0] {
      SubsequenceDropHead(sub, s[1..]);
    }
  }

  /** Dropping the first element of a subsequence keeps it a subsequence. */
  lemma {:induction false} SubsequenceDropHead<T>(sub: seq<T>, t: seq<T>)
    requires sub != [] && IsSubsequence(sub, t)
    ensures IsSubsequence(sub[1..], t)
    decreases |t| + 1, 0
  {
    if sub[0] == t[0] {
      SubsequenceSkipFirst(sub[1..], t);
    } else {
      SubsequenceDropHead(sub, t[1..]);
      SubsequenceSkipFirst(sub[1..], t);
    }
  }

  /** An element of the concatenation comes from one of the parts, and every part's elements are in it. */
  lemma {:induction false} FlattenMembers<T>(xss: seq<seq<T>>, x: T)
    ensures x in Flatten(xss) <==> exists i :: 0 <= i < |xss| && x in xss[i]
  {
    if xss != [] {
      FlattenMembers(xss[1..], x);
      if x in Flatten(xss[1..]) {
        var i :| 0 <= i < |xss[1..]| && x in xss[1..][i];
        assert x in xss[i + 1];
      }
      if exists i :: 0 <= i < |xss| && x in xss[i] {
        var i :| 0 <= i < |xss| && x in xss[i];
        if i > 0 {
          assert x in xss[1..][i - 1];
        }
      }
    }
  }
}
