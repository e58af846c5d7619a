/**
 * The subject and body variants: the language model's answer when it has
 * the right shape, otherwise five fixed subjects and five bodies made by
 * rewording one phrase of the base body.
 */
module Variants {
  import opened Outcomes

  datatype Variants = Variants(subjects: seq<string>, bodies: seq<string>)

  /** The model's answer after `JSON.parse`: each array may be missing. */
  datatype Parsed = Parsed(subjects: Option<seq<string>>, bodies: Option<seq<string>>)

  /** How many variants of each kind the pipeline asks for. */
  const VariantCount: nat := 5

  const SubjectPrefixes: seq<string> :=
    ["Seeking Opportunity", "Application for", "Interested in", "Exploring Opportunities", "Open to Roles"]

  const SubjectSuffix: string := " - SDE / Full Stack / AI Intern"

  /** The phrase each of fallback bodies 1 to 4 rewords, and its replacement. */
  const BodyRewrites: seq<(string, string)> := [
    ("I enjoy solving problems", "Problem-solving is my passion"),
    ("Looking forward to contributing", "Eager to contribute"),
    ("real-world projects", "impactful projects"),
    ("growing as an engineer", "developing my engineering skills")
  ]

  /** `p` occurs in `s` starting at position `j`. */
  predicate OccursAt(s: string, p: string, j: nat)
  {
    j + |p| <= |s| && s[j..j + |p|] == p
  }

  lemma OccursShift(s: string, p: string, j: nat)
    requires s != [] && j >= 1
    ensures OccursAt(s, p, j) <==> OccursAt(s[1..], p, j - 1)
  {
    if j + |p| <= |s| {
      var t := s[1..];
      var u, v := s[j..j + |p|], t[j - 1..j - 1 + |p|];
      forall i | 0 <= i < |p|
        ensures u[i] == v[i]
      {
        assert u[i] == s[j + i] == t[j - 1 + i];
      }
      assert u == v;
    }
  }

  /** `s.indexOf(p)`: the first position where `p` occurs in `s`, or -1. */
  function IndexOf(s: string, p: string): (k: int)
    ensures k >= -1
    ensures k >= 0 ==> k + |p| <= |s|
    decreases |s|
  {
    if |s| < |p| then -1
    else if s[..|p|] == p then 0
    else
      var k := IndexOf(s[1..], p);
      if k < 0 then -1 else k + 1
  }

  /** `IndexOf` finds the first occurrence, and answers -1 exactly when there is none. */
  lemma {:induction false} IndexOfFirst(s: string, p: string)
    ensures IndexOf(s, p) >= 0 ==> OccursAt(s, p, IndexOf(s, p))
    ensures IndexOf(s, p) >= 0 ==> forall j: nat :: j < IndexOf(s, p) ==> !OccursAt(s, p, j)
    ensures IndexOf(s, p) == -1 ==> forall j: nat :: !OccursAt(s, p, j)
    decreases |s|
  {
    if |s| < |p| {
      assert forall j: nat :: !OccursAt(s, p, j);
    } else if s[..|p|] == p {
      assert IndexOf(s, p) == 0 && OccursAt(s, p, 0);
    } else {
      var k := IndexOf(s[1..], p);
      assert IndexOf(s, p) == if k < 0 then -1 else k + 1;
      IndexOfFirst(s[1..], p);
      assert !OccursAt(s, p, 0);
      forall j: nat | j >= 1
        ensures OccursAt(s, p, j) <==> OccursAt(s[1..], p, j - 1)
      {
        OccursShift(s, p, j);
      }
    }
  }

  /** `s.replace(p, r)` with a string pattern: only the first occurrence is replaced. */
  function ReplaceFirst(s: string, p: string, r: string): string
    decreases |s|
  {
    if |s| < |p| then s
    else if s[..|p|] == p then r + s[|p|..]
    else [s[0]] + ReplaceFirst(s[1..], p, r)
  }

  /** The replacement splices `r` in at the first occurrence of `p`, and leaves `s` alone when there is none. */
  lemma {:induction false} ReplaceFirstSplices(s: string, p: string, r: string)
    ensures IndexOf(s, p) < 0 ==> ReplaceFirst(s, p, r) == s
    ensures IndexOf(s, p) >= 0 ==>
              ReplaceFirst(s, p, r) == s[..IndexOf(s, p)] + r + s[IndexOf(s, p) + |p|..]
    decreases |s|
  {
    if |s| < |p| {
    } else if s[..|p|] == p {
      assert IndexOf(s, p) == 0;
    } else {
      ReplaceFirstSplices(s[1..], p, r);
      var k := IndexOf(s[1..], p);
      assert IndexOf(s, p) == if k < 0 then -1 else k + 1;
      assert ReplaceFirst(s, p, r) == [s[0]] + ReplaceFirst(s[1..], p, r);
      if k >= 0 {
        SpliceCons(s, k, |p|, r);
      } else {
        assert s == [s[0]] + s[1..];
      }
    }
  }

  /** Splicing into the tail and putting the head back is splicing one position further on. */
  lemma SpliceCons(s: string, k: nat, len: nat, r: string)
    requires s != [] && k + len <= |s| - 1
    ensures [s[0]] + (s[1..][..k] + r + s[1..][k + len..]) == s[..k + 1] + r + s[k + 1 + len..]
  {
    assert s[..k + 1] == [s[0]] + s[1..][..k];
    assert s[k + 1 + len..] == s[1..][k + len..];
  }

  /** `createFallbackVariants`: five fixed subjects and five reworded bodies. */
  function FallbackVariants(baseSubject: string, baseBody: string): (v: Variants)
    ensures |v.subjects| == VariantCount && |v.bodies| == VariantCount
    ensures forall i :: 0 <= i < VariantCount ==> v.subjects[i] == SubjectPrefixes[i] + SubjectSuffix
    ensures v.bodies[0] == baseBody
    ensures forall i :: 1 <= i < VariantCount ==>
              v.bodies[i] == ReplaceFirst(baseBody, BodyRewrites[i - 1].0, BodyRewrites[i - 1].1)
  {
    var subjects := seq(|SubjectPrefixes|, i requires 0 <= i < |SubjectPrefixes| => SubjectPrefixes[i] + SubjectSuffix);
    var bodies := [baseBody] + seq(|BodyRewrites|, i requires 0 <= i < |BodyRewrites| =>
                                     ReplaceFirst(baseBody, BodyRewrites[i].0, BodyRewrites[i].1));
    Variants(subjects, bodies)
  }

  /** The five fallback subjects are non-empty and pairwise distinct. */
  lemma FallbackSubjectsDistinct(baseSubject: string, baseBody: string)
    ensures forall i :: 0 <= i < VariantCount ==> FallbackVariants(baseSubject, baseBody).subjects[i] != ""
    ensures forall i, j :: 0 <= i < j < VariantCount ==>
              FallbackVariants(baseSubject, baseBody).subjects[i] != FallbackVariants(baseSubject, baseBody).subjects[j]
  {
    var v := FallbackVariants(baseSubject, baseBody);
    forall i | 0 <= i < VariantCount
      ensures |v.subjects[i]| > 0 && v.subjects[i][0] == SubjectPrefixes[i][0]
    {
      assert v.subjects[i] == SubjectPrefixes[i] + SubjectSuffix;
    }
    assert SubjectPrefixes[0][0] == 'S' && SubjectPrefixes[1][0] == 'A' && SubjectPrefixes[2][0] == 'I';
    assert SubjectPrefixes[3][0] == 'E' && SubjectPrefixes[4][0] == 'O';
  }

  /**
   * Fallback body i (1 to 4) is the base body with the first occurrence of
   * its phrase reworded, or the base body itself when the phrase is absent.
   */
  lemma FallbackBodyRewords(baseSubject: string, baseBody: string, i: nat)
    requires 1 <= i < VariantCount
    ensures var p := BodyRewrites[i - 1].0;
            var k := IndexOf(baseBody, p);
            FallbackVariants(baseSubject, baseBody).bodies[i] ==
              if k < 0 then baseBody else baseBody[..k] + BodyRewrites[i - 1].1 + baseBody[k + |p|..]
  {
    ReplaceFirstSplices(baseBody, BodyRewrites[i - 1].0, BodyRewrites[i - 1].1);
  }

  /** The shape check: both arrays present and both of length five. */
  predicate ValidShape(p: Parsed)
  {
    p.subjects.Some? && p.bodies.Some? &&
    |p.subjects.value| == VariantCount && |p.bodies.value| == VariantCount
  }

  /**
   * `generateEmailVariants`: `llm` is the parsed answer, or None when the
   * call or `JSON.parse` threw. The answer is used only when it has the
   * right shape; every failure falls back, so nothing is thrown.
   */
  function GenerateEmailVariants(baseSubject: string, baseBody: string, llm: Option<Parsed>): (v: Variants)
    ensures |v.subjects| == VariantCount && |v.bodies| == VariantCount
    ensures llm.Some? && ValidShape(llm.value) ==>
              v == Variants(llm.value.subjects.value, llm.value.bodies.value)
    ensures !(llm.Some? && ValidShape(llm.value)) ==> v == FallbackVariants(baseSubject, baseBody)
  {
    if llm.Some? && ValidShape(llm.value) then Variants(llm.value.subjects.value, llm.value.bodies.value)
    else FallbackVariants(baseSubject, baseBody)
  }
}
