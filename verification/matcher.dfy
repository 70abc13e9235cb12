/**
  `match_schemas`: two lists of names are compared as sets, and the shared
  names, the names only in A and the names only in B come back sorted. The
  `/match` endpoint feeds it the two parsed schema strings (`MatchInputs`).
 */
module Matcher {
  import opened LexOrder
  import opened SortedSets
  import opened Normalize
  import opened SchemaParser

  /** The dictionary `match_schemas` returns. */
  datatype MatchResult = MatchResult(matches: seq<string>, unmatchedA: seq<string>, unmatchedB: seq<string>)

  /** `match_schemas(a, b)`. */
  function MatchSchemas(a: seq<string>, b: seq<string>): (r: MatchResult)
    ensures StrictlySorted(r.matches) && StrictlySorted(r.unmatchedA) && StrictlySorted(r.unmatchedB)
    ensures forall x :: x in r.matches <==> x in a && x in b
    ensures forall x :: x in r.unmatchedA <==> x in a && x !in b
    ensures forall x :: x in r.unmatchedB <==> x in b && x !in a
  {
    var setA, setB := Elems(a), Elems(b);
    MatchResult(SortedList(setA * setB), SortedList(setA - setB), SortedList(setB - setA))
  }

  /**
    The members of A split into the matches and A's leftovers, with nothing in
    both; the members of B likewise. Each list holds every name once, so the
    lengths add up to the number of distinct names.
   */
  lemma MatchPartition(a: seq<string>, b: seq<string>)
    ensures var r := MatchSchemas(a, b);
      && Elems(a) == Elems(r.matches) + Elems(r.unmatchedA)
      && Elems(r.matches) !! Elems(r.unmatchedA)
      && Elems(b) == Elems(r.matches) + Elems(r.unmatchedB)
      && Elems(r.matches) !! Elems(r.unmatchedB)
      && Elems(r.unmatchedA) !! Elems(r.unmatchedB)
      && |r.matches| + |r.unmatchedA| == |Elems(a)|
      && |r.matches| + |r.unmatchedB| == |Elems(b)|
  {
    var r := MatchSchemas(a, b);
    ThreeWaySplit(Elems(a), Elems(b), r.matches, r.unmatchedA, r.unmatchedB);
  }

  lemma ThreeWaySplit(setA: set<string>, setB: set<string>, both: seq<string>, onlyA: seq<string>, onlyB: seq<string>)
    requires Elems(both) == setA * setB && |both| == |setA * setB|
    requires Elems(onlyA) == setA - setB && |onlyA| == |setA - setB|
    requires Elems(onlyB) == setB - setA && |onlyB| == |setB - setA|
    ensures setA == Elems(both) + Elems(onlyA) && Elems(both) !! Elems(onlyA)
    ensures setB == Elems(both) + Elems(onlyB) && Elems(both) !! Elems(onlyB)
    ensures Elems(onlyA) !! Elems(onlyB)
    ensures |both| + |onlyA| == |setA| && |both| + |onlyB| == |setB|
  {
    assert setB * setA == setA * setB;
    SplitBySet(setA, setB);
    SplitBySet(setB, setA);
  }

  /** `s` falls apart into its members inside `t` and those outside. */
  lemma SplitBySet(s: set<string>, t: set<string>)
    ensures s == (s * t) + (s - t) && (s * t) !! (s - t)
    ensures |s| == |s * t| + |s - t|
  {
    assert s == (s * t) + (s - t);
  }

  /**
    The three lists are the only possible ones: any strictly sorted lists with
    the same members are equal to them, whatever order the sets were visited in.
   */
  lemma MatchCanonical(a: seq<string>, b: seq<string>, r: MatchResult)
    requires StrictlySorted(r.matches) && StrictlySorted(r.unmatchedA) && StrictlySorted(r.unmatchedB)
    requires forall x :: x in r.matches <==> x in a && x in b
    requires forall x :: x in r.unmatchedA <==> x in a && x !in b
    requires forall x :: x in r.unmatchedB <==> x in b && x !in a
    ensures r == MatchSchemas(a, b)
  {
    var m := MatchSchemas(a, b);
    SortedUnique(r.matches, m.matches);
    SortedUnique(r.unmatchedA, m.unmatchedA);
    SortedUnique(r.unmatchedB, m.unmatchedB);
  }

  /** Swapping the schemas swaps the two leftover lists and keeps the matches. */
  lemma MatchSymmetric(a: seq<string>, b: seq<string>)
    ensures var r, s := MatchSchemas(a, b), MatchSchemas(b, a);
      s.matches == r.matches && s.unmatchedA == r.unmatchedB && s.unmatchedB == r.unmatchedA
  {
    var r := MatchSchemas(a, b);
    MatchCanonical(b, a, MatchResult(r.matches, r.unmatchedB, r.unmatchedA));
  }

  /** Only the members of each list enter the result, as `set(...)` is all the body reads. */
  lemma MatchOnlyElems(a: seq<string>, b: seq<string>, a': seq<string>, b': seq<string>)
    requires Elems(a) == Elems(a') && Elems(b) == Elems(b')
    ensures MatchSchemas(a, b) == MatchSchemas(a', b')
  {
  }

  /** Matching empty schemas gives three empty lists. */
  lemma MatchEmpty()
    ensures MatchSchemas([], []) == MatchResult([], [], [])
  {
    var r := MatchSchemas([], []);
    NoElemsIsEmpty(r.matches);
    NoElemsIsEmpty(r.unmatchedA);
    NoElemsIsEmpty(r.unmatchedB);
  }

  /** A schema matched against an empty one is all leftovers. */
  lemma MatchAgainstEmpty(a: seq<string>)
    ensures var r := MatchSchemas(a, []);
      r.matches == [] && r.unmatchedB == [] && r.unmatchedA == SortedList(Elems(a))
  {
    var r := MatchSchemas(a, []);
    NoElemsIsEmpty(r.matches);
    NoElemsIsEmpty(r.unmatchedB);
    SortedUnique(r.unmatchedA, SortedList(Elems(a)));
  }

  lemma CanonicalSubset(names: seq<string>, sub: seq<string>)
    requires AllCanonical(names) && Elems(sub) <= Elems(names)
    ensures AllCanonical(sub)
  {
    forall k | 0 <= k < |sub|
      ensures sub[k] != [] && IsCanonical(sub[k])
    {
      assert sub[k] in Elems(names);
      var j :| 0 <= j < |names| && names[j] == sub[k];
    }
  }

  /** What the `/match` endpoint computes from its two schema strings. */
  function MatchInputs(a: SchemaInput, b: SchemaInput): (r: MatchResult)
    ensures AllCanonical(r.matches) && AllCanonical(r.unmatchedA) && AllCanonical(r.unmatchedB)
    ensures a.NonText? ==> r.matches == [] && r.unmatchedA == []
    ensures b.NonText? ==> r.matches == [] && r.unmatchedB == []
  {
    var namesA, namesB := ParseSchemaString(a), ParseSchemaString(b);
    var r := MatchSchemas(namesA, namesB);
    CanonicalSubset(namesA, r.matches);
    CanonicalSubset(namesA, r.unmatchedA);
    CanonicalSubset(namesB, r.unmatchedB);
    NoElemsIsEmpty(r.matches);
    NoElemsIsEmpty(r.unmatchedA);
    NoElemsIsEmpty(r.unmatchedB);
    r
  }
}
