/**
  `parse_schema_string`: a comma-separated list of column names becomes the
  list of their normal forms, in order, with empty ones dropped.
 */
module SchemaParser {
  import opened Normalize

  /** The argument of `parse_schema_string`, which Python does not type-check. */
  datatype SchemaInput = Text(s: string) | NonText

  /** Python's `s.split(',')`: the pieces between commas, empty ones included. */
  function Split(s: string): (segs: seq<string>)
    ensures |segs| >= 1
  {
    if s == [] then [""] else SplitStep(Split(s[..|s| - 1]), s[|s| - 1])
  }

  /** The pieces after one more character: a comma opens a new piece, anything else extends the last. */
  function SplitStep(segs: seq<string>, c: char): (r: seq<string>)
    requires |segs| >= 1
    ensures |r| >= 1
  {
    if c == ',' then segs + [""] else segs[..|segs| - 1] + [segs[|segs| - 1] + [c]]
  }

  /** The pieces hold no comma, and there is one more piece than there are commas. */
  lemma {:induction false} SplitPieces(s: string)
    ensures |Split(s)| == multiset(s)[','] + 1
    ensures forall k :: 0 <= k < |Split(s)| ==> ',' !in Split(s)[k]
  {
    if s != [] {
      var init, last := s[..|s| - 1], s[|s| - 1];
      SplitPieces(init);
      assert s == init + [last];
      SplitSnoc(init, last);
      assert multiset(s) == multiset(init) + multiset{last};
      var segs := Split(init);
      if last != ',' {
        var r := Split(s);
        assert r == segs[..|segs| - 1] + [segs[|segs| - 1] + [last]];
        forall k | 0 <= k < |r|
          ensures ',' !in r[k]
        {
          if k < |segs| - 1 {
            assert r[k] == segs[k];
          }
        }
      }
    }
  }

  /**
    Python's `','.join(segs)` on a non-empty list, which is every list `Split`
    returns; it is the inverse of `Split`. (`','.join([])` gives `''`.)
   */
  function Join(segs: seq<string>): string
    requires |segs| >= 1
  {
    if |segs| == 1 then segs[0]
    else Join(segs[..|segs| - 1]) + "," + segs[|segs| - 1]
  }

  lemma SplitSnoc(s: string, c: char)
    ensures Split(s + [c]) == SplitStep(Split(s), c)
  {
    var t := s + [c];
    assert t[..|t| - 1] == s && t[|t| - 1] == c;
  }

  lemma {:induction false} JoinSplit(s: string)
    ensures Join(Split(s)) == s
  {
    if s != [] {
      var init, last := s[..|s| - 1], s[|s| - 1];
      assert s == init + [last];
      JoinSplit(init);
      SplitSnoc(init, last);
      var segs := Split(init);
      var n := |segs|;
      var r := Split(s);
      if last == ',' {
        assert r[..n] == segs;
        assert Join(r) == Join(segs) + "," + "";
      } else if n == 1 {
        assert r == [segs[0] + [last]];
      } else {
        assert r[..n - 1] == segs[..n - 1];
        assert Join(r) == Join(segs[..n - 1]) + "," + (segs[n - 1] + [last]);
        assert Join(segs) == Join(segs[..n - 1]) + "," + segs[n - 1];
      }
    }
  }

  lemma {:induction false} SplitJoin(segs: seq<string>)
    requires |segs| >= 1
    requires forall k :: 0 <= k < |segs| ==> ',' !in segs[k]
    ensures Split(Join(segs)) == segs
  {
    var last := segs[|segs| - 1];
    if |segs| == 1 {
      SplitNoComma(last);
    } else {
      var init := segs[..|segs| - 1];
      SplitJoin(init);
      SplitAfterComma(Join(init), last);
      assert init + [last] == segs;
    }
  }

  /** A comma and then comma-free text add exactly one piece. */
  lemma SplitAfterComma(s: string, a: string)
    requires ',' !in a
    ensures Split(s + "," + a) == Split(s) + [a]
  {
    var q := s + ",";
    SplitSnoc(s, ',');
    SplitAppend(q, a);
    var segs := Split(s);
    assert (segs + [""])[..|segs|] == segs;
    assert "" + a == a;
  }

  lemma {:induction false} SplitNoComma(a: string)
    requires ',' !in a
    ensures Split(a) == [a]
  {
    if a != [] {
      var init, c := a[..|a| - 1], a[|a| - 1];
      assert a == init + [c];
      SplitNoComma(init);
      SplitSnoc(init, c);
    }
  }

  /** Text without commas extends the last piece. */
  lemma {:induction false} SplitAppend(s: string, a: string)
    requires ',' !in a
    ensures var segs := Split(s);
      Split(s + a) == segs[..|segs| - 1] + [segs[|segs| - 1] + a]
    decreases |a|
  {
    var segs := Split(s);
    var n := |segs|;
    if a == [] {
      assert s + a == s;
      assert segs[n - 1] + a == segs[n - 1];
      assert segs == segs[..n - 1] + [segs[n - 1]];
    } else {
      var a', c := a[..|a| - 1], a[|a| - 1];
      assert a == a' + [c];
      SplitAppend(s, a');
      assert s + a == (s + a') + [c];
      SplitSnoc(s + a', c);
      StepExtends(segs, a', c);
    }
  }

  lemma StepExtends(segs: seq<string>, a: string, c: char)
    requires |segs| >= 1 && c != ','
    ensures var n := |segs|;
      SplitStep(segs[..n - 1] + [segs[n - 1] + a], c) == segs[..n - 1] + [segs[n - 1] + (a + [c])]
  {
    var n := |segs|;
    var p := segs[..n - 1] + [segs[n - 1] + a];
    assert p[..n - 1] == segs[..n - 1];
    assert segs[n - 1] + a + [c] == segs[n - 1] + (a + [c]);
  }

  /** Every entry is a non-empty normalised name. */
  predicate AllCanonical(names: seq<string>)
  {
    forall k :: 0 <= k < |names| ==> names[k] != [] && IsCanonical(names[k])
  }

  /** Every segment stripped of surrounding whitespace: `column_names`. */
  function TrimAll(segs: seq<string>): (names: seq<string>)
    ensures |names| == |segs|
  {
    seq(|segs|, k requires 0 <= k < |segs| => Trim(segs[k]))
  }

  /** Positions of the column names whose normal form is non-empty, ascending. */
  function KeptIndices(names: seq<string>): (idx: seq<nat>)
    ensures forall k :: 0 <= k < |idx| ==> idx[k] < |names|
    ensures forall k, l :: 0 <= k < l < |idx| ==> idx[k] < idx[l]
    ensures forall i :: 0 <= i < |names| ==> (i in idx <==> NormalizeName(names[i]) != [])
  {
    if names == [] then []
    else
      var init := KeptIndices(names[..|names| - 1]);
      if NormalizeName(names[|names| - 1]) == [] then init else init + [|names| - 1]
  }

  /**
    The loop of `parse_schema_string`: the normal form of each column name, in
    order, skipping the empty ones and keeping repeats.
   */
  function KeepNormalized(names: seq<string>): (kept: seq<string>)
    ensures |kept| <= |names|
  {
    if names == [] then []
    else
      var init := KeepNormalized(names[..|names| - 1]);
      var name := NormalizeName(names[|names| - 1]);
      if name == [] then init else init + [name]
  }

  /**
    What the loop keeps: entry `k` is the normal form of the `k`-th column name
    whose normal form is non-empty, so every entry is a non-empty normalised name.
   */
  lemma {:induction false} KeepNormalizedMeaning(names: seq<string>)
    ensures var kept, idx := KeepNormalized(names), KeptIndices(names);
      && |kept| == |idx|
      && (forall k :: 0 <= k < |kept| ==> kept[k] == NormalizeName(names[idx[k]]))
      && AllCanonical(kept)
  {
    if names != [] {
      var init := names[..|names| - 1];
      KeepNormalizedMeaning(init);
      var kept, idx := KeepNormalized(names), KeptIndices(names);
      var kept0, idx0 := KeepNormalized(init), KeptIndices(init);
      forall k | 0 <= k < |kept0|
        ensures kept0[k] == NormalizeName(names[idx0[k]])
      {
        assert names[idx0[k]] == init[idx0[k]];
      }
      if NormalizeName(names[|names| - 1]) != [] {
        assert kept == kept0 + [NormalizeName(names[|names| - 1])];
        assert idx == idx0 + [|names| - 1];
      }
    }
  }

  /** `parse_schema_string`. */
  function ParseSchemaString(input: SchemaInput): (names: seq<string>)
    ensures input.NonText? ==> names == []
    ensures AllCanonical(names)
    ensures input.Text? ==> |names| <= multiset(input.s)[','] + 1
  {
    match input
    case NonText => []
    case Text(s) =>
      SplitPieces(s);
      KeepNormalizedMeaning(TrimAll(Split(s)));
      KeepNormalized(TrimAll(Split(s)))
  }

  /** One more column name adds its normal form, unless that is empty. */
  lemma KeepSnoc(init: seq<string>, name: string)
    ensures var n := NormalizeName(name);
      KeepNormalized(init + [name]) == if n == [] then KeepNormalized(init) else KeepNormalized(init) + [n]
  {
    var names := init + [name];
    assert names[..|names| - 1] == init && names[|names| - 1] == name;
  }

  /** Stripping the segments first changes nothing about what is kept. */
  lemma {:induction false} KeepIgnoresTrim(segs: seq<string>)
    ensures KeepNormalized(TrimAll(segs)) == KeepNormalized(segs)
  {
    if segs != [] {
      var init, last := segs[..|segs| - 1], segs[|segs| - 1];
      KeepIgnoresTrim(init);
      TrimIrrelevant(last);
      assert segs == init + [last];
      assert TrimAll(segs) == TrimAll(init) + [Trim(last)];
      KeepSnoc(init, last);
      KeepSnoc(TrimAll(init), Trim(last));
    }
  }

  /** Normalised names come through normalisation unchanged and none is dropped. */
  lemma {:induction false} KeepCanonical(names: seq<string>)
    requires AllCanonical(names)
    ensures KeepNormalized(names) == names
  {
    if names != [] {
      var init, last := names[..|names| - 1], names[|names| - 1];
      CanonicalPrefix(names, |names| - 1);
      KeepCanonical(init);
      NormalizeFixesCanonical(last);
      assert names == init + [last];
    }
  }

  lemma CanonicalPrefix(names: seq<string>, n: nat)
    requires AllCanonical(names) && n <= |names|
    ensures AllCanonical(names[..n])
  {
    assert forall k :: 0 <= k < n ==> names[..n][k] == names[k];
  }

  /**
    Parsing normalised names written out with `','.join` gives the same names
    back, in order and with repeats: the parser inverts joining on its own output.
   */
  lemma ParseJoin(names: seq<string>)
    requires |names| >= 1 && AllCanonical(names)
    ensures ParseSchemaString(Text(Join(names))) == names
  {
    forall k | 0 <= k < |names|
      ensures ',' !in names[k]
    {
      assert forall i :: 0 <= i < |names[k]| ==> IsCanonicalChar(names[k][i]);
    }
    SplitJoin(names);
    KeepIgnoresTrim(names);
    KeepCanonical(names);
  }

  /** All the names, run together. */
  function Concat(names: seq<string>): string
  {
    if names == [] then [] else Concat(names[..|names| - 1]) + names[|names| - 1]
  }

  /** The comma between two segments normalises away. */
  lemma NormalizeAcrossComma(x: string, y: string)
    ensures NormalizeName(x + "," + y) == NormalizeName(x) + NormalizeName(y)
  {
    NormalizeConcat(x, ",");
    NormalizeConcat(x + ",", y);
  }

  lemma {:induction false} KeepNormalizedConcat(names: seq<string>)
    requires |names| >= 1
    ensures Concat(KeepNormalized(names)) == NormalizeName(Join(names))
  {
    var last := names[|names| - 1];
    var init := names[..|names| - 1];
    if |names| == 1 {
      assert init == [];
    } else {
      KeepNormalizedConcat(init);
      NormalizeAcrossComma(Join(init), last);
    }
  }

  lemma {:induction false} JoinTrimmed(segs: seq<string>)
    requires |segs| >= 1
    ensures NormalizeName(Join(TrimAll(segs))) == NormalizeName(Join(segs))
  {
    var last := segs[|segs| - 1];
    var init := segs[..|segs| - 1];
    TrimIrrelevant(last);
    if |segs| > 1 {
      JoinTrimmed(init);
      var trimmed := TrimAll(segs);
      assert trimmed[..|segs| - 1] == TrimAll(init);
      assert Join(trimmed) == Join(TrimAll(init)) + "," + Trim(last);
      NormalizeAcrossComma(Join(init), last);
      NormalizeAcrossComma(Join(TrimAll(init)), Trim(last));
    }
  }

  /**
    Running the parsed names together gives the normal form of the whole
    input: splitting and trimming lose nothing but commas and whitespace.
   */
  lemma ParseConcat(s: string)
    ensures Concat(ParseSchemaString(Text(s))) == NormalizeName(s)
  {
    KeepNormalizedConcat(TrimAll(Split(s)));
    JoinTrimmed(Split(s));
    JoinSplit(s);
  }

  lemma {:induction false} ConcatEmpty(names: seq<string>)
    requires forall k :: 0 <= k < |names| ==> names[k] != []
    ensures Concat(names) == [] <==> names == []
  {
    if names != [] {
      ConcatEmpty(names[..|names| - 1]);
    }
  }

  /** The parse is empty exactly when the input has no ASCII letter or digit. */
  lemma ParseEmptyIff(s: string)
    ensures ParseSchemaString(Text(s)) == [] <==> forall i :: 0 <= i < |s| ==> !IsAsciiAlnum(s[i])
  {
    ParseConcat(s);
    ConcatEmpty(ParseSchemaString(Text(s)));
    NormalizeEmptyIff(s);
  }
}
