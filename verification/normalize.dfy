/**
  Per-name normalisation of `parse_schema_string`: a segment is trimmed of
  surrounding whitespace, every character outside `[a-zA-Z0-9]` is removed,
  and what remains is lowercased.
 */
module Normalize {

  /** The regular-expression class `[a-zA-Z0-9]`: ASCII letters and digits only. */
  predicate IsAsciiAlnum(c: char)
  {
    'a' <= c <= 'z' || 'A' <= c <= 'Z' || '0' <= c <= '9'
  }

  /** A character a normalised name may contain. */
  predicate IsCanonicalChar(c: char)
  {
    'a' <= c <= 'z' || '0' <= c <= '9'
  }

  /** A normalised name: lower-case ASCII letters and digits only. */
  predicate IsCanonical(s: string)
  {
    forall i :: 0 <= i < |s| ==> IsCanonicalChar(s[i])
  }

  /** The characters Python's `str.strip()` removes (those for which `str.isspace()` holds). */
  predicate IsSpace(c: char)
  {
    || '\t' <= c <= '\r'
    || '\U{1C}' <= c <= ' '
    || c == '\U{85}' || c == '\U{A0}' || c == '\U{1680}'
    || '\U{2000}' <= c <= '\U{200A}'
    || c == '\U{2028}' || c == '\U{2029}' || c == '\U{202F}' || c == '\U{205F}'
    || c == '\U{3000}'
  }

  /** Number of whitespace characters at the start of `s`. */
  function LeadingSpace(s: string): (n: nat)
    ensures n <= |s|
    ensures forall k :: 0 <= k < n ==> IsSpace(s[k])
    ensures n < |s| ==> !IsSpace(s[n])
  {
    if s == [] || !IsSpace(s[0]) then 0 else 1 + LeadingSpace(s[1..])
  }

  /** Number of whitespace characters at the end of `s`. */
  function TrailingSpace(s: string): (n: nat)
    ensures n <= |s|
    ensures forall k :: |s| - n <= k < |s| ==> IsSpace(s[k])
    ensures n < |s| ==> !IsSpace(s[|s| - n - 1])
  {
    if s == [] || !IsSpace(s[|s| - 1]) then 0 else 1 + TrailingSpace(s[..|s| - 1])
  }

  /** Python's `str.strip()` with no argument. */
  function Trim(s: string): (r: string)
    ensures |r| <= |s|
  {
    var lead := LeadingSpace(s);
    if lead == |s| then [] else s[lead..|s| - TrailingSpace(s)]
  }

  /**
    `Trim` keeps one contiguous run of `s`, starting after the leading
    whitespace; everything outside the run is whitespace, and the run neither
    starts nor ends with whitespace.
   */
  lemma TrimMeaning(s: string)
    ensures var r, lead := Trim(s), LeadingSpace(s);
      && lead + |r| <= |s|
      && r == s[lead..lead + |r|]
      && (forall k :: 0 <= k < |s| && !(lead <= k < lead + |r|) ==> IsSpace(s[k]))
      && (r != [] ==> !IsSpace(r[0]) && !IsSpace(r[|r| - 1]))
  {
    TrimIsRun(s);
    TrimOutside(s);
    TrimEnds(s);
  }

  lemma TrimIsRun(s: string)
    ensures var r, lead := Trim(s), LeadingSpace(s);
      lead + |r| <= |s| && r == s[lead..lead + |r|]
  {
    var lead := LeadingSpace(s);
    if lead < |s| {
      SpaceRunsApart(s);
    }
  }

  lemma TrimOutside(s: string)
    ensures var r, lead := Trim(s), LeadingSpace(s);
      forall k :: 0 <= k < |s| && !(lead <= k < lead + |r|) ==> IsSpace(s[k])
  {
    var lead := LeadingSpace(s);
    if lead < |s| {
      SpaceRunsApart(s);
      assert |Trim(s)| == |s| - TrailingSpace(s) - lead;
    }
  }

  lemma TrimEnds(s: string)
    ensures var r := Trim(s);
      r != [] ==> !IsSpace(r[0]) && !IsSpace(r[|r| - 1])
  {
    var lead := LeadingSpace(s);
    if lead < |s| {
      SpaceRunsApart(s);
      var trail := TrailingSpace(s);
      var r := Trim(s);
      assert r[0] == s[lead] && r[|r| - 1] == s[|s| - trail - 1];
    }
  }

  /** Unless `s` is all whitespace, its leading and trailing whitespace do not meet. */
  lemma SpaceRunsApart(s: string)
    requires LeadingSpace(s) < |s|
    ensures LeadingSpace(s) + TrailingSpace(s) < |s|
  {
  }

  /** Text with no whitespace at either end is left alone by `Trim`. */
  lemma TrimNoSpace(s: string)
    requires s != [] ==> !IsSpace(s[0]) && !IsSpace(s[|s| - 1])
    ensures Trim(s) == s
  {
    if s != [] {
      assert LeadingSpace(s) == 0 && TrailingSpace(s) == 0;
      assert s[0..|s|] == s;
    }
  }

  /** `re.sub(r'[^a-zA-Z0-9]', '', s)`: keeps the ASCII letters and digits, in order. */
  function StripNonAlnum(s: string): (r: string)
    ensures |r| <= |s|
    ensures forall i :: 0 <= i < |r| ==> IsAsciiAlnum(r[i])
  {
    if s == [] then []
    else if IsAsciiAlnum(s[0]) then [s[0]] + StripNonAlnum(s[1..])
    else StripNonAlnum(s[1..])
  }

  /**
    What `StripNonAlnum` keeps: every letter and digit as often as it occurs,
    nothing else; so the result is empty exactly when `s` has no letter or digit.
   */
  lemma {:induction false} StripNonAlnumContents(s: string)
    ensures forall c :: multiset(StripNonAlnum(s))[c] == if IsAsciiAlnum(c) then multiset(s)[c] else 0
    ensures StripNonAlnum(s) == [] <==> forall i :: 0 <= i < |s| ==> !IsAsciiAlnum(s[i])
  {
    if s != [] {
      StripNonAlnumContents(s[1..]);
      assert s == [s[0]] + s[1..];
      assert multiset(s) == multiset{s[0]} + multiset(s[1..]);
      if StripNonAlnum(s[1..]) == [] && !IsAsciiAlnum(s[0]) {
        forall i | 0 <= i < |s|
          ensures !IsAsciiAlnum(s[i])
        {
          if i > 0 {
            assert s[i] == s[1..][i - 1];
          }
        }
      }
    }
  }

  /** ASCII lowercasing of one character; everything but `A`-`Z` is left as is. */
  function ToLower(c: char): char
  {
    if 'A' <= c <= 'Z' then (c as int - 'A' as int + 'a' as int) as char else c
  }

  /**
    Python's `str.lower()` applied to a string of ASCII letters and digits,
    which is the only kind `StripNonAlnum` leaves.
   */
  function LowerAscii(s: string): (r: string)
    ensures |r| == |s|
  {
    seq(|s|, i requires 0 <= i < |s| => ToLower(s[i]))
  }

  /**
    Lowercasing maps each of `A`-`Z` to the letter at the same place in
    `a`-`z`, leaves no `A`-`Z` behind and changes no other character.
   */
  lemma LowerAsciiMeaning(s: string)
    ensures var r := LowerAscii(s);
      && (forall i :: 0 <= i < |r| ==> !('A' <= r[i] <= 'Z'))
      && (forall i :: 0 <= i < |s| && !('A' <= s[i] <= 'Z') ==> r[i] == s[i])
      && (forall i :: 0 <= i < |s| && 'A' <= s[i] <= 'Z' ==>
            'a' <= r[i] <= 'z' && r[i] as int - 'a' as int == s[i] as int - 'A' as int)
  {
  }

  /** One name, normalised: non-alphanumerics removed, then lowercased. */
  function NormalizeName(s: string): (r: string)
    ensures IsCanonical(r)
    ensures |r| <= |s|
  {
    LowerAscii(StripNonAlnum(s))
  }

  /** A name normalises to nothing exactly when it has no ASCII letter or digit. */
  lemma NormalizeEmptyIff(s: string)
    ensures NormalizeName(s) == [] <==> forall i :: 0 <= i < |s| ==> !IsAsciiAlnum(s[i])
  {
    StripNonAlnumContents(s);
  }

  /** Removing characters distributes over concatenation. */
  lemma {:induction false} StripNonAlnumConcat(s: string, t: string)
    ensures StripNonAlnum(s + t) == StripNonAlnum(s) + StripNonAlnum(t)
  {
    if s == [] {
      assert s + t == t;
    } else {
      assert (s + t)[0] == s[0] && (s + t)[1..] == s[1..] + t;
      StripNonAlnumConcat(s[1..], t);
      if IsAsciiAlnum(s[0]) {
        calc {
          StripNonAlnum(s + t);
          [s[0]] + StripNonAlnum(s[1..] + t);
          [s[0]] + (StripNonAlnum(s[1..]) + StripNonAlnum(t));
          ([s[0]] + StripNonAlnum(s[1..])) + StripNonAlnum(t);
        }
      }
    }
  }

  /** Normalisation distributes over concatenation: it works character by character. */
  lemma NormalizeConcat(s: string, t: string)
    ensures NormalizeName(s + t) == NormalizeName(s) + NormalizeName(t)
  {
    StripNonAlnumConcat(s, t);
  }

  /** A name that is already canonical is its own normal form. */
  lemma {:induction false} NormalizeFixesCanonical(s: string)
    requires IsCanonical(s)
    ensures NormalizeName(s) == s
  {
    StripKeepsAlnum(s);
  }

  lemma {:induction false} StripKeepsAlnum(s: string)
    requires forall i :: 0 <= i < |s| ==> IsAsciiAlnum(s[i])
    ensures StripNonAlnum(s) == s
  {
    if s != [] {
      StripKeepsAlnum(s[1..]);
      assert s == [s[0]] + s[1..];
    }
  }

  /** Normalising twice is normalising once. */
  lemma NormalizeIdempotent(s: string)
    ensures NormalizeName(NormalizeName(s)) == NormalizeName(s)
  {
    NormalizeFixesCanonical(NormalizeName(s));
  }

  /** Names that differ only in the case of ASCII letters have the same normal form. */
  lemma {:induction false} NormalizeIgnoresCase(s: string, t: string)
    requires |s| == |t|
    requires forall i :: 0 <= i < |s| ==> ToLower(s[i]) == ToLower(t[i])
    ensures NormalizeName(s) == NormalizeName(t)
  {
    if s != [] {
      NormalizeIgnoresCase(s[1..], t[1..]);
      assert IsAsciiAlnum(s[0]) <==> IsAsciiAlnum(t[0]);
      NormalizeConcat([s[0]], s[1..]);
      NormalizeConcat([t[0]], t[1..]);
      assert s == [s[0]] + s[1..] && t == [t[0]] + t[1..];
    }
  }

  /** Trimming before normalising changes nothing, since whitespace is never kept. */
  lemma TrimIrrelevant(s: string)
    ensures NormalizeName(Trim(s)) == NormalizeName(s)
  {
    var lead := LeadingSpace(s);
    if lead == |s| {
      SpacesVanish(s);
      SpacesVanish([]);
    } else {
      var tail := |s| - TrailingSpace(s);
      var prefix, r, suffix := s[..lead], s[lead..tail], s[tail..];
      assert s == prefix + r + suffix;
      SpacesVanish(prefix);
      SpacesVanish(suffix);
      NormalizeConcat(prefix + r, suffix);
      NormalizeConcat(prefix, r);
    }
  }

  lemma SpacesVanish(s: string)
    requires forall i :: 0 <= i < |s| ==> IsSpace(s[i])
    ensures NormalizeName(s) == []
  {
    NormalizeEmptyIff(s);
  }
}
