/** Worked examples: the docstring of `parse_schema_string` and a two-schema `/match` request, proved. */
module Scenarios {
  import opened LexOrder
  import opened Normalize
  import opened SchemaParser
  import opened SortedSets
  import opened Matcher

  lemma BlankVanishes()
    ensures NormalizeName(" ") == [] && NormalizeName("_") == []
  {
  }

  lemma CitizenId()
    ensures NormalizeName("CitizenID") == "citizenid"
  {
    JoinedWords("Citizen", "", "ID", "citizen", "id");
    assert "CitizenID" == "Citizen" + "" + "ID";
    assert "citizen" + "id" == "citizenid";
  }

  /** A space followed by letters and digits normalises to the lowercased letters and digits. */
  lemma SpacedWord(w: string, n: string)
    requires forall i :: 0 <= i < |w| ==> IsAsciiAlnum(w[i])
    requires LowerAscii(w) == n
    ensures NormalizeName(" " + w) == n
  {
    BlankVanishes();
    StripKeepsAlnum(w);
    NormalizeConcat(" ", w);
  }

  lemma FullName()
    ensures NormalizeName(" Full Name") == "fullname"
  {
    BlankVanishes();
    JoinedWords("Full", " ", "Name", "full", "name");
    assert "full" + "name" == "fullname";
    assert " Full Name" == " " + ("Full" + " " + "Name");
    NormalizeConcat(" ", "Full" + " " + "Name");
  }

  lemma Dob()
    ensures NormalizeName(" DOB") == "dob" && NormalizeName("dob") == "dob"
  {
    SpacedWord("DOB", "dob");
    assert " DOB" == " " + "DOB";
    StripKeepsAlnum("dob");
  }

  lemma Address()
    ensures NormalizeName("address") == "address"
  {
    StripKeepsAlnum("address");
  }

  /** Parsing three comma-separated segments, given the normal forms of the segments. */
  lemma ParseThree(s: string, a: string, b: string, c: string, na: string, nb: string, nc: string)
    requires ',' !in a && ',' !in b && ',' !in c
    requires s == a + "," + b + "," + c
    requires NormalizeName(a) == na && NormalizeName(b) == nb && NormalizeName(c) == nc
    requires na != [] && nb != [] && nc != []
    ensures ParseSchemaString(Text(s)) == [na, nb, nc]
  {
    var segs := [a, b, c];
    assert segs[..2] == [a, b] && [a, b][..1] == [a];
    assert Join([a, b]) == a + "," + b;
    assert Join(segs) == s;
    SplitJoin(segs);
    var trimmed := TrimAll(segs);
    TrimIrrelevant(a);
    TrimIrrelevant(b);
    TrimIrrelevant(c);
    assert ParseSchemaString(Text(s)) == KeepNormalized(trimmed);
    KeepThree(trimmed, na, nb, nc);
  }

  lemma KeepThree(trimmed: seq<string>, na: string, nb: string, nc: string)
    requires |trimmed| == 3
    requires NormalizeName(trimmed[0]) == na && NormalizeName(trimmed[1]) == nb && NormalizeName(trimmed[2]) == nc
    requires na != [] && nb != [] && nc != []
    ensures KeepNormalized(trimmed) == [na, nb, nc]
  {
    assert trimmed[..1][..0] == [];
    assert KeepNormalized(trimmed[..1]) == [na];
    assert trimmed[..2][..1] == trimmed[..1];
    assert KeepNormalized(trimmed[..2]) == [na, nb];
  }

  lemma DocstringSegments(s: string)
    // Inputs are parameters fixed by `requires`, which keeps the literals from being unfolded throughout the proof.
    requires s == "CitizenID, Full Name, DOB"
    ensures s == "CitizenID" + "," + " Full Name" + "," + " DOB"
    ensures ',' !in "CitizenID" && ',' !in " Full Name" && ',' !in " DOB"
  {
  }

  lemma DocstringNames()
    ensures NormalizeName("CitizenID") == "citizenid"
    ensures NormalizeName(" Full Name") == "fullname"
    ensures NormalizeName(" DOB") == "dob"
  {
    CitizenId();
    FullName();
    Dob();
  }

  /** The docstring's example: `"CitizenID, Full Name, DOB"` parses to three names. */
  lemma ParseDocstringExample(s: string)
    // Inputs are parameters fixed by `requires`, which keeps the literals from being unfolded throughout the proof.
    requires s == "CitizenID, Full Name, DOB"
    ensures ParseSchemaString(Text(s)) == ["citizenid", "fullname", "dob"]
  {
    DocstringNames();
    DocstringSegments(s);
    ParseThree(s, "CitizenID", " Full Name", " DOB", "citizenid", "fullname", "dob");
  }

  /** Two parsed schemas sharing the citizen id and date of birth: one name left over on each side. */
  lemma MatchCitizenExample(a: seq<string>, b: seq<string>)
    // Inputs are parameters fixed by `requires`, which keeps the literals from being unfolded throughout the proof.
    requires a == ["citizenid", "fullname", "dob"] && b == ["citizenid", "dob", "address"]
    ensures MatchSchemas(a, b) == MatchResult(["citizenid", "dob"], ["fullname"], ["address"])
  {
    assert Less("citizenid", "dob");
    MatchCanonical(a, b, MatchResult(["citizenid", "dob"], ["fullname"], ["address"]));
  }

  /** Two words joined by a separator that normalises away. */
  lemma JoinedWords(w1: string, sep: string, w2: string, n1: string, n2: string)
    requires forall i :: 0 <= i < |w1| ==> IsAsciiAlnum(w1[i])
    requires forall i :: 0 <= i < |w2| ==> IsAsciiAlnum(w2[i])
    requires NormalizeName(sep) == []
    requires LowerAscii(w1) == n1 && LowerAscii(w2) == n2
    ensures NormalizeName(w1 + sep + w2) == n1 + n2
  {
    StripKeepsAlnum(w1);
    StripKeepsAlnum(w2);
    NormalizeConcat(w1 + sep, w2);
    NormalizeConcat(w1, sep);
  }

  lemma CitizenUnderscoreId()
    ensures NormalizeName("citizen_id") == "citizenid"
  {
    BlankVanishes();
    JoinedWords("citizen", "_", "id", "citizen", "id");
    assert "citizen_id" == "citizen" + "_" + "id";
    assert "citizen" + "id" == "citizenid";
  }

  lemma CitizenSegments(s: string)
    // Inputs are parameters fixed by `requires`, which keeps the literals from being unfolded throughout the proof.
    requires s == "citizen_id,dob,address"
    ensures s == "citizen_id" + "," + "dob" + "," + "address"
    ensures ',' !in "citizen_id" && ',' !in "dob" && ',' !in "address"
  {
  }

  lemma CitizenNames()
    ensures NormalizeName("citizen_id") == "citizenid"
    ensures NormalizeName("dob") == "dob"
    ensures NormalizeName("address") == "address"
  {
    CitizenUnderscoreId();
    Dob();
    Address();
  }

  lemma ParseCitizenExample(s: string)
    // Inputs are parameters fixed by `requires`, which keeps the literals from being unfolded throughout the proof.
    requires s == "citizen_id,dob,address"
    ensures ParseSchemaString(Text(s)) == ["citizenid", "dob", "address"]
  {
    CitizenNames();
    CitizenSegments(s);
    ParseThree(s, "citizen_id", "dob", "address", "citizenid", "dob", "address");
  }

  /** The whole `/match` request for those two schemas, from the raw strings. */
  lemma MatchInputsExample(sa: string, sb: string)
    // Inputs are parameters fixed by `requires`, which keeps the literals from being unfolded throughout the proof.
    requires sa == "CitizenID, Full Name, DOB" && sb == "citizen_id,dob,address"
    ensures MatchInputs(Text(sa), Text(sb)) == MatchResult(["citizenid", "dob"], ["fullname"], ["address"])
  {
    ParseDocstringExample(sa);
    ParseCitizenExample(sb);
    MatchCitizenExample(["citizenid", "fullname", "dob"], ["citizenid", "dob", "address"]);
  }

  /** A non-string schema matches nothing: everything on the other side is left over. */
  lemma MatchNonTextExample(b: seq<string>)
    // Inputs are parameters fixed by `requires`, which keeps the literals from being unfolded throughout the proof.
    requires b == ["id", "name"]
    ensures MatchSchemas(ParseSchemaString(NonText), b) == MatchResult([], [], ["id", "name"])
  {
    assert Less("id", "name");
    MatchCanonical([], b, MatchResult([], [], ["id", "name"]));
  }

  /** `match_schemas(["id"], [])`: the one name is A's leftover. */
  lemma MatchOneSidedExample()
    ensures MatchSchemas(["id"], []) == MatchResult([], ["id"], [])
  {
    MatchCanonical(["id"], [], MatchResult([], ["id"], []));
  }

  /** The empty string parses to no names: its one segment normalises to nothing. */
  lemma ParseEmptyExample()
    ensures ParseSchemaString(Text("")) == []
  {
    ParseEmptyIff("");
  }
}
