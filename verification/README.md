# GovtDataBridge schema matcher, in Dafny

GovtDataBridge is a small Flask service. It compares the column names of two
datasets. A user pastes two comma-separated schema strings. Each string is
parsed into a list of normalised column names by `parse_schema_string`. The
two lists are then compared by `match_schemas`, which returns three sorted
lists: the names in both schemas, the names only in A, and the names only
in B.

This project models those two functions and the step of the `/match`
endpoint that composes them. The modules are:

- `LexOrder`: the order Python's `sorted` puts strings in. It compares code
  points lexicographically, and a proper prefix comes first.
- `SortedSets`: `sorted(list(s))` for a set of strings. It is the unique
  strictly ascending listing of the set.
- `Normalize`: the steps applied to one name.
  - `str.strip()`, using Python's whitespace set.
  - `re.sub(r'[^a-zA-Z0-9]', '', …)`, which keeps ASCII letters and digits.
  - `lower()`.
- `SchemaParser`: `str.split(',')`, its inverse `','.join`, and
  `parse_schema_string` itself. A non-string argument is the `NonText` case.
- `Matcher`: `match_schemas`, and `MatchInputs` for the `/match` endpoint.
- `Scenarios`: the docstring example and a complete `/match` request, worked
  out as lemmas.

The docstring of `parse_schema_string` lists lowercasing before the removal
of non-alphanumerics. The code does the removal first
(`GovtDataBridge/app.py:36`), and the model follows the code. The two orders
give different results only for the few non-ASCII characters whose Unicode
lowercase is ASCII, for example U+212A KELVIN SIGN and U+0130. After the
removal only `[a-zA-Z0-9]` is left, so Python's `lower()` is exactly ASCII
lowercasing there. `Normalize.ToLower` models it that way.

## Model

| member | source | states |
|---|---|---|
| `LexOrder.Less` | GovtDataBridge/app.py:62 | The order `sorted` compares strings by. Its contract says a string is never before an equal one. What the order is, is given by `LessMeaning` and the four order lemmas below. |
| `LexOrder.LessMeaning` | GovtDataBridge/app.py:62 | The string order used by `sorted` is the textbook one: `a` comes before `b` exactly when `a` is a proper prefix of `b`, or when they first differ at a position where `a` has the smaller code point. |
| `LexOrder.LessIrreflexive` | GovtDataBridge/app.py:62 | No string sorts before itself. |
| `LexOrder.LessAsymmetric` | GovtDataBridge/app.py:62 | Two strings never each sort before the other. |
| `LexOrder.LessTransitive` | GovtDataBridge/app.py:62 | The order is transitive. |
| `LexOrder.LessConnected` | GovtDataBridge/app.py:62 | Any two different strings are ordered one way or the other, so `sorted` has exactly one answer. |
| `SortedSets.SortedList` | GovtDataBridge/app.py:62 | `sorted(list(s))` holds exactly the members of `s`, each once, in strictly ascending order, and its length is the size of `s`. |
| `SortedSets.SortedUnique` | GovtDataBridge/app.py:62-68 | Two strictly sorted lists with the same members are equal, so the result does not depend on the order in which Python enumerates a set. |
| `SortedSets.StrictlySortedDistinct` | GovtDataBridge/app.py:62-68 | A sorted result repeats no name, so its length is its number of distinct members. |
| `Normalize.Trim` | GovtDataBridge/app.py:31 | `col.strip()`: the result is no longer than the segment. `IsSpace` is the set of characters for which `str.isspace()` holds. What `Trim` keeps is given by `TrimMeaning`. |
| `Normalize.TrimMeaning` | GovtDataBridge/app.py:31 | `strip()` keeps one contiguous run that starts after the leading whitespace. Everything outside the run is whitespace, and the run neither starts nor ends with whitespace. |
| `Normalize.TrimNoSpace` | GovtDataBridge/app.py:31 | A segment that neither starts nor ends with whitespace is left unchanged by `strip()`. |
| `Normalize.StripNonAlnum` | GovtDataBridge/app.py:36 | `re.sub(r'[^a-zA-Z0-9]', '', name)`: the result holds only ASCII letters and digits and is no longer than the input. Which characters it keeps is given by `StripNonAlnumContents` and `StripNonAlnumConcat`. |
| `Normalize.StripNonAlnumContents` | GovtDataBridge/app.py:36 | The regex substitution keeps every ASCII letter and digit as often as it occurs and removes every other character. The result is empty exactly when the input has no ASCII letter or digit. |
| `Normalize.LowerAscii` | GovtDataBridge/app.py:36 | `.lower()` on the stripped name keeps its length. `LowerAsciiMeaning` says what it does to each character: each of `A`-`Z` becomes the letter at the same place in `a`-`z`, and everything else is unchanged. |
| `Normalize.LowerAsciiMeaning` | GovtDataBridge/app.py:36 | After `.lower()` each of `A`-`Z` has become the letter at the same place in `a`-`z` (`A`→`a` … `Z`→`z`), no upper-case ASCII letter is left, and every character that is not `A`-`Z` is unchanged. |
| `Normalize.NormalizeName` | GovtDataBridge/app.py:36 | A normalised name holds only `a`-`z` and `0`-`9` and is no longer than the original. |
| `Normalize.NormalizeEmptyIff` | GovtDataBridge/app.py:36-37 | A name normalises to the empty string, and is therefore skipped, exactly when it has no ASCII letter or digit. |
| `Normalize.NormalizeConcat` | GovtDataBridge/app.py:36 | Normalising works character by character: the normal form of a concatenation is the concatenation of the normal forms. |
| `Normalize.NormalizeFixesCanonical` | GovtDataBridge/app.py:36 | A name of lower-case letters and digits is its own normal form. |
| `Normalize.NormalizeIdempotent` | GovtDataBridge/app.py:36 | Normalising twice gives the same as normalising once. |
| `Normalize.NormalizeIgnoresCase` | GovtDataBridge/app.py:36 | Names that differ only in the case of ASCII letters have the same normal form. |
| `Normalize.TrimIrrelevant` | GovtDataBridge/app.py:31-36 | Stripping a segment before normalising it changes nothing, because whitespace is never kept. |
| `SchemaParser.Split` | GovtDataBridge/app.py:31 | `schema_str.split(',')`: always at least one piece. The pieces are given by `SplitPieces`, and `JoinSplit` and `SplitJoin` show it is the inverse of `','.join`. |
| `SchemaParser.SplitPieces` | GovtDataBridge/app.py:31 | `split(',')` returns one more piece than there are commas, and no piece contains a comma. |
| `SchemaParser.JoinSplit` | GovtDataBridge/app.py:31 | Joining the pieces of `split(',')` with commas gives back the original string. |
| `SchemaParser.SplitJoin` | GovtDataBridge/app.py:31 | Splitting comma-free pieces joined by commas gives back the same pieces. |
| `SchemaParser.TrimAll` | GovtDataBridge/app.py:31 | The list comprehension building `column_names`: one stripped name per segment. `KeepIgnoresTrim` shows the stripping never changes what is kept. |
| `SchemaParser.KeptIndices` | GovtDataBridge/app.py:34-38 | Lists, in ascending order, the positions of exactly those column names whose normal form is non-empty. |
| `SchemaParser.KeepNormalized` | GovtDataBridge/app.py:33-38 | The loop: it keeps at most one name per column name. Which names and in what order is given by `KeepNormalizedMeaning`. |
| `SchemaParser.KeepNormalizedMeaning` | GovtDataBridge/app.py:33-38 | Entry `k` of the loop's output is the normal form of the `k`-th column name with a non-empty normal form. Order and repeats are kept, and every entry is a non-empty normalised name. |
| `SchemaParser.KeepIgnoresTrim` | GovtDataBridge/app.py:31-38 | The loop keeps the same names whether or not the segments were stripped first. |
| `SchemaParser.ParseSchemaString` | GovtDataBridge/app.py:27-40 | A non-string input gives `[]`. Every name returned is non-empty and holds only `a`-`z` and `0`-`9`. There are at most one more names than there are commas. |
| `SchemaParser.ParseConcat` | GovtDataBridge/app.py:30-40 | The parsed names, run together, are the normal form of the whole input: the parse loses only commas, whitespace and other non-alphanumerics. |
| `SchemaParser.ParseEmptyIff` | GovtDataBridge/app.py:33-40 | A string parses to `[]` exactly when it has no ASCII letter or digit. |
| `SchemaParser.ParseJoin` | GovtDataBridge/app.py:30-40 | Parsing normalised names joined with commas gives back the same names, in order and with repeats. |
| `Matcher.MatchSchemas` | GovtDataBridge/app.py:57-74 | All three lists are strictly sorted. `matches` holds exactly the names in both schemas, `unmatched_a` those only in A, and `unmatched_b` those only in B. |
| `Matcher.MatchPartition` | GovtDataBridge/app.py:58-68 | The names of A are split, with no overlap, into the matches and A's leftovers, and the same holds for B. The two leftover lists share no name. The lengths add up to the number of distinct names on each side. |
| `Matcher.MatchCanonical` | GovtDataBridge/app.py:62-68 | Any three strictly sorted lists with the right members are the result of `match_schemas`. |
| `Matcher.MatchSymmetric` | GovtDataBridge/app.py:61-68 | Swapping the two schemas keeps the matches and swaps the two leftover lists. |
| `Matcher.MatchOnlyElems` | GovtDataBridge/app.py:58-59 | Only the set of names on each side matters: order and repeats in the inputs are invisible. |
| `Matcher.MatchEmpty` | GovtDataBridge/app.py:57-74 | Two empty schemas give three empty lists. |
| `Matcher.MatchAgainstEmpty` | GovtDataBridge/app.py:57-74 | Against an empty schema nothing matches, and A's leftovers are all of A's distinct names, sorted. |
| `Matcher.MatchInputs` | GovtDataBridge/app.py:97-100 | The `/match` result lists only non-empty normalised names. A side whose input is not a string contributes nothing to the matches and has no leftovers. |
| `Scenarios.ParseDocstringExample` | GovtDataBridge/app.py:22-25 | `"CitizenID, Full Name, DOB"` parses to `["citizenid", "fullname", "dob"]`. |
| `Scenarios.MatchInputsExample` | GovtDataBridge/app.py:97-100 | The request with `"CitizenID, Full Name, DOB"` and `"citizen_id,dob,address"` gives matches `["citizenid", "dob"]`, A's leftover `["fullname"]` and B's leftover `["address"]`. |
| `Scenarios.MatchNonTextExample` | GovtDataBridge/app.py:27-28 | A non-string schema A matched against `["id", "name"]` leaves both names as B's leftovers. |
| `Scenarios.ParseEmptyExample` | GovtDataBridge/app.py:27-40 | The empty string, which the endpoint uses for a missing key, parses to no names. |

## Left out

- The Flask application, the `/` route and `render_template`: these are web framework plumbing with no logic of their own.
- `request.get_json()`, the `.get(..., '')` defaults and `jsonify`: JSON decoding and encoding are I/O. `MatchInputs` takes the two values the endpoint would pass, and a missing key is `Text("")`. Two error paths are not modelled. A body that is not valid JSON raises inside Flask's `get_json`. A body that is valid JSON but not an object (an array, a string, a number or `null`) is returned as is, and then `data.get` at `GovtDataBridge/app.py:94` raises `AttributeError`.
- The `__main__` block and `app.run(debug=True)`: starting a server.
- The `re` engine itself: only the one character class `[^a-zA-Z0-9]` is modelled, as a predicate on characters.
- Unicode `str.lower()` is not modelled beyond ASCII. It is only ever applied after the removal step, when just ASCII letters and digits remain.
- Python's set hashing and enumeration order: `list(set)` is abstracted away. The result is sorted, and `SortedSets.SortedUnique` shows the order cannot matter.
- `Matcher.MatchSchemas` takes lists of strings. Python would also accept other hashable, orderable elements, but the endpoint only ever passes the string lists that `parse_schema_string` returns.
- Strings holding lone surrogates: a Python `str` can contain one (JSON `"a\ud800b"` decodes to a three-character `str` that reaches `parse_schema_string`), but a Dafny `char` cannot. Such inputs are outside the model. The behaviour would not differ, because a surrogate is neither whitespace nor in `[a-zA-Z0-9]`, so it is removed like any other such character.
- The frontend (HTML and JavaScript) is not part of this model.
