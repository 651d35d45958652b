# Catalog search engine of script.js, in Dafny

This is a model of the search engine behind the catalog page's search box.
It has two parts.

- **`levenshteinDistance(s1, s2)`** folds both strings to lower case. It
  then fills a `(|s1|+1) x (|s2|+1)` Wagner–Fischer table: first column,
  then first row, then the inner cells column by column. It returns the
  bottom-right cell.
- **The filter policy of `iniciarBusca`** normalises the query: lower case,
  then `trim`. An empty query shows the whole catalog. Otherwise a record is
  kept in two tiers:
  - the exact tier: the query is part of the lower-cased name (`nome`) or
    description (`descricao`);
  - the fuzzy tier, tried only if the exact tier fails: the name is within
    `maxErros` edits of the query (one edit for queries of up to five
    characters, two for longer ones).

  `Array.prototype.filter` keeps the surviving records in catalog order.

Files:

- `text.dfy` (module `Text`): the browser string primitives the engine uses.
  - `toLowerCase` is `Lower`.
  - `trim` is `Trim`.
  - `includes` is `Contains`.
- `edit_distance.dfy` (module `EditDistance`): the recursive Levenshtein
  distance `Lev`, with its bounds, identity, symmetry and triangle
  inequality. It also has a few exact facts: a common suffix never adds
  edits, swapping the last two characters costs exactly two, swapping any
  two adjacent characters costs at most two, and letter counts give a
  lower bound.
- `levenshtein.dfy` (module `Levenshtein`): `levenshteinDistance` as
  imperative code over an `array2<int>`, proved against `Lev`.
  - `InitBorders` fills the first column and row.
  - `FillInner` fills the inner cells, column by column.
  - `LevenshteinDistance` folds the strings, allocates the table, calls both
    and reads the corner cell.
- `search.dfy` (module `Search`): the catalog `Record`, the query
  normalisation, `maxErros`, the two tiers, `Array.prototype.filter` as
  `Select`, and the search `Filter`. It holds the lemmas on membership,
  order, blank queries, case and padding.
- `search_scenarios.dfy` (module `SearchScenarios`): concrete searches,
  derived from the general lemmas.
  - The catalog is a microscope record and a telescope record.
  - The queries are `"microscop"`, `"mircoscope"` and `"xyz"`.
  - It also covers the `"table"`/`"tabel"` threshold boundary and
    `"ABC"`/`"abc"`.

Character semantics:

- `toLowerCase` is modelled exactly for the ASCII capitals and for the
  Latin-1 capitals U+00C0..U+00DE (except U+00D7). Every other character is
  left unchanged.
- `trim` removes exactly the characters that ECMAScript counts as WhiteSpace
  or LineTerminator.

## Model

| member | source | states |
|---|---|---|
| Text.LowerChar | script.js:15-16 | Folding a character maps each capital to the letter 32 code points higher and leaves every other character alone. No capital remains. |
| Text.IsWhiteSpace | script.js:58 | The characters `trim` removes: ECMAScript WhiteSpace and LineTerminator. None of them is a capital letter, and folding leaves each of them unchanged. |
| Text.Lower | script.js:15-16 | `toLowerCase` keeps the length and folds each character on its own. The result has no capital letters. |
| Text.LowerIdempotent | script.js:58 | Lower-casing an already lower-cased string changes nothing. The query and the names can therefore be folded more than once, as `levenshteinDistance` folds the already folded query again. |
| Text.LowerAppend | script.js:58 | Lower-casing a concatenation lower-cases each part. |
| Text.LowerKeepsWhiteSpace | script.js:58 | A string is all white space exactly when its lower-cased form is. Folding before trimming does not change what is trimmed. |
| Text.TrimNoUpper | script.js:58 | Trimming a string without capital letters leaves none, since `trim` only removes characters. |
| Text.Trim | script.js:58 | `trim` returns a slice of the input with only white space around it, neither starting nor ending with white space. It is empty exactly when the input is all white space. |
| Text.TrimUnique | script.js:58 | Any slice surrounded only by white space, with no white space at either end, is what `trim` returns. |
| Text.TrimIgnoresPadding | script.js:58 | Adding white space before or after a string does not change its trimmed form. |
| Text.LowerOfLower | script.js:58 | A string with no capital letters is its own lower-case form. |
| Text.TrimOfTrimmed | script.js:58 | A string that neither starts nor ends with white space is its own trimmed form. |
| Text.Contains | script.js:73-74 | `includes`: the searched-for string occurs at some position of the other. The empty string is contained in every string, and a contained string is never longer than the one containing it. |
| Text.ContainsPrefix | script.js:73-74 | `includes` finds every prefix of a string. |
| Text.ContainsFirst | script.js:73-74 | When `includes` finds a non-empty string, its first character occurs in the searched string. |
| Text.ContainsNoLonger | script.js:73-74 | A string contains nothing longer than itself. The only part of equal length is the string itself. |
| EditDistance.Min3 | script.js:33-37 | `Math.min` of three values is at most each of them and equal to one of them. |
| EditDistance.Cost | script.js:32 | The substitution cost is 0 exactly when the two characters are equal, and 1 otherwise. |
| EditDistance.Lev | script.js:30-41 | The reference definition of the distance: the length of the other string when one is empty, otherwise the least of deleting the last character of the first string, inserting the last character of the second, or substituting the last character at `Cost`. It is the recurrence of the table, read for whole prefixes; the lemmas below state its properties. |
| EditDistance.LevStepBounds | script.js:33-37 | Deletion, insertion and substitution (free when the characters agree) each bound the distance of two non-empty strings from above. |
| EditDistance.LevLast | script.js:33-37 | The distance of two non-empty strings is reached by one of those three last steps. |
| EditDistance.LevLowerBound | script.js:10-12 | The distance is at least the difference of the lengths. |
| EditDistance.LevUpperBound | script.js:10-12 | The distance is at most the longer length. |
| EditDistance.LevSelf | script.js:10-12 | A string is at distance 0 from itself. |
| EditDistance.LevZeroOnlyIfEqual | script.js:10-12 | Distance 0 implies the strings are equal. |
| EditDistance.LevZeroIff | script.js:10-12 | The distance is 0 exactly when the strings are equal. |
| EditDistance.LevSymmetric | script.js:10-12 | The distance does not depend on the order of the arguments. |
| EditDistance.LevTriangle | script.js:10-12 | The triangle inequality: going through a third string never costs less. |
| EditDistance.LevCommonSuffix | script.js:33-37 | Appending the same characters to both strings never increases the distance. |
| EditDistance.LevTransposition | script.js:33-37 | Swapping the last two characters of a string, when they differ, costs exactly two edits, never one. |
| EditDistance.LevAdjacentSwap | script.js:33-37 | Swapping any two adjacent characters anywhere in a string costs at most two edits. |
| EditDistance.LevCountBound | script.js:33-37 | For any set of characters C, the distance is at least the number of characters from C that the first string has beyond the second. |
| Levenshtein.LevCell | script.js:32-37 | Each inner cell's recurrence holds for the distances of the prefixes. |
| Levenshtein.InitBorders | script.js:22-27 | Afterwards cell (i, 0) holds i and cell (0, j) holds j. The inner cells are unchanged. |
| Levenshtein.FillInner | script.js:30-39 | After the column-major loops, with the borders in place, every cell (i, j) holds the distance of the first i characters of one string and the first j of the other. |
| Levenshtein.Distance | script.js:14-42 | The value `levenshteinDistance` returns, as a function: the distance of the lower-cased strings. It lies between the difference of the two lengths and the longer length. |
| Levenshtein.LevenshteinDistance | script.js:14-42 | The returned value is the Levenshtein distance of the two lower-cased strings. |
| Levenshtein.DistanceIgnoresCase | script.js:15-16 | Lower-casing the arguments first does not change the result. |
| Levenshtein.DistanceToEmpty | script.js:22-27 | The distance to or from the empty string is the other string's length. |
| Levenshtein.DistanceZeroIff | script.js:10-16 | The result is 0 exactly when the strings agree up to case. |
| Levenshtein.DistanceSymmetric | script.js:10-16 | The result does not depend on the order of the arguments. |
| Levenshtein.DistanceTriangle | script.js:10-16 | The case-insensitive distance obeys the triangle inequality. |
| Search.Normalize | script.js:58 | `termoBusca` has no capital letters and neither starts nor ends with white space. It is empty exactly when the typed query is all white space. |
| Search.MaxErrors | script.js:68 | `maxErros` is 1 exactly for queries of at most five characters and 2 exactly for longer ones. |
| Search.ExactMatch | script.js:72-74 | `buscaExata` holds when the term is part of the lower-cased name or description. The empty term matches every record; a matching term is no longer than the name or the description. |
| Search.FuzzyMatch | script.js:79-80 | `buscaFuzzyNome` holds when the name is within `maxErros` edits of the term, case ignored. An accepted name's length is within `maxErros` of the term's length. |
| Search.Keep | script.js:70-87 | The `filter` callback returns true exactly when the exact tier or the fuzzy tier accepts the record. A kept record that the exact tier rejects has a name within two characters of the term's length. |
| Search.Select | script.js:70 | `filter` returns no more elements than it is given, and each of them passes the callback. |
| Search.Filter | script.js:58-88 | An empty normalised query returns the catalog unchanged. Otherwise a record is in the result iff it is in the catalog and one holds: the query is part of its lower-cased name, the query is part of its lower-cased description, or the name is within `maxErros` edits of the query. |
| Search.SelectMembers | script.js:70 | `filter` keeps every element that passes the callback and nothing else. |
| Search.SelectIsInOrder | script.js:70 | `filter` returns the passing elements at strictly increasing positions of the input, and exactly those positions. So the result is the input with the failing elements removed, in the original order. |
| Search.SelectionStep | script.js:70 | The positions kept in an array's tail, shifted by one, plus position 0 when the head passes, are the positions kept in the whole array. |
| Search.SelectAppend | script.js:70 | Filtering a concatenation filters each part separately. No element's fate depends on another's. |
| Search.FilterIsInOrder | script.js:58-88 | With a non-empty query, the search result lists exactly the catalog records that pass the two-tier rule, in catalog order. |
| Search.BlankQueryShowsAll | script.js:58-63 | A query made only of white space shows the whole catalog, in its order. |
| Search.ExactMatchIsShown | script.js:72-76 | A record whose name or description contains the normalised query is shown, whatever its edit distance. |
| Search.DescriptionNotFuzzy | script.js:78-87 | The description only takes part in the exact tier. Replacing a description that does not contain the query with another that does not contain it changes no decision. |
| Search.KeepIgnoresRecordCase | script.js:73-74 | A record's decision does not depend on the case of its name or description. |
| Search.FilterIgnoresQueryCase | script.js:58 | The search does not depend on the case of the query. |
| Search.FilterIgnoresPadding | script.js:58 | White space typed before or after the query does not change the search. |
| SearchScenarios.UpperAndLowerAgree | script.js:15-16 | `levenshteinDistance("ABC", "abc")` is 0. |
| SearchScenarios.ThresholdBoundary | script.js:68-87 | "tabel" has tolerance 1. "table" is 2 edits from it. A record named "table" whose description does not contain "tabel" is not shown for that query. |
| SearchScenarios.PrefixQuery | script.js:58-88 | With a microscope record and a telescope record, the query "microscop" shows exactly the microscope, found by the exact tier. |
| SearchScenarios.TransposedQuery | script.js:58-88 | The query "mircoscope" shows exactly the microscope: an adjacent swap, so at most two edits away, within the tolerance of a ten-character query. |
| SearchScenarios.UnmatchedQuery | script.js:58-88 | The query "xyz" shows nothing: an empty result, not an error. |
| SearchScenarios.DroppedByLetters | script.js:72-87 | A record is dropped when the exact tier fails and its name has more letters from some set than the query, by more than the tolerance. |
| SearchScenarios.SelectPair | script.js:70 | Filtering a two-element array keeps each element on its own decision, first before second. |

## Left out

- Loading `data.json` with `fetch`, the module-level `dados` cache and the
  `try/catch` that logs a failed load (script.js:3, 46-56). The catalog is a
  parameter of `Filter`.
- `renderizarCards` (script.js:93-118) and the "no results" message: DOM
  output only. `Filter` returns the sequence the page would render.
- Reading the query from the input element, the `input` event listener and
  the element lookups (script.js:1-2, 5-6, 120-124): UI wiring. The raw
  query is a parameter of `Filter`.
- `data_criacao` and `link_oficial` are carried in `Record` as
  `dataCriacao` and `linkOficial`. The engine never reads them.
- Text.Lower: Unicode case mappings outside ASCII and Latin-1 are not
  modelled; such characters are left unchanged. Mappings that change the
  length (such as U+0130) are not modelled either.
- JavaScript strings are sequences of UTF-16 code units. Here strings are
  sequences of Unicode scalar values, so a character outside the Basic
  Multilingual Plane counts as one character, not two.
- Levenshtein.LevenshteinDistance: the JavaScript table is an array of row
  arrays pre-filled with `null`, built inside one function. The model
  allocates one `array2<int>` (Dafny fills it with arbitrary integers). It
  splits the border and inner loops into `InitBorders` and `FillInner`.
  No cell is read before it is written, so the result is the same.
- JavaScript numbers are doubles. The distances are small non-negative
  integers, so unbounded integers model them exactly.
- The page's handling of overlapping asynchronous searches (each keystroke
  starts one) is not modelled. Each call of `Filter` is independent.
