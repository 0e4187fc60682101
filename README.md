# GeoHelper, modelled in Dafny

`GeoHelper` (script.php) resolves a free-text address fragment to a Russian
city and/or region. The model covers four of its parts:

- **The normaliser, `getSearch`.** It turns punctuation runs into a space and
  whitespace runs into a space. It replaces the non-breaking-space forms with a
  space, strips tags and trims. A word is a maximal run of digits, word
  characters and hyphens. The result is the input's words, in order, joined by
  single spaces.
- **The loaders, `loadCities` and `loadRegions`.** They fill an insertion-ordered
  PHP array from matchable text (a name or a synonym) to entity id.
- **The matcher, `tryFindGeo`.** It picks the first city key, in table order,
  whose lower-cased form occurs in the lower-cased normalised text. Without a
  city hit it picks the first region key the same way.
- **The result state machine.** This is `parse`, `setSearch`, `reset`,
  `setProperty`, `isFound` and the constructor. It validates the text, clears
  the result, loads the tables, matches, and derives the postal code, the
  federal district and the two "with type" labels.

Modules:

- `Wrappers`: `Option`.
- `Text`: the normaliser over abstract character classes.
- `Dictionary`: the PHP array as a sequence of (key, id) pairs, with `Assign`
  for `$t[$k] = $v`.
- `Matcher`: lower-casing, containment and the first-hit scan.
- `Geo`: the records and the pure meaning of a parse (`Derive`, `FindGeo`,
  `Resolve`). It also holds the class `GeoHelper`, whose fields and methods
  follow the PHP class.

PHP's `empty()` on a string is true for `""` and for `"0"`. Both are rejected.
A rejected text raises an exception in PHP. Here it is the `Err` outcome of
`Parse`, and the object is left exactly as it was.

A key assigned twice keeps its first position and takes the later id, as a PHP
array does (`$t[$k] = $id`). `Dictionary.Assign` models this. Keys are
lower-cased at match time but never normalised.

## Model

| member | source | states |
|---|---|---|
| Text.StripPunctuation | script.php:155 | every character left is a digit, a word character, `-` or a space; the digits, word characters and hyphens of the input all survive, in order (where the spaces go is `Text.StripPunctuationWords`) |
| Text.StripPunctuationWords | script.php:155 | punctuation only separates words, so the words (maximal runs of digits, word characters and hyphens) of the result are those of the input, in order |
| Text.StripPunctuationKeeps | script.php:155 | text made only of kept characters passes through unchanged |
| Text.CollapseWhitespace | script.php:156 | no two spaces are adjacent; every other character is non-whitespace from the input; the non-whitespace characters of the input all survive, in order; a run that is already open yields no leading space (where the spaces go is `Text.CollapseWhitespaceWords`) |
| Text.CollapseWhitespaceWords | script.php:156 | whitespace only separates words, so the words of the result are those of the input, in order |
| Text.CollapseWhitespaceKeeps | script.php:156 | single-spaced text whose only whitespace is the plain space passes through unchanged |
| Text.ReplaceAll | script.php:157-158 | every character of the result comes from the subject or the replacement, and a one-character search that is not in the replacement is gone from the result |
| Text.ReplaceNbsp | script.php:157-158 | no NBSP is left, and every character left is from the input or a space |
| Text.ReplaceAllAbsent | script.php:157-158 | `str_replace` changes nothing when the first character of the search string does not occur in the subject |
| Text.NbspAbsent | script.php:155-158 | after the punctuation filter no NBSP or `&` is left, so both `str_replace` lines are identities |
| Text.KeptIsTagFree | script.php:155-159 | after the punctuation filter no `<` or NUL is left, so `strip_tags` has nothing to remove |
| Text.TrimLeft | script.php:161 | the result is a suffix of the input and does not start with a trimmed character; input that does not start with one is returned unchanged |
| Text.TrimRight | script.php:161 | the result is a prefix of the input and does not end with a trimmed character; input that does not end with one is returned unchanged |
| Text.Trim | script.php:161 | the result is a prefix of the left-trimmed input, so a contiguous slice of the input; neither end is a trimmed character, and an input whose ends are already untrimmed is returned unchanged |
| Text.TrimLeftCutsOnlyTrimmed | script.php:161 | everything `ltrim` removes is a trimmed character |
| Text.TrimRightCutsOnlyTrimmed | script.php:161 | everything `rtrim` removes is a trimmed character |
| Text.TrimCutsOnlyTrimmed | script.php:161 | everything `trim` removes, at either end, is a trimmed character |
| Text.WordsOfTrim | script.php:161 | trimming removes separators only, so the words of the result are those of the input |
| Text.NormalizedIsJoinedWords | script.php:155-161 | text in normal form is its own words joined by single spaces |
| Text.SolidOfTrim | script.php:161 | trimming keeps every digit, word character and hyphen, in order |
| Text.Squeeze | script.php:155-156 | the two regular expressions leave only kept characters, single-spaced, keep every digit, word character and hyphen of the input, in order, and keep its words: the same words in the same order, none split and none glued to a neighbour |
| Text.TrimNormalizes | script.php:155-161 | trimming single-spaced kept text puts it in normal form |
| Text.Normalize | script.php:153-162 | the normalised search contains only word characters, digits, `-` and single spaces, with no space at either end; it has the same words as the input, and it is exactly those words joined by single spaces |
| Text.EntityAndTagStepsAreNoOps | script.php:155-161 | the result equals trimming the output of the two regular expressions alone |
| Text.NormalizeFixesNormalized | script.php:153-162 | text already in normal form is returned unchanged |
| Text.NormalizeIdempotent | script.php:153-162 | normalising twice equals normalising once |
| Text.NormalizeKeepsSolid | script.php:153-162 | normalising keeps every digit, word character and hyphen of the input, in the same order |
| Text.NoiseNormalizesToEmpty | script.php:153-162 | text with no word character (letter, digit or underscore) and no hyphen normalises to the empty string |
| Dictionary.IndexOf | script.php:88-94 | returns the first position holding the key, or none when no position holds it |
| Dictionary.HasKeyAt | script.php:88-94 | a key is in the table exactly when some entry holds it |
| Dictionary.Lookup | script.php:88-94 | reading `$t[$k]` gives a value exactly when the key is present, and that value is stored with that key |
| Dictionary.Assign | script.php:88-94 | keys stay pairwise distinct |
| Dictionary.AssignSpec | script.php:88-94 | `$t[$k] = $v` keeps an existing key in its place and gives it the new id, or appends a new key; every other key keeps its lookup |
| Dictionary.LastIndex | script.php:85-96 | returns the last position in the assignment sequence that assigns the key |
| Dictionary.AssignRecords | script.php:88-94 | one assignment keeps the table recording all assignments so far |
| Dictionary.AssignAllRecords | script.php:85-96 | the keys of a table filled from empty are exactly the assigned keys, each once, in the order of first assignment, each with the id of its last assignment |
| Dictionary.EntryPairs | script.php:88-95 | an entity assigns its name first, then each synonym in order, all with its own id; an entity without synonyms assigns only its name |
| Dictionary.EntryPairsKeys | script.php:88-95 | an entity assigns exactly its name and its synonyms as keys |
| Dictionary.PairsStart | script.php:85-96 | every entity assigns at least one key, and the very first assignment of a load is the first entity's name with its id |
| Dictionary.PairsKeys | script.php:87-96 | the assigned keys are exactly the names and synonyms of the loaded entities |
| Dictionary.Build | script.php:85-96 | the table built from empty records the loaded assignments: unique keys, exactly the assigned keys, in first-assignment order, each with its last id |
| Dictionary.LoadOnce | script.php:79-97 | a non-empty table is kept as it is; an empty one becomes the table recording the loaded assignments |
| Dictionary.BuildRecords | script.php:79-116 | after loading, the table has exactly the loaded entities' names and synonyms as keys, in first-insertion order, each with the last assigned id |
| Dictionary.LoadOnceIsStable | script.php:81-83 | a table that was loaded from at least one entity is never rebuilt by a later load |
| Matcher.FirstHit | script.php:122-131 | the chosen key is contained in the text and is non-empty, no earlier key is contained in the text, and there is no hit exactly when no key is contained |
| Matcher.Contains | script.php:123 | a needle is contained only when it is non-empty and no longer than the text |
| Matcher.LowerKeepsContains | script.php:120-123 | lower-casing the text and the key keeps every occurrence of the key |
| Matcher.ContainsAt | script.php:123 | a key occurring anywhere in the text matches; no word boundary is needed |
| Geo.Derive | script.php:181-199 | `setProperty` never changes `found`, the city or the region, and changes nothing when nothing was found or no region is set |
| Geo.FindGeo | script.php:118-148 | something is found exactly when it was found before or a city or region key hits. A city hit sets that city and, only when no region was set, the city's region. Without a city hit the city is unchanged, and the first region hit is taken only when nothing was found before. The derived fields are consistent with `setProperty`, and when nothing is found or no region is set they keep their prior values |
| Geo.Resolve | script.php:118-148 | a parse finds something exactly when a city key or a region key hits. A city hit takes that city and its own region, whatever the region table holds. Without a city hit the region is the first region hit. Nothing found leaves every field cleared. The derived fields follow the city-and-region and region-only rules, and stay null without a region |
| Geo.CityHitIgnoresRegions | script.php:133-136 | on a city hit the region table has no influence on the result |
| Geo.ResolveOfNormalized | script.php:120-123 | parsing already-normalised text gives the same result as parsing the raw text |
| Geo.GeoHelper.constructor | script.php:37-41 | a helper built without text has nothing found and no tables loaded |
| Geo.GeoHelper.Create | script.php:37-44 | construction with an empty text fails. Construction with no text gives a cleared helper. Construction with text gives the result of one parse over freshly loaded tables |
| Geo.GeoHelper.IsFound | script.php:46-49 | answers the `found` field |
| Geo.GeoHelper.Parse | script.php:56-64 | an empty text fails and changes nothing. Otherwise the search is stored, the tables are loaded only if they were empty, the fields equal `Resolve` of the text, and the answer is `found` |
| Geo.GeoHelper.SetSearch | script.php:70-77 | rejects exactly `""` and `"0"`, storing nothing then; otherwise stores the text |
| Geo.GeoHelper.LoadCities | script.php:79-97 | an empty city table becomes the table built from the cities' names and synonyms; a non-empty one is left as it is |
| Geo.GeoHelper.LoadRegions | script.php:99-116 | the same for the region table |
| Geo.GeoHelper.LoadData | script.php:175-179 | both tables are loaded lazily |
| Geo.GeoHelper.GetSearch | script.php:153-162 | the search text in normal form |
| Geo.GeoHelper.TryFindGeo | script.php:118-148 | the result fields become `FindGeo` of the old fields over the lower-cased normalised search |
| Geo.GeoHelper.MatchKeys | script.php:122-147 | the two `foreach` scans and the final `setProperty` over a given lower-cased text yield `FindGeo` of the old fields |
| Geo.GeoHelper.Reset | script.php:164-173 | every result field is cleared |
| Geo.GeoHelper.SetProperty | script.php:181-199 | the result fields become `Derive` of the old ones |

## Left out

- The database: `City::orderBy('name')->get()`, `Region::orderBy('name')->get()`, `City::with('region')->find` and `Region::find` are not modelled.
  - `Store` stands in for them. It holds the records in the order the store returns them (ordering by name is not modelled) and total lookups by id.
  - A `find` that returns null is not modelled. Neither is the error PHP would then raise when reading the region of a null city.
- Unicode `\w` and `\d` under `/u`, and `Str::lower`, are parameters (`Text.CharClasses`). The model only assumes that no whitespace, NUL, NBSP, `<` or `&` is a word or digit character.
- `Str::contains` with an empty needle is taken to be false. The library's own rule for empty needles is not part of this model.
- `strip_tags` is modelled only on input without `<` and NUL, where it removes nothing. The model proves that its input is always of that kind. Its tag-parsing state machine is left out.
- `preg_replace` returning null on invalid UTF-8 is not modelled: strings are sequences of characters.
- PHP's conversion of numeric-string array keys to integers is not modelled. Keys are strings.
- An uninitialised `search` property is modelled as the empty string.
- Exceptions are modelled as the `Err` outcome of `Parse` and `Create`.
- Geo.GeoHelper.TryFindGeo: the method computes the text and hands the two scans to `MatchKeys`. The scans themselves are unchanged, and the split keeps each proof small.
- Geo.GeoHelper.LoadCities, Geo.GeoHelper.LoadRegions: each table is built in a local variable and stored once at the end. PHP writes each key into the property as it goes. Nothing observes the property in between, so the final state is the same.
