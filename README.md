# Plant catalog filter — a Dafny model

This project models the filter engine of a small plant-finder web page. A fixed
catalog of plant records is narrowed by twelve drop-down selections: the plant
type; nine tag lists (sunlight, aspect, soil texture, pH, situation,
characteristics, season of interest, features, colours); and two numeric bands,
height and spread. A selection left empty is a wildcard. The records that pass
are sorted by botanical name.

Modules:

- `Wrappers` (wrappers.dfy): `Option`, for a tag list that is absent or not an array.
- `Bands` (bands.dfy): the band text `"min-max"`. It holds the slice of JavaScript's
  `split` and `Number` that `parseBand` uses, with numbers modelled as
  `Finite(int) | NaN`. It also holds `overlaps`, with JavaScript's rule that every
  comparison involving NaN is false.
- `Facets` (facets.dfy): `includesOrAny`, `matchesStringField`, `matchesArrayField`.
- `Plants` (plants.dfy): the record and selection datatypes. `Matches` is the
  predicate passed to `PLANTS.filter`, with its checks in the source's order.
  `Satisfies` reads a selection one facet at a time. It uses the same facet
  checks as `Matches`, but not its early-return chain or its inline plant-type test
  (app.js:45). `FilterPlants`
  is the filter. The lemmas cover wildcards, order preservation and monotonicity.
- `NameSort` (name_sort.dfy): the in-place sort in `renderResults`. It is an
  insertion sort on an `array<Plant>`, with a lexicographic order on character
  codes standing in for `localeCompare`. `FilterAndSort` runs the filter, then the sort.

Three details of the code that the model keeps:

- The plant-type check is written inline (app.js:45) rather than through
  `matchesStringField`. `PlantTypeCheckIsStringMatch` shows the two agree.
- `parseBand` has no error handling. A bound that is not a number becomes NaN, and a
  NaN bound makes its side of the overlap test pass. So a band whose bounds both fail
  to parse excludes nothing (`OverlapsNaNBand`).
- An empty result is returned before the sort runs (app.js:81-84).
  `FilterAndSort` does the same.

## Model

| member | source | states |
|---|---|---|
| `Bands.Split` | app.js:5 | splitting on `-` yields at least one piece, and no piece contains the separator |
| `Bands.JoinSplit` | app.js:5 | splitting loses nothing: joining the pieces with the separator gives back the original text |
| `Bands.SplitAfterPiece` | app.js:5 | text without a separator, followed by a separator, is the first piece, and the rest is split separately |
| `Bands.ParseBandDigits` | app.js:3-7 | `parseBand("m-n")` for digit strings m and n (either may be empty, which reads as 0) yields the pair of their decimal values |
| `Bands.ParseBandShow` | app.js:3-7 | round trip: the band written from any two naturals parses back to exactly those two numbers |
| `Bands.OverlapsIffCommonPoint` | app.js:9-12 | for finite intervals with min <= max, `overlaps` holds exactly when some integer lies in both intervals |
| `Bands.OverlapsSymmetric` | app.js:9-12 | `overlaps(a,b,c,d) == overlaps(c,d,a,b)` for all numbers, NaN included |
| `Bands.OverlapsNaNBand` | app.js:9-12 | a band with both bounds NaN overlaps every range |
| `Facets.IncludesOrAny` | app.js:14-18 | an empty value is true; otherwise an absent or non-array list is false; otherwise true exactly when some element equals the value |
| `Facets.MatchesStringField` | app.js:20-23 | an empty selection is true; otherwise true exactly when the field equals the selection |
| `Facets.MatchesArrayField` | app.js:25-28 | agrees with `includesOrAny` on every input; an empty selection is true; otherwise true exactly when the list is present and contains the selection |
| `Plants.Satisfies` | app.js:45-66 | the per-facet reading of a selected value never excludes a record when the value is empty |
| `Plants.MatchesIffAllFacets` | app.js:44-69 | the filter predicate holds exactly when every facet's selection holds (type by equality, tags by membership, bands by overlap) |
| `Plants.PlantTypeCheckIsStringMatch` | app.js:45 | the inline plant-type check is equivalent to `matchesStringField` |
| `Plants.MatchesNoSelection` | app.js:44-69 | with every selection empty, every record passes |
| `Plants.MatchesSingleFacet` | app.js:45-66 | selecting one facet alone admits exactly the records that the facet's reading admits |
| `Plants.ShrubHeightBandExample` | app.js:45-61 | type "shrub" with band "30-60" keeps a record exactly when it is a shrub and its height range meets 30-60 cm |
| `Plants.FullSunExample` | app.js:47 | a sunlight selection keeps a record exactly when its sunlight list is present and contains the value |
| `Plants.FilterPlants` | app.js:44-69 | the result holds exactly the catalog records that pass; each appears as often as in the catalog; the result is no longer than the catalog |
| `Plants.FilterIsSubsequence` | app.js:44 | the result is a subsequence of the catalog: relative order kept, nothing added |
| `Plants.FilterNoSelection` | app.js:44-69 | with every selection empty the filter returns the whole catalog unchanged |
| `Plants.NarrowerMatchesFewer` | app.js:45-66 | a selection that keeps every facet of another and may select more admits only records the other admits |
| `Plants.FilterMonotone` | app.js:44-69 | a narrower selection's result is a subsequence of the wider selection's result |
| `Plants.FilterSelectMore` | app.js:44-69 | choosing a value for a facet that was empty never enlarges the result |
| `NameSort.NameLeTotal` | app.js:87 | any two names are comparable |
| `NameSort.NameLeTransitive` | app.js:87 | the name order is transitive |
| `NameSort.NameLeAntisymmetric` | app.js:87 | names that are each no later than the other are equal |
| `NameSort.SortedByNamePairwise` | app.js:86-87 | a list sorted neighbour by neighbour is sorted in every pair |
| `NameSort.InsertStep` | app.js:87 | swapping the record being inserted past a later-named neighbour keeps the insertion invariant |
| `NameSort.InsertDone` | app.js:87 | once the record meets an earlier-named neighbour or the front, the prefix is sorted |
| `NameSort.InsertAt` | app.js:87 | moves one record into the sorted prefix: the longer prefix is sorted, the rest of the array is unchanged, and the contents are a permutation |
| `NameSort.SortByName` | app.js:86-87 | sorts the array in place: afterwards it is non-decreasing by botanical name and a permutation of what it held |
| `NameSort.FilterAndSort` | app.js:81-87 | the rendered list is sorted by name, is a permutation of the filter's result, holds exactly the catalog records that pass, and is a permutation of the whole catalog when nothing is selected |

## Left out

- DOM reads of the twelve drop-downs (app.js:31-42): the selection is a parameter.
- The rendering of the count, cards and pills (app.js:75-106): this is HTML output only.
- Event-listener wiring and the clear button (app.js:109-118). The clear button's
  effect is `NoSelection`.
- `fetch("plants.json")`, JSON decoding and the load-error message (app.js:120-130):
  asynchronous I/O. The catalog is a parameter.
- The global mutable `PLANTS` (app.js:1): the catalog is passed explicitly.
- `Bands.ToNumber`: only digit strings and the empty string (0) are given a value. Digit
  strings are read exactly, whereas JavaScript reads them as a double and rounds values
  above 2^53 to the nearest double. Leading or trailing whitespace, signs, decimals, exponents, hex
  and `Infinity` are taken to be NaN, because floating point and coercion are not modelled.
- `Plants.Plant`: heights and spreads are integers. Missing or fractional JSON numbers
  are not modelled.
- `Plants.Plant`: `plant_type` is always a string. A missing `plant_type` (undefined)
  behaves like any string not equal to a non-empty selection.
- `Plants.Plant`: tag lists are lists of strings. An array with non-string elements
  is not modelled; such an element never equals a string selection.
- `NameSort.NameLe`: `localeCompare` is locale-aware collation in a foreign library. It
  is replaced by lexicographic order on character codes.
- `NameSort.SortByName`: `Array.prototype.sort` is stable. Stability is not proved,
  only sortedness and permutation. The sort algorithm itself is the engine's choice;
  insertion sort stands in for it.
