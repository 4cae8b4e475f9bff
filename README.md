# ConstructionLine shirt search engine — Dafny model

This project models the faceted shirt search of the ConstructionLine coding
challenge (`ConstructionLine.CodingChallenge/SearchEngine.cs`) and proves
what it computes.

- **Construction.** `SearchEngine(shirts)` refuses a null shirt list. Otherwise
  it groups the shirts into a lookup keyed by (size, color). Each key's list
  keeps the shirts in input order.
- **Search.** `Search(options)` first normalises the options:
  - null options become fresh options;
  - an empty color list, or an empty size list, of the caller's options is
    overwritten with the full enumeration.

  It then walks the combinations, colors in the outer loop and sizes in the
  inner one. Each combination the lookup holds appends its shirts to the
  results and adds their number to that size's counter and to that color's
  counter. Both counter tables start at zero for every known value.

Files and modules:

- `wrappers.dfy` (`Wrappers`): `Option` and `Result`.
- `catalog.dfy` (`Catalog`): `Size`, `Color`, the enumerations `AllSizes` and
  `AllColors`, `Shirt`, the (size, color) key, and the counter-entry record
  `FacetCount`.
- `lookup.dfy` (`Lookup`):
  - `Group`, the constructor's group-by, as a single left-to-right pass;
  - `Probe`, `TryGetValue`;
  - `Bucket`, an independent filter definition of what each list must hold;
  - the partition lemmas.
- `query.dfy` (`Evaluation`): the specification of a search as functions.
  - `Normalize`: the option defaults.
  - `Combos`: the combination order.
  - `Matched`: the gathered shirts.
  - `Tally`/`Table`: the counters.
  - `Evaluate`: the whole result.
  - `Selected`: what the results should contain.

  It also holds the lemmas relating these functions.
- `engine.dfy` (`Engine`): the imperative side.
  - The `SearchOptions` class, which `Search` updates in place.
  - The `SearchEngine` class, holding the lookup.
  - `Create`, the constructor with its null check.
  - `Search`, proved equal to `Evaluate` of the normalised options. It is
    built from `Accumulate` (the `foreach` loop), `VisitCombo` (one iteration)
    and `AddToCounter` (`Find(...).Count += n`).
- `scenarios.dfy` (`SearchScenarios`): searches over the unit tests' small
  catalog, and a request with a repeated size.

Repeated values in a request are not removed
(`ConstructionLine.CodingChallenge/SearchEngine.cs:30-32`): a size or color
requested twice yields its shirts twice and counts them twice.
- `Evaluation.SearchMultiplicity` states the multiplicity of each shirt in the
  results for every request.
- `SearchScenarios.RepeatedSizeRepeatsShirts` shows `[Small, Small]` returning
  the small red shirt twice.
- `Evaluation.SearchExact`, "each matching shirt once per catalog copy",
  therefore requires duplicate-free request lists.

`Search` overwrites the caller's empty `Colors` and `Sizes` lists with the full
enumerations (`ConstructionLine.CodingChallenge/SearchEngine.cs:25-28`), and
`Engine.SearchEngine.Search` states that it does.

## Model

| member | source | states |
|---|---|---|
| Catalog.EnumerationsAreComplete | ConstructionLine.CodingChallenge/SearchEngine.cs:35-36 | `Size.All` and `Color.All` list every size and every color, each exactly once, so each counter table has one entry per known value |
| Lookup.Group | ConstructionLine.CodingChallenge/SearchEngine.cs:18 | the group-by yields a lookup in which every list is non-empty and holds only shirts with that list's (size, color) key |
| Lookup.Bucket | ConstructionLine.CodingChallenge/SearchEngine.cs:18 | reference definition of a group: a shirt is in it iff it is in the input and has that key |
| Lookup.GroupIsBuckets | ConstructionLine.CodingChallenge/SearchEngine.cs:18 | the list under every key is exactly the input filtered on that key, in input order; a key is present iff some shirt has it |
| Lookup.ShirtInOwnBucketOnly | ConstructionLine.CodingChallenge/SearchEngine.cs:18 | every input shirt sits in the list of its own key and in no other list |
| Evaluation.LookupPartitionsCatalog | ConstructionLine.CodingChallenge/SearchEngine.cs:18 | taken over every key once, the lookup's lists are the catalog rearranged: same multiset, and their lengths add up to the catalog length |
| Evaluation.Normalize | ConstructionLine.CodingChallenge/SearchEngine.cs:23-28 | absent options, or an empty color or size list, become the full enumeration; a non-empty list is kept as given; both normalised lists are non-empty |
| Evaluation.UnconstrainedSearch | ConstructionLine.CodingChallenge/SearchEngine.cs:23-28 | null options and options with both lists empty normalise to the same full request, which returns exactly the catalog (as a multiset) |
| Evaluation.CombosMembers | ConstructionLine.CodingChallenge/SearchEngine.cs:30-32 | a (size, color) pair is among the combinations iff its color is requested and its size is requested |
| Evaluation.ComboOrder | ConstructionLine.CodingChallenge/SearchEngine.cs:30-32 | combination number i × (number of sizes) + j is (the j-th size, the i-th color): colors outer, sizes inner |
| Evaluation.CombosCount | ConstructionLine.CodingChallenge/SearchEngine.cs:30-32 | a pair occurs among the combinations (times its color is requested) × (times its size is requested): repeats are not removed |
| Evaluation.MatchedConcat | ConstructionLine.CodingChallenge/SearchEngine.cs:38-42 | the shirts of earlier combinations precede those of later ones, each list in its stored order |
| Evaluation.MatchedCount | ConstructionLine.CodingChallenge/SearchEngine.cs:38-42 | over the lookup of a catalog, a shirt is gathered (its catalog copies) × (combinations equal to its key) times |
| Evaluation.SearchMultiplicity | ConstructionLine.CodingChallenge/SearchEngine.cs:30-45 | a shirt is returned (catalog copies) × (requests of its color) × (requests of its size) times |
| Evaluation.SearchMembership | ConstructionLine.CodingChallenge/SearchEngine.cs:30-45 | soundness and completeness: a shirt is returned iff it is in the catalog with a requested color and a requested size |
| Evaluation.Selected | ConstructionLine.CodingChallenge.Tests/SearchEngineTestsBase.cs:20-21 | reference filter applying the tests' condition of lines 20-21 to the catalog: a shirt is selected iff it is in the catalog with a requested color and a requested size. `AssertResults` as written compares the results with ids built from the same results, so `SearchMembership` and `SearchExact` state more than the tests check |
| Evaluation.SearchExact | ConstructionLine.CodingChallenge/SearchEngine.cs:30-45 | with duplicate-free request lists, the results are exactly the selected catalog shirts: same multiset, each matching shirt once per catalog copy |
| Evaluation.FullRequestSelectsAll | ConstructionLine.CodingChallenge/SearchEngine.cs:25-28 | the full color and size enumerations select every catalog shirt, in catalog order |
| Evaluation.FindIndex | ConstructionLine.CodingChallenge/SearchEngine.cs:43-44 | `List.Find`: the position of the first counter entry holding the value; no earlier entry holds it |
| Evaluation.FacetTablesTotal | ConstructionLine.CodingChallenge/SearchEngine.cs:35-36 | whatever the request, the size table has one entry per known size and the color table one per known color, in enumeration order |
| Evaluation.TableStartsAtZero | ConstructionLine.CodingChallenge/SearchEngine.cs:35-36 | before any combination every counter is zero |
| Evaluation.TableStep | ConstructionLine.CodingChallenge/SearchEngine.cs:43-44 | one more combination adds its list length to the counter `Find` locates for its size (or color) and changes no other counter |
| Evaluation.TableMiss | ConstructionLine.CodingChallenge/SearchEngine.cs:40 | a combination the lookup lacks changes no counter |
| Evaluation.MatchedAppend | ConstructionLine.CodingChallenge/SearchEngine.cs:42 | a combination appends its stored list, if any, to the results gathered so far |
| Evaluation.TotalIsMatched | ConstructionLine.CodingChallenge/SearchEngine.cs:40-45 | when the table lists every facet value once, its counters add up to the number of gathered shirts |
| Evaluation.CountsAgree | ConstructionLine.CodingChallenge/SearchEngine.cs:40-45 | the size counters and the color counters both add up to the number of returned shirts |
| Evaluation.TallyCountsMatched | ConstructionLine.CodingChallenge/SearchEngine.cs:43-44 | over a sound lookup, a value's counter equals the number of gathered shirts having that value |
| Evaluation.CountsMatchResults | ConstructionLine.CodingChallenge/SearchEngine.cs:43-44 | each size counter equals the number of returned shirts of that size; each color counter likewise |
| Evaluation.UnrequestedCountsZero | ConstructionLine.CodingChallenge/SearchEngine.cs:35-36 | a size or color the request does not contain keeps a zero counter |
| Evaluation.EmptyCatalogFindsNothing | ConstructionLine.CodingChallenge/SearchEngine.cs:13-18 | an engine built from an empty (non-null) list returns no shirts and all-zero counters for every request |
| Engine.SearchOptions.constructor | ConstructionLine.CodingChallenge/SearchEngine.cs:23 | fresh options have empty color and size lists |
| Engine.SearchEngine.constructor | ConstructionLine.CodingChallenge/SearchEngine.cs:18 | the engine's lookup is the group-by of the given shirts |
| Engine.SearchEngine.Create | ConstructionLine.CodingChallenge/SearchEngine.cs:11-19 | a null list fails with the null-shirts argument error; any list, including the empty one, yields a fresh engine whose lookup is its group-by |
| Engine.SearchEngine.Search | ConstructionLine.CodingChallenge/SearchEngine.cs:21-54 | the caller's options are overwritten with their normalised lists; the result is `Evaluate` of the lookup and those lists (`Evaluate` of the full request for null options); only the options are modified, so the lookup is unchanged and equal searches give equal results |
| Engine.SearchEngine.Accumulate | ConstructionLine.CodingChallenge/SearchEngine.cs:30-53 | the loop over the combinations returns exactly `Evaluate` of the lookup and the request: the matched shirts in combination order and both counter tables |
| Engine.VisitCombo | ConstructionLine.CodingChallenge/SearchEngine.cs:40-45 | one iteration takes the results and both tables for the combinations so far to those for one more combination |
| Engine.AddToCounter | ConstructionLine.CodingChallenge/SearchEngine.cs:43-44 | `Find(...).Count += n`: the first entry for the value gets `n` more, the others are unchanged (`Bumped`, related to the tables by `TableStep`) |
| SearchScenarios.SearchByRed | ConstructionLine.CodingChallenge.Tests/SearchEngineTests.cs:22-50 | over the three-shirt catalog, asking for red returns the small red shirt; Small and Red count 1, every other counter 0 |
| SearchScenarios.RedOverAllSizes | ConstructionLine.CodingChallenge.Tests/SearchEngineTests.cs:22-50 | the same search over any lookup holding only the small red shirt among the red keys |
| SearchScenarios.SearchWithNoMatch | ConstructionLine.CodingChallenge.Tests/SearchEngineTests.cs:115-141 | over the test's catalog (a medium red, a medium black and a large blue shirt), a small red request finds nothing, not even the red shirt of the wrong size, and every counter stays 0 |
| SearchScenarios.MissingKeyFindsNothing | ConstructionLine.CodingChallenge.Tests/SearchEngineTests.cs:115-141 | a one-combination request for a key the lookup lacks finds nothing and leaves all counters 0 |
| SearchScenarios.RepeatedSizeRepeatsShirts | ConstructionLine.CodingChallenge/SearchEngine.cs:30-32 | `[Small, Small]` with `[Red]` returns the small red shirt twice and counts Small as 2, where `[Small]` returns it once |
| SearchScenarios.RepeatedKey | ConstructionLine.CodingChallenge/SearchEngine.cs:30-44 | over any lookup with one shirt under a small key, requesting Small twice doubles the shirts and the Small counter |
| SearchScenarios.ProbeSample | ConstructionLine.CodingChallenge/SearchEngine.cs:18 | the lookup of the three-shirt test catalog holds each shirt under its own key and nothing elsewhere |

## Left out

- `Size`, `Color`, `Shirt`, `SearchOptions`, `SearchResults`, `SizeCount` and
  `ColorCount` are not part of this model. Their definitions come from outside
  `SearchEngine.cs`, so the model makes these assumptions:
  - The values are those the tests use: sizes Small, Medium and Large; colors
    Red, Blue, Yellow, White and Black.
  - The orders of `Size.All` (Small, Medium, Large) and `Color.All` (Red,
    Blue, Yellow, White, Black) are assumed. The scenario lemmas state the
    counter tables position by position in these orders; the tests compare
    counts by value instead.
  - Equality is structural.
  - The shirt's `Guid` is a natural number.
- A null `Colors` or `Sizes` list inside non-null options is not modelled. The
  lists are sequences that are always present, and the source would throw
  there.
- A shirt list holding a `null` element is not modelled. The constructor's
  key selector (`SearchEngine.cs:18`) would throw `NullReferenceException` on
  it; the model's list is a sequence of shirt values, which has no null.
- `Dictionary` hashing, `GroupBy`, `ToDictionary` and `List.Find` are replaced
  by their meaning: a map, a left-to-right grouping pass, and the first
  matching index.
- The counter tables are modelled as sequences of value/count records. The
  source mutates `Count` fields of shared objects; the model rebuilds the
  table entry instead, so aliasing of the counter objects is not captured.
- Counts are unbounded naturals. The 32-bit `int` overflow of the source's
  counters, which needs more than 2^31 matched shirts, is not modelled.
- The exception's message text is not modelled. The null-list failure is the
  `NullShirts` error of `Create`.
- The performance tests and their timing bound
  (`SearchEnginePerformanceTests.cs`), console output, and the sample-data
  generator are not modelled: wall-clock time is not statable here.
- Concurrency is not modelled: the engine is used from one thread.
