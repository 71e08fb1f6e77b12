# Window and door configurator: engine and codebase-map tooling

The configurator guides a visitor to one window or door by asking a fixed
sequence of questions (facets): category, opening system, integrated blind,
motorization, filling material, number of leaves. The decision engine
(`scripts/logic.js`, duplicated inside `script.js`) keeps one answer per
facet. Answering a facet clears every later one, and a blind answer other
than `'sim'` clears the motorization. The engine then filters the catalog
by the answers, with loose equality on the values' text. Next it collects
and sorts the options of the first open facet that applies, and either
fills a facet that has a single option, asks a question, or gives the
final list of products. The session handlers (`scripts/app.js`, `script.js`)
replace the selections on an answer, a breadcrumb click or a restart and
re-run the engine.

The Python tooling keeps a JSON "codebase map" of exported JavaScript
elements. Both versions of `merge_maps` read the old `elements`, index them
by name, and build one entry per scanned element: the old entry updated
from the scan when the name is known, a new one otherwise. Elements no
longer found are dropped, and the result is sorted by `(file, name)`.
`code_control/update_map.py` syncs file, type, signature, categories and a
non-empty description, and fills every required field. Its categories come
from the file path. The older `update_map.py` keeps a non-empty signature.

Modules:

- `Values`, `Constants`: facet values and the facet schema.
- `Catalog`: products and the 27-row catalog of `script.js`.
- `Logic`: the engine.
  - `CalculateNextSelections`, `GetUniqueOptions` and `RunFacetLoop` are
    loops proved equal to the functions `NextSelections`, `UniqueOptions`
    and `Decide`.
  - Those functions' properties are proved as lemmas.
- `Scenarios`: complete engine runs on the catalog.
- `App`: the session as a class whose handlers replace `currentSelections`.
- `PyJson`: JSON values as Python holds them.
- `MapMerge`: the merge steps both scripts share.
  - The merge loop (`MergeLoop`) is proved equal to `MergeWith`.
- `CodeControlMap`, `RootMap`: the two `merge_maps`. Each `MergeMaps` method is
  proved equal to a `MergeMapsResult` function.
- `Strings`, `Sorting`, `Wrappers`: helpers.

## Model

| member | source | states |
|---|---|---|
| Constants.Ordinal | scripts/constants.js:12 | `FACET_ORDER.indexOf(f)` is a valid position holding `f` |
| Constants.FacetOrderIsFixed | scripts/constants.js:12 | six distinct facets, every facet listed, in the order categoria, sistema, persiana, motorizada, material, folhas |
| Constants.OrdinalIsIndexOf | scripts/constants.js:12 | position and `indexOf` are inverse; distinct facets have distinct positions |
| Constants.DefinitionsAreComplete | scripts/constants.js:14-21 | every facet has a non-empty title and label table |
| Constants.FieldMapShape | scripts/constants.js:23-30 | `FIELD_MAP` is injective, is the identity except that motorizada reads `persianaMotorizada` |
| Constants.PersianaLabels | scripts/constants.js:17 | the blind is labelled for exactly `sim` and `nao`, and `sim` is the value that enables motorization |
| Constants.FolhasLabels | scripts/constants.js:20 | the leaf labels are keyed by the text of 1, 2, 3, 4 and 6 |
| Catalog.CatalogSlugsAreDistinct | script.js:8-36 | the embedded catalog has 27 rows with pairwise distinct slugs |
| Catalog.DoorSlugsAreDistinct | script.js:19-35 | the door rows have pairwise distinct slugs |
| Catalog.CatalogMotorizationFollowsBlind | script.js:8-36 | every row's blind is `sim` or `nao`; rows with a blind name a motorization, rows without leave it null |
| Catalog.CatalogFieldTypes | script.js:8-36 | every row's leaf count is an integer in {1,2,3,4,6} and its other facet fields are text |
| Logic.Selections.Set | scripts/logic.js:23-24 | assigning one facet on a copy changes that facet only |
| Logic.Tabulate | scripts/logic.js:23 | the selections built from a per-facet table return exactly that table |
| Logic.SelectionsExt | scripts/logic.js:23 | two selections that agree on every facet are equal |
| Logic.CalculateNextSelections | scripts/logic.js:20-34 | the copy-and-reset loop computes the transition `NextSelections` |
| Logic.NextSelectionsSpec | scripts/logic.js:20-34 | the answered facet takes the value (unless it is motorizada under a non-`sim` blind); every later facet is cleared; earlier facets are kept except that motorizada is cleared under a truthy non-`sim` blind; the result obeys the blind/motorization rule |
| Logic.NextSelectionsIdempotent | scripts/logic.js:20-34 | giving the same answer twice is the same as giving it once |
| Logic.MatchesFromIff | scripts/logic.js:38-50 | the filter callback's loop from position i accepts a product iff it agrees with every answered, applicable facet from i on |
| Logic.MatchesIff | scripts/logic.js:37-51 | a product passes iff, for every answered facet (motorizada only under `sim`), its field is present and has the same text as the answer |
| Logic.ApplyFilters | scripts/logic.js:36-52 | the filtered list is no longer than the catalog |
| Logic.ApplyFiltersMembers | scripts/logic.js:36-52 | the filtered list contains exactly the catalog products that pass |
| Logic.ApplyFiltersIsSubsequence | scripts/logic.js:37 | `filter` keeps the passing products in catalog order |
| Logic.ApplyFiltersEmpty | scripts/logic.js:40 | with nothing answered every product passes |
| Logic.ExtendsMatches | scripts/logic.js:38-48 | a product that passes under more answers passes under fewer |
| Logic.ApplyFiltersMonotonic | scripts/logic.js:36-52 | more answers give an order-preserving sub-list of the candidates |
| Logic.OptionLeIsTotalPreorder | scripts/logic.js:62-64 | the two sort orders (numeric for leaves, character order for text) are total, transitive and antisymmetric |
| Logic.DistinctValues | scripts/logic.js:55-60 | the `Set` holds each present field value once, and only values some product has |
| Logic.DistinctValuesStep | scripts/logic.js:56-58 | one more product adds its field value to the set exactly when the value is present and not yet there |
| Logic.GetUniqueOptions | scripts/logic.js:54-65 | the set-filling loop and sort compute `UniqueOptions` |
| Logic.NoDuplicatesCount | scripts/logic.js:55 | a duplicate-free list holds each value at most once |
| Logic.PermutationNoDuplicates | scripts/logic.js:62-64 | sorting a duplicate-free list leaves it duplicate-free |
| Logic.CoercedValues | scripts/logic.js:55-64 | the mapped values are exactly the coerced field values the products offer |
| Logic.SortOptions | scripts/logic.js:62-64 | the sort returns an ordered permutation of its input |
| Logic.UniqueOptionsMembers | scripts/logic.js:54-65 | an option is offered iff some product has that field value (coerced); no products, no options |
| Logic.SortedDistinctOptions | scripts/logic.js:62-64 | an ordered list without duplicates is strictly ascending |
| Logic.UniqueOptionsOrder | scripts/logic.js:61-64 | text options are in character order, strictly when the facet is text-valued; numeric leaf options strictly ascend |
| Logic.StrictlyAscendingUnique | scripts/logic.js:62-64 | two strictly ascending lists with the same members are equal |
| Logic.UniqueOptionsStrict | scripts/logic.js:54-65 | the options of a text facet, or of the leaf count, are strictly ascending |
| Logic.UniqueOptionsCharacterized | scripts/logic.js:54-65 | the options are the unique strictly ascending list of the offered values |
| Logic.RunFacetLoop | scripts/logic.js:67-105 | the facet loop with early returns computes `Decide` |
| Logic.SkipKeepsInvariant | scripts/logic.js:72-75 | skipping an inapplicable or answered facet keeps the loop invariant |
| Logic.AutoAssignedTransfer | scripts/logic.js:95-96 | a filled-in facet stays justified when only later facets change |
| Logic.AssignIsAuto | scripts/logic.js:77-96 | filling a facet with the single option of at least two candidates is an automatic answer |
| Logic.AssignKeepsEarlier | scripts/logic.js:95-96 | filling a facet keeps earlier automatic answers justified |
| Logic.AssignKeepsAuto | scripts/logic.js:95-96 | after filling the facet, every facet filled in so far, the new one included, holds the single option of at least two candidates |
| Logic.AssignKeepsInvariant | scripts/logic.js:95-96 | filling in the single option keeps the loop invariant |
| Logic.StopOutcome | scripts/logic.js:79-99 | each early return satisfies the outcome guarantees |
| Logic.EndOutcome | scripts/logic.js:103-104 | the return after the loop satisfies the outcome guarantees |
| Logic.DecideFromOutcome | scripts/logic.js:70-104 | the loop from any position where the invariant holds ends in an outcome satisfying the guarantees |
| Logic.DecideOutcome | scripts/logic.js:67-105 | the engine's answer satisfies all the outcome guarantees |
| Logic.DecideAsksOrAnswers | scripts/logic.js:79-104 | final iff no question; a question carries its title, at least two options drawn from at least two candidates; a final answer is empty or the matching rows, and lists several rows only once every applicable facet is answered |
| Logic.DecideKeepsAnswers | scripts/logic.js:68-96 | every caller answer is kept, and an open facet is filled only with the single value all of at least two candidates offered |
| Logic.DecideAsksFirstOpenFacet | scripts/logic.js:70-93 | a question is about a facet the caller left open, that applies (motorizada only under `sim`), with every earlier applicable facet answered |
| Logic.NoMotorQuestionWithoutBlind | scripts/logic.js:72 | with a blind answer other than `sim`, motorization is never asked |
| Logic.DecideExtends | scripts/logic.js:68-96 | the engine's working selections keep every answer the caller gave |
| Scenarios.ProductCatalogFacts | script.js:8-36 | the embedded catalog has the row facts the runs use |
| Scenarios.CatalogCategories | script.js:8-36 | rows 0-9 are windows, the rest doors |
| Scenarios.CatalogSystems | script.js:8-36 | every system is text, and `maxim-ar` exactly on rows 7-9 |
| Scenarios.CatalogMaximArRows | script.js:16-18 | the `maxim-ar` rows have no blind, glass filling and 1, 2 and 3 leaves |
| Scenarios.ApplyFiltersSlice | scripts/logic.js:36-52 | when exactly the rows lo..hi pass, the filter returns that slice |
| Scenarios.MaximArWindows | scripts/logic.js:36-52 | a `maxim-ar` window, with or without the filled-in answers, leaves the three `maxim-ar` rows |
| Scenarios.TwoLeafWindow | scripts/logic.js:36-52 | adding two leaves leaves the single two-leaf `maxim-ar` row |
| Scenarios.NoMaximArDoor | scripts/logic.js:36-52 | no door matches `maxim-ar` |
| Scenarios.InitialQuestionOn | scripts/logic.js:67-93 | with nothing answered the engine asks the category, offering `janela` and `porta` |
| Scenarios.MaximArBlindOptions | scripts/logic.js:54-65 | the `maxim-ar` windows offer only `nao` for the blind |
| Scenarios.MaximArMaterialOptions | scripts/logic.js:54-65 | the `maxim-ar` windows offer only `vidro` for the filling |
| Scenarios.MaximArLeafOptions | scripts/logic.js:54-65 | the `maxim-ar` windows offer 1, 2 and 3 leaves, in that order |
| Scenarios.MaximArWindowOn | scripts/logic.js:67-105 | a `maxim-ar` window gets blind `nao` and glass filled in, skips motorization, and is asked the leaf count with 1, 2, 3 |
| Scenarios.TwoLeavesOn | scripts/logic.js:77-80 | two leaves: final result with exactly that one product |
| Scenarios.PortaMaximArOn | scripts/logic.js:77-80 | a `maxim-ar` door: final result with no product |
| Scenarios.ScriptCatalogRuns | script.js:8-36 | the runs above on the embedded catalog |
| App.BreadcrumbResetSpec | scripts/app.js:30-38 | a jump back clears the facet and every facet after the index, keeps the rest, only removes answers, and keeps the blind/motorization rule |
| App.ChipClickIsTransition | script.js:316-323 | clicking the chip at a facet's own position is the transition answering that facet with null |
| App.Session.constructor | scripts/app.js:19-21 | the session starts with every facet unanswered |
| App.Session.HandleSelection | scripts/app.js:25-28 | the state becomes the transition of the old state, the view is the engine's answer for it, and the rule holds |
| App.Session.HandleBreadcrumbClick | scripts/app.js:30-38 | the clearing loop stores the breadcrumb reset of the old state and refreshes the view |
| App.Session.HandleRestart | scripts/app.js:40-43 | the state becomes all unanswered and the view is the engine's first answer |
| App.Session.UpdateUI | scripts/app.js:45-52 | the view is the engine's answer for the current state |
| MapMerge.ElementsOf | code_control/update_map.py:148 | missing `elements` reads as empty; a list is iterated; an empty dict or string is empty; anything else fails |
| MapMerge.NameKey | code_control/update_map.py:152 | `el['name']` raises TypeError on a non-dict, KeyError without `name`, TypeError for an unhashable name; a string name is the element's key |
| MapMerge.BuildLookupFromOk | code_control/update_map.py:152 | the dict comprehension succeeds iff every element has a usable name |
| MapMerge.BuildLookupFromKeys | code_control/update_map.py:152 | the lookup's keys are the string names of the elements, each entry filed under its own name |
| MapMerge.BuildLookupFromLast | code_control/update_map.py:152 | a repeated name keeps its last element |
| MapMerge.BuildLookupFromUntouched | code_control/update_map.py:152 | a key no later element names keeps its entry |
| MapMerge.BuildLookupSpec | update_map.py:75 | the lookup exists iff every name is usable; it is filed by name, holds exactly the named elements, the last one for a repeated name |
| MapMerge.KeyLeIsTotalPreorder | code_control/update_map.py:189 | the `(file, name)` tuple order is total and transitive |
| MapMerge.SortByKeySpec | update_map.py:111 | the sort returns the same entries, ordered by `(file, name)` |
| MapMerge.SortByKeyIsStable | code_control/update_map.py:189 | entries with the same `(file, name)` key keep their scan order |
| MapMerge.RemainingStep | code_control/update_map.py:154-184 | at each step the lookup holds the old entries whose name has not been consumed, so `name in existing_lookup` holds iff the name is known and met for the first time |
| MapMerge.MergeWith | update_map.py:77-101 | one entry per scanned element in scan order, built from the old entry only at the first occurrence of a known name |
| MapMerge.MergeLoop | code_control/update_map.py:154-186 | the loop with its deletions from the lookup computes `MergeWith` |
| MapMerge.ReplaceElements | code_control/update_map.py:191 | only `elements` is replaced; every other top-level key is kept |
| CodeControlMap.DefaultCategoriesSpec | code_control/update_map.py:41-64 | the path tests in order: chat gives CHAT and UI, other `scripts/ui/` files UI, the engine FACET and LOGIC; Uncategorized exactly for unrecognised paths and never with another tag; one or two tags |
| CodeControlMap.LowerIdempotent | code_control/update_map.py:43 | lower-casing twice is lower-casing once |
| CodeControlMap.DefaultCategoriesIgnoreCase | code_control/update_map.py:43 | the classification does not depend on letter case |
| CodeControlMap.FinalCategoriesKeepDefaults | code_control/update_map.py:121-122 | manual tags never remove a default; UI files keep UI, unrecognised ones Uncategorized |
| CodeControlMap.FillRequiredSpec | code_control/update_map.py:171-180 | filling keeps every field present and adds exactly the missing required fields with their defaults |
| CodeControlMap.DefaultsStep | code_control/update_map.py:172-180 | one pass of the loop adds a field's default only where it is missing |
| CodeControlMap.EnsureRequiredFields | code_control/update_map.py:171-180 | the loop over `REQUIRED_FIELDS` computes `FillRequired` |
| CodeControlMap.ScanFieldsSpec | code_control/update_map.py:124-131 | the scan's dict has the six scanned fields |
| CodeControlMap.ScanFillsLikeMerge | code_control/update_map.py:124-141 | the scan's own default-filling loop gives the same record as filling the required fields the way the merge does |
| CodeControlMap.ScannedRecordSpec | code_control/update_map.py:124-141 | a scanned record has exactly the required fields, with the scanned values and empty dependencies and false side effects |
| CodeControlMap.SyncFromScanSpec | code_control/update_map.py:158-168 | the copy takes file, type, signature and categories from the scan and a non-empty description; every other field is kept |
| CodeControlMap.MergeExistingKeys | code_control/update_map.py:157-180 | the merged entry has the old fields plus the required ones |
| CodeControlMap.MergeExistingSynced | code_control/update_map.py:161-164 | file, type, signature and categories come from the scan |
| CodeControlMap.MergeExistingDescription | code_control/update_map.py:167-180 | a non-empty scanned description wins; otherwise the old one stays, or it is empty |
| CodeControlMap.MergeExistingKept | code_control/update_map.py:158-180 | other old fields are kept; missing required ones get their defaults |
| CodeControlMap.MergeExistingName | code_control/update_map.py:158 | the old entry's name is kept |
| CodeControlMap.MergeExistingFixpoint | code_control/update_map.py:157-180 | an entry complete and in agreement with the scan is left unchanged |
| CodeControlMap.MergeExistingIdempotent | code_control/update_map.py:157-180 | merging the same scan twice gives the same entry as merging it once |
| CodeControlMap.ScannedRecordIsStable | code_control/update_map.py:124-186 | a new element's record, merged with the same scan on the next run, stays as it is |
| CodeControlMap.EntryForSpec | code_control/update_map.py:156-186 | each appended entry has every required field and its scanned element's name and file |
| CodeControlMap.MergeFromEntries | code_control/update_map.py:154-186 | every merged entry has the required fields and its element's name and file |
| CodeControlMap.MergeMaps | code_control/update_map.py:147-192 | the merge computes `MergeMapsResult`, with the same exceptions |
| CodeControlMap.MergeEntry | code_control/update_map.py:157-180 | the body for a known name computes the entry the loop appends |
| CodeControlMap.MergeMapsSpec | code_control/update_map.py:147-192 | fails iff the old elements cannot be read or named; otherwise only `elements` changes, to the entries the merge loop builds (one per scanned element, each tied to its element by `MergeFromEntries`), sorted by `(file, name)`, complete, whose `(name, file)` pairs are the scanned elements' |
| CodeControlMap.SortedMergeSpec | code_control/update_map.py:186-189 | the sorted merge has one complete entry per scanned element, ordered, with the scanned elements' `(name, file)` pairs |
| CodeControlMap.SortedMergeComplete | code_control/update_map.py:189 | sorting keeps every entry complete |
| CodeControlMap.SortedMergeNameFiles | code_control/update_map.py:189 | the sorted entries' `(name, file)` pairs are a permutation of the scanned elements' |
| RootMap.NewEntrySpec | update_map.py:93-101 | a new entry has the four scanned fields, empty description and dependencies, false side effects and category Uncategorized, and nothing else |
| RootMap.UpdateExistingSpec | update_map.py:82-88 | file and type come from the scan; a truthy old signature is kept, a missing or falsy one replaced; every other old field is kept |
| RootMap.UpdateExistingIdempotent | update_map.py:82-88 | updating with the same scan twice is updating once |
| RootMap.NewEntryIsStable | update_map.py:82-101 | a new entry, met again with the same scan, is unchanged |
| RootMap.EntryForSpec | update_map.py:80-101 | each appended entry has its scanned element's name and file |
| RootMap.MergeFromEntries | update_map.py:77-101 | every merged entry has its element's name and file |
| RootMap.MergeMaps | update_map.py:70-114 | the merge computes `MergeMapsResult`, with the same exceptions |
| RootMap.MergeMapsSpec | update_map.py:70-114 | fails iff the old elements cannot be read or named; otherwise only `elements` changes, to the entries the merge loop builds (one per scanned element, each tied to its element by `MergeFromEntries`), sorted by `(file, name)`, whose `(name, file)` pairs are the scanned elements' |
| RootMap.SortedMergeSpec | update_map.py:101-111 | the sorted merge has one entry per scanned element, ordered, with the scanned elements' `(name, file)` pairs |
| Sorting.InsertIsAddition | update_map.py:111 | inserting into a list adds exactly the inserted element |
| Sorting.InsertKeepsSorted | update_map.py:111 | inserting into an ordered list keeps it ordered |
| Sorting.InsertionSortCorrect | update_map.py:111 | the sort returns an ordered permutation of its input |
| Sorting.InsertIsStable | update_map.py:111 | inserting into an ordered list puts the new element after every element ranked with it |
| Sorting.InsertionSortIsStable | update_map.py:111 | the sort is stable: elements ranked together come out in the order they went in |
| Sorting.ApplyPermutation | code_control/update_map.py:189 | mapping a permutation gives a permutation of the mapped list |
| Strings.Contains | code_control/update_map.py:46-58 | `needle in hay` holds iff the needle occurs at some position |

## Left out

- The DOM, rendering, the chat view, persistence, the LLM endpoints, the logger and the other files of the repository are not part of this model.
- `scan_files` and `load_existing_map` are not modelled: the file-system walk, the regular expressions and JSON I/O. The scanned elements are parameters of the merge.
- `PRODUCT_CATALOG` from `scripts/productCatalog.js` is a parameter of the engine (that file is not part of this model). The scenarios use the catalog embedded in `script.js`.
- script.js:43-157 is a copy of the engine in `scripts/logic.js` and is modelled once.
- Logic.GetUniqueOptions: `Number()` on a leaf count stored as text is not modelled; a text leaf count keeps its text.
- Logic.OptionLe: JavaScript sorts text by UTF-16 code units; the model compares characters, which agrees on the catalog's ASCII data.
- `undefined` and `null` are not told apart; a missing field and a null field both read as absent.
- Strings.Lower: only ASCII letters are lower-cased, unlike Python's Unicode-aware `str.lower()`.
- CodeControlMap.FinalCategories: `list(set(...))` has an unspecified order; the model gives the categories as a set and a scanned element's categories as a given list.
- MapMerge.NameKey: a name that is a number, boolean or `None` is a valid dict key that no scanned string name can equal; it is ignored, and Python's cross-type key equality (`1 == True`) is not modelled.
- The scripts mutate the old entries' copies, the scanned dicts and `existing_data` in place; the model builds new values and does not capture aliasing.
- MapMerge.MergeLoop applies an entry function (`CodeControlMap.EntryFor`, `RootMap.EntryFor`); the imperative loop body for a known name is `CodeControlMap.MergeEntry`, proved equal to that function.
- The scan of code_control/update_map.py never lacks `categories`, so the default it would give is not modelled separately. The default `merge_maps` gives (`["Uncategorized"]`) is modelled.
