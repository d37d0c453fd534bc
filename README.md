# Workload and application list filtering and sorting, in Dafny

This project models the client-side list logic of the service-mesh dashboard's
Workloads and Applications pages: the two near-duplicate `FiltersAndSorts`
modules.

- **Filtering** (`filterBy`). The active filters are `(category, value)` pairs.
  - Name filters are case-sensitive substring tests, and any selected name may match.
  - The workload type filter is also a substring test, and any selected type may match.
  - Presence filters (Istio sidecar, app label, version label) compare a boolean flag. Only the first filter of each category counts: `"Present"` means the flag must be set, and any other value means it must not be.
  - Categories the page does not know are ignored.
  - A stage that filters assigns a new, filtered array to the response's list field and leaves the old array as it was. A Workloads stage with nothing selected hands back the array it was given. An Applications stage whose filter is not active assigns nothing.
- **Comparators** (`sortFields[].compare`). Each sort field has one:
  - namespace, then name;
  - name alone;
  - workload type alone;
  - "flag set first, then name" for the presence fields.
- **Sort driver** (`sortWorkloadsItems`, `sortAppsItems`). The array is sorted in place, stably, with the chosen comparator. When descending, the comparator's arguments are swapped.

Layout, one module per file:

| file | module | what it holds |
|---|---|---|
| `text.dfy` | `Text` | `includes` as `Contains`/`IncludesAny`, and `localeCompare` as lexicographic `LocaleCompare` checked against the reference order `LexLess` |
| `lists.dfy` | `Lists` | `Array.prototype.filter` as `Filter`, `removeDuplicatesArray` as `RemoveDuplicates`, and `KeepsExactly` |
| `sorting.dfy` | `Sorting` | `Array.prototype.sort` as an in-place insertion sort over an `array`; `SortedBy`, `IsTotalPreorder`, stability as `SameTies`, and the uniqueness of a stable sort's result |
| `active_filters.dfy` | `ActiveFilters` | the `ActiveFilter` pair, a category's values, and the "first filter wins" presence choice |
| `workload_list.dfy` | `WorkloadList` | the Workloads page |
| `app_list.dfy` | `AppList` | the Applications page |

`KeepsExactly(r, s, p)` says what a filtered list is. It has two parts:

- `r` is an order-preserving subsequence of `s`;
- every element passing `p` appears in `r` as often as in `s`, and no other element appears in `r`.

`KeepsExactlyIsFilter` proves that only one list satisfies this, namely `Filter(s, p)`. So each filter's contract pins its result down completely.

Where the source changes state, the model does too:

- `filterBy` is a method that assigns the list field of a response object (`WorkloadNamespaceResponse.workloads`, `AppListResponse.applications`).
- The sort is a method on an `array`.
- `includeName` (a `for` loop with an early return) and the `filterByName` callback of the Applications page (a flag and a `break`) are methods with loops. `includeName` is proved equal to the predicate `IncludesAny`, which is false when no name is given. The callback is proved equal to `NameSelected`, which is true when no name is selected and `IncludesAny` otherwise. The pure filter functions use these predicates.

## Model

| member | source | states |
|---|---|---|
| `Text.LocaleCompare` | src/pages/WorkloadList/FiltersAndSorts.ts:30 | `localeCompare` answers -1, 0 or 1, and 0 exactly when the two strings are equal |
| `Text.LocaleCompareLess` | src/pages/WorkloadList/FiltersAndSorts.ts:30 | `localeCompare` is negative exactly when the first string precedes the second lexicographically (`LexLess`) |
| `Text.LocaleCompareAntisymmetric` | src/pages/AppList/FiltersAndSorts.ts:36 | swapping the strings negates the answer |
| `Text.LocaleCompareTransitive` | src/pages/AppList/FiltersAndSorts.ts:36 | "sorts no later than" is transitive |
| `Lists.Filter` | src/pages/WorkloadList/FiltersAndSorts.ts:216 | `filter` keeps, in order, exactly the elements that pass the predicate, each as often as in the input |
| `Lists.KeepsExactlyIsFilter` | src/pages/WorkloadList/FiltersAndSorts.ts:227 | a list that keeps exactly the passing elements as an ordered subsequence is the filtered list: the characterisation is complete |
| `Lists.KeepsExactlyCompose` | src/pages/WorkloadList/FiltersAndSorts.ts:225-236 | filtering by one predicate and then another keeps exactly what passes both (categories combine by AND) |
| `Lists.FilterIdempotent` | src/pages/AppList/FiltersAndSorts.ts:108 | filtering twice by the same predicate is filtering once |
| `Lists.FilterFirst` | src/pages/WorkloadList/FiltersAndSorts.ts:265-267 | the filtered list is empty iff no element passes, and otherwise starts with the first element that passes |
| `Lists.FilterConcat` | src/pages/WorkloadList/FiltersAndSorts.ts:260-262 | filtering a concatenation is concatenating the filtered parts |
| `Lists.RemoveDuplicates` | src/pages/WorkloadList/FiltersAndSorts.ts:247-251 | de-duplication keeps the same set of elements and leaves no element twice. It keeps the first occurrence of each element, in input order: the result is a subsequence of the input, and every element is kept at a position that precedes every later element's first occurrence |
| `Sorting.Sort` | src/pages/WorkloadList/FiltersAndSorts.ts:310 | an in-place sort by a total-preorder comparator yields a permutation of the input ordered by the comparator. It is stable: for every item, the items comparing equal to it keep their input order (`SameTies`). An already ordered input is left unchanged, so sorting twice equals sorting once |
| `Sorting.ReversedSortedBySwapped` | src/pages/AppList/FiltersAndSorts.ts:157 | a list ordered by `compare`, read backwards, is ordered by `(a, b) => compare(b, a)` |
| `Sorting.SortedUnique` | src/pages/WorkloadList/FiltersAndSorts.ts:310 | a stable sort has exactly one result: two lists ordered by the comparator, holding the same items with every run of equal-comparing items in the same order, are equal |
| `Sorting.NoDistinctTiesSameTies` | src/pages/WorkloadList/FiltersAndSorts.ts:310 | when no two different items compare equal, two lists holding the same items keep every run of ties in the same order |
| `Sorting.SwappedSortIsReversed` | src/pages/WorkloadList/FiltersAndSorts.ts:310 | when no two different items compare equal, the list ordered by `(a, b) => compare(b, a)` is exactly the list ordered by `compare`, read backwards |
| `ActiveFilters.ValuesIn` | src/pages/WorkloadList/FiltersAndSorts.ts:255-257 | the values taken from one category are exactly the values of the active filters of that category, in the order and with the repeats of `filters`: tagged back with the category, they are exactly what `filter` keeps |
| `ActiveFilters.PresenceSelected` | src/pages/WorkloadList/FiltersAndSorts.ts:260-267 | a presence axis is unfiltered iff no filter has its category; otherwise the first filter of the category decides, and the expected flag is true iff its value is `"Present"` |
| `ActiveFilters.LaterPresenceIgnored` | src/pages/AppList/FiltersAndSorts.ts:121-127 | once a category has a filter, a further filter of that category changes nothing |
| `ActiveFilters.OtherCategoryIgnored` | src/pages/AppList/FiltersAndSorts.ts:113-123 | a filter of another category, inserted anywhere, changes neither a category's values nor its presence choice |
| `WorkloadList.IncludeName` | src/pages/WorkloadList/FiltersAndSorts.ts:203-210 | `includeName` is true iff some selected string occurs in the name, so it is false for an empty list |
| `WorkloadList.FilterByType` | src/pages/WorkloadList/FiltersAndSorts.ts:212-217 | the list unchanged when no type is selected; otherwise exactly the workloads whose type contains a selected token, in order |
| `WorkloadList.TypeFilterIsSubstringMatch` | src/pages/WorkloadList/FiltersAndSorts.ts:216 | type matching is by substring: selecting `Deployment` keeps a `DeploymentConfig`, and selecting `DeploymentConfig` does not keep a `Deployment` |
| `WorkloadList.FilterByName` | src/pages/WorkloadList/FiltersAndSorts.ts:239-244 | the list unchanged when no name is selected; otherwise exactly the workloads whose name contains a selected string, in order |
| `WorkloadList.FilterByLabel` | src/pages/WorkloadList/FiltersAndSorts.ts:219-237 | an `undefined` axis is not filtered; each defined axis keeps exactly the workloads whose flag equals the requested value, in order |
| `WorkloadList.Selected` | src/pages/WorkloadList/FiltersAndSorts.ts:247-283 | the type tokens are exactly the enum lookups of the selected type values and the names exactly the selected names, each list without repeats |
| `WorkloadList.FilterBy` | src/pages/WorkloadList/FiltersAndSorts.ts:246-287 | `response.workloads` becomes an order-preserving subsequence of itself, holding exactly the workloads that pass every stage; an empty filter list leaves it unchanged |
| `WorkloadList.NoFiltersAdmitAll` | src/pages/WorkloadList/FiltersAndSorts.ts:246-287 | with no active filter every workload passes every stage |
| `WorkloadList.FilterByIdempotent` | src/pages/WorkloadList/FiltersAndSorts.ts:246-287 | re-applying `filterBy` with the same filters changes nothing |
| `WorkloadList.UnknownCategoryIgnored` | src/pages/WorkloadList/FiltersAndSorts.ts:247-283 | a filter of a category the page does not know, inserted anywhere, leaves the selection unchanged |
| `WorkloadList.SidecarPresentFilter` | src/pages/WorkloadList/FiltersAndSorts.ts:260-267 | a single `Istio Sidecar` filter keeps exactly the workloads whose sidecar flag is `value === 'Present'` |
| `WorkloadList.NamespaceOrder` | src/pages/WorkloadList/FiltersAndSorts.ts:17-23 | the namespace comparator orders by namespace and breaks ties by workload name; it returns 0 only for equal namespace and name |
| `WorkloadList.SingleFieldOrder` | src/pages/WorkloadList/FiltersAndSorts.ts:30-37 | the name and type comparators order by that one string |
| `WorkloadList.PresenceOrder` | src/pages/WorkloadList/FiltersAndSorts.ts:44-82 | the sidecar, app-label and version-label comparators put a workload with the flag set first, and order equal flags by name |
| `WorkloadList.NamespaceSortExample` | src/pages/WorkloadList/FiltersAndSorts.ts:17-23 | sorting `[{a, ns z}, {b, ns a}]` by namespace ascending can only give `[{b, ns a}, {a, ns z}]` |
| `WorkloadList.CompareAntisymmetric` | src/pages/WorkloadList/FiltersAndSorts.ts:17-82 | every comparator gives opposite answers when its arguments are swapped |
| `WorkloadList.CompareTransitive` | src/pages/WorkloadList/FiltersAndSorts.ts:17-82 | every comparator's "no later than" is transitive |
| `WorkloadList.ComparatorIsTotalPreorder` | src/pages/WorkloadList/FiltersAndSorts.ts:310 | the ascending comparator and the argument-swapped descending comparator are both total preorders |
| `WorkloadList.SortWorkloadsItems` | src/pages/WorkloadList/FiltersAndSorts.ts:310-311 | the array itself comes back, sorted in place: a permutation of the input ordered by `compare` when ascending and by `compare` with swapped arguments when descending; items that compare equal keep their input order; an already ordered array is unchanged |
| `WorkloadList.ReversedAscendingIsDescending` | src/pages/WorkloadList/FiltersAndSorts.ts:310 | an ascending-ordered list read backwards is in descending order |
| `WorkloadList.DescendingIsReversedAscending` | src/pages/WorkloadList/FiltersAndSorts.ts:310 | sorting the same workloads by one field ascending and descending: when no two different items compare equal under that field, the descending result is exactly the ascending one reversed |
| `WorkloadList.TypeSortKeepsTies` | src/pages/WorkloadList/FiltersAndSorts.ts:310 | two workloads of the same type come back in input order from a type sort in either direction, so ties are not reversed by descending |
| `AppList.AppNameFiltered` | src/pages/AppList/FiltersAndSorts.ts:92-104 | the callback's flag ends true iff no name is selected or some selected string occurs in the name |
| `AppList.FilterByName` | src/pages/AppList/FiltersAndSorts.ts:91-105 | every application when no name is selected; otherwise exactly those whose name contains a selected string, in order |
| `AppList.FilterByIstioSidecar` | src/pages/AppList/FiltersAndSorts.ts:107-109 | exactly the applications with `istioSidecar === b`, in order |
| `AppList.Selected` | src/pages/AppList/FiltersAndSorts.ts:113-127 | the names are exactly the selected `App Name` values, with no repeats |
| `AppList.FilterBy` | src/pages/AppList/FiltersAndSorts.ts:111-134 | `appsList.applications` becomes an order-preserving subsequence holding exactly the applications that pass the sidecar choice (if any) and the name filter; with no filter of a known category it is unchanged |
| `AppList.FilterByIdempotent` | src/pages/AppList/FiltersAndSorts.ts:111-134 | re-applying `filterBy` with the same filters changes nothing |
| `AppList.RepeatedFilterIgnored` | src/pages/AppList/FiltersAndSorts.ts:113-133 | choosing an already active filter again does not change which applications pass: names are de-duplicated, and the first sidecar filter decides |
| `AppList.UnknownCategoryIgnored` | src/pages/AppList/FiltersAndSorts.ts:111-134 | a filter of a category the page does not know, inserted anywhere, leaves the selection unchanged |
| `AppList.NamespaceAndNameOrder` | src/pages/AppList/FiltersAndSorts.ts:23-36 | the namespace comparator orders by namespace then app name; the app-name comparator by name alone |
| `AppList.SidecarOrder` | src/pages/AppList/FiltersAndSorts.ts:43-51 | the sidecar comparator puts sidecar-present apps first and orders equal flags by name |
| `AppList.CompareAntisymmetric` | src/pages/AppList/FiltersAndSorts.ts:23-51 | every comparator gives opposite answers when its arguments are swapped |
| `AppList.CompareTransitive` | src/pages/AppList/FiltersAndSorts.ts:23-51 | every comparator's "no later than" is transitive |
| `AppList.ComparatorIsTotalPreorder` | src/pages/AppList/FiltersAndSorts.ts:157 | the ascending comparator and the argument-swapped descending comparator are both total preorders |
| `AppList.SortAppsItems` | src/pages/AppList/FiltersAndSorts.ts:157-158 | the array itself comes back, sorted in place: a permutation of `unsorted` ordered by `compare`, with swapped arguments when descending; items that compare equal keep their input order; an already ordered array is unchanged |
| `AppList.ReversedAscendingIsDescending` | src/pages/AppList/FiltersAndSorts.ts:157 | an ascending-ordered list read backwards is in descending order |
| `AppList.DescendingIsReversedAscending` | src/pages/AppList/FiltersAndSorts.ts:157 | sorting the same applications by one field ascending and descending: when no two different items compare equal under that field, the descending result is exactly the ascending one reversed |
| `AppList.NameSortKeepsTies` | src/pages/AppList/FiltersAndSorts.ts:157 | two applications of the same name come back in input order from a name sort in either direction, so ties are not reversed by descending |

## Left out

- The error-rate sort field and the asynchronous branch of both sort drivers are not modelled. That branch waits for every item's health promise, attaches the health, and compares floating-point error ratios from `getRequestErrorsRatio`, whose source is not part of this model. It also returns 0 when health is missing, so it is not a total order.
- The `Promise.resolve` wrapper around the synchronous sort result is not modelled. The sort methods return the sorted array directly.
- The static metadata is not modelled: `availableFilters`, the `FilterType` records, `presenceValues`, `NamespaceFilter.create()`, and the `title`/`param`/`isNumeric` fields of the sort fields. It is UI configuration with no behaviour. Sort fields are a datatype of ids.
- `localeCompare` is plain lexicographic order on characters, with no locale-aware collation. Its result is -1, 0 or 1. Every comparator here uses only its sign.
- `WorkloadList.DescendingIsReversedAscending`: the two sort results are related only when no two different workloads compare equal. With ties, the descending result is the ascending one reversed run by run, with each run of ties kept in input order. That general relation is not stated. `TypeSortKeepsTies` shows the input order of a tie kept in both directions.
- `AppList.DescendingIsReversedAscending`: the same limit as on the Workloads page. `NameSortKeepsTies` shows the input order of a tie kept in both directions.
- The model keeps list values, not array identity. Whether a stage hands back the same array or a new one with the same items is not distinguished, and neither is aliasing of the list by other code.
- Item fields the filters and comparators never read are not modelled, health promises included.
- `types/Workload.ts` is not part of this model. The `WorkloadType` enumeration is taken to map each of the nine kinds listed in the type filter to its own name. Any other value that is not one of the object's keys looks up `undefined`, which `includes` searches for as the text "undefined" (`TypeToken`).
- `WorkloadList.TypeToken`: the keys every object inherits from `Object.prototype` are not modelled. For `toString`, `constructor`, `hasOwnProperty` or `__proto__`, the lookup yields a function or an object, and `includes` searches for its string form. `TypeToken` maps these keys to "undefined" like any other unknown value.
- `utils/Common.ts` is not part of this model. `removeDuplicatesArray` is taken to keep the first occurrence of each element, in order.
- The `filter &&` guard of `filterByType` is not modelled separately. The caller always passes an array.

An unknown `Workload Type` value (other than the inherited keys above) does not simply fail to match. The enum lookup yields `undefined`, and `includes` then searches for the text "undefined", which matches any workload whose type contains it. The model follows this behaviour.
