# TimeDone Enhancement Suite — a Dafny model of its rule core

TimeDone Enhancement Suite is a browser extension that patches a
time-tracking web page. It adds:

- an "expand all / collapse all" button for grouped worklog rows;
- two footer fixes;
- a fix for the project auto-selection in the worklog form;
- a "projects time" window that groups a project's log lines by a
  user-supplied regular expression.

Most of the extension is DOM glue. This project models the rules
underneath as immutable datatypes and pure functions, and proves
properties of them. The modules follow the extension's source files:

| module | models |
|---|---|
| `CollectionService` | `groupToMap`, an order-preserving group-by, with an independent reference definition |
| `StorageService` | storage key namespacing and feature/global data access over two abstract storage areas |
| `ProjectsTimeDataStorage` | the per-project regex store, a read-modify-write on one stored object |
| `GroupingService` | grouping-type normalisation, group-key extraction by regex or ticket, and grouping |
| `ProjectsTimeElementBuilder` | regex validation, the change handler's save decision, time-unit text, group titles, totals and ordering |
| `ProjectsTime` | per-project partition and sort, `groupLogLinesByGroupKey`, the project element search, `dd.mm.yyyy` parsing, the lifecycle flag |
| `HtmlHelper` | `resolveElement` as a function of the supplier's results over the initial call and each mutation batch |
| `FeatureRegistry`, `FeatureService`, `FeatureInitializer` | the sorted registry, the enabled-with-default rule, and the initialize/deregister decision |
| `ExpandCollapseElement`, `LegacyExpandCollapse` | the two-state expand/collapse button, and its older variant with the state held in the icon text |
| `WorklogRows`, `ExpandAll` | worklog group rows, row clicks through their listeners, and the expand-all feature |
| `LegacyContentScripts` | the two older content scripts with the same row and button rules |
| `ProjectAutoselect` | the auto-select decision, shared by the feature and the older content script |
| `FooterDisplayFix`, `FooterBackgroundFix` | the footer fixes as transitions on class sets and on the footer's id |

Support modules:

- `Wrappers`: `Option` and `Result`.
- `Decimal`: decimal digits and their parse.
- `Text`: JavaScript's `trim`, `split`, `join`, `replaceAll` and string order by code point.
- `Ordering`: `Array.prototype.sort` with a `localeCompare` comparator.
- `JsValues`: JSON-like values, truthiness and property access.
- `LogLines`: log lines and grouping keys.
- `RegexOracle`: the regular-expression engine.

Three things outside the extension are parameters of the model:

- **The regular-expression engine** is the `RegexOracle.Engine` record. It
  says whether a pattern compiles, gives its syntax error and its number of
  capture groups, and gives the match of a pattern on a string. The
  predicate `Consistent` ties the match arrays to the group count.
- **`localeCompare` collation** is an abstract comparison `leq` that must be a
  total preorder. Code-point order (`Text.LexLeq`) is one instance of it;
  it differs from JavaScript's UTF-16 code-unit order only when a character
  above U+FFFF is compared with one in U+E000 to U+FFFF.
- **Element lookups** are results. A lookup that was awaited is a
  `HtmlHelper.Lookup`: found, an error that the caller caught, or a promise
  that never settles.

The rules on worklog rows are generic in the button type, so one set of
lemmas covers:

- the expand-all feature, whose button is a `Button` record;
- the older scripts, whose button state is the icon text.

## Model

| member | source | states |
|---|---|---|
| CollectionService.Add | src/feature/projects-time/collection-service.js:12 | one reduction step either appends a new one-element group or keeps the number of groups, and adds exactly the element to the multiset of grouped elements |
| CollectionService.GroupToMap | src/feature/projects-time/collection-service.js:9-15 | the Map never has more groups than the array has elements (each element opens at most one group) |
| CollectionService.AddNewKey | src/feature/projects-time/collection-service.js:12 | a key not yet in the map is appended at the end with the group `[x]` |
| CollectionService.AddExistingKey | src/feature/projects-time/collection-service.js:12 | for a key already present, `x` is pushed onto that key's group and every other group is unchanged |
| CollectionService.GroupToMapIsReference | src/feature/projects-time/collection-service.js:9-15 | the reduction equals the reference definition: keys in first-occurrence order, each with the filter of the input by that key |
| CollectionService.GroupToMapKeys | src/feature/projects-time/collection-service.js:12-14 | map keys are distinct and listed in order of their first occurrence in the input |
| CollectionService.GroupToMapItems | src/feature/projects-time/collection-service.js:10-12 | each group holds exactly the input elements with its key, in input order, and is never empty |
| CollectionService.GroupToMapCovers | src/feature/projects-time/collection-service.js:10-12 | every input element lies in a group whose key is the element's extracted key |
| CollectionService.GroupToMapPermutation | src/feature/projects-time/collection-service.js:9-15 | concatenating the groups gives a permutation of the input, so group sizes sum to the input length |
| CollectionService.GroupToMapEmpty | src/feature/projects-time/collection-service.js:9-15 | the map is empty exactly when the input array is: the reduction's seed `new Map()` survives only an empty array |
| CollectionService.FirstOccurrencesOrdered | src/feature/projects-time/collection-service.js:12-14 | a key listed earlier in the map first occurs earlier in the input |
| CollectionService.GroupToMapSingleKey | src/feature/projects-time/collection-service.js:9-15 | when every element has the same key the map is that one key with the whole input, or empty for an empty input |
| Text.Trim | src/feature/projects-time/grouping-service.js:91 | `trim` removes only whitespace, from both ends, and leaves a result that neither starts nor ends with whitespace |
| Text.TrimIdempotent | src/feature/projects-time/grouping-service.js:91 | trimming twice equals trimming once |
| Text.TrimPadded | src/feature/projects-time/grouping-service.js:126 | whitespace added before and after a string does not change its trimmed form |
| Text.JoinSplit | src/feature/projects-time/projects-time.js:337 | joining the pieces of `split('.')` with the separator restores the string |
| Text.SplitJoin | src/feature/projects-time/projects-time.js:337 | splitting a join of separator-free pieces gives back the pieces |
| Text.ReplaceAll | src/feature/projects-time/data/projects-time-data-storage.js:45 | `replaceAll` keeps the length and replaces exactly the occurrences of the character |
| Ordering.Sort | src/feature/feature-loader.js:12-13 | the comparator sort returns a permutation of its input, sorted under the comparator; it is stable, by `Ordering.SortIsStable` |
| Ordering.SortOfSorted | src/feature/feature-loader.js:12-13 | sorting an already sorted sequence returns it unchanged |
| Ordering.SortIsStable | src/feature/projects-time/element/projects-time-element-builder.js:149-151 | the sort is stable: for every collation class, the elements whose keys fall in it keep their relative order |
| Ordering.SumOfPermutation | src/feature/projects-time/element/projects-time-element-builder.js:349-350 | a sum over the elements does not depend on their order |
| StorageService.Read | src/helper/storage-service.js:18-20 | reading a key yields the stored value, or undefined when the key is absent |
| StorageService.FeatureDataKey | src/helper/storage-service.js:16-17 | the key starts with `data.` and continues with the feature id, the delimiter and the data key |
| StorageService.GlobalDataKey | src/helper/storage-service.js:50 | the key starts with `global.` and continues with the data key |
| StorageService.ParseFeatureDataKey | src/helper/storage-service.js:16-17 | a parsed key re-composes to the same `data.<feature>.<key>` string, with a feature id free of the delimiter |
| StorageService.ParseFeatureDataKeyRoundTrip | src/helper/storage-service.js:16-17 | a key composed from a delimiter-free feature id parses back to that feature id and data key |
| StorageService.FeatureDataKeyCollision | src/helper/storage-service.js:16-17 | feature ids that contain the delimiter can collide: ("a.b", "c") and ("a", "b.c") give the same key |
| StorageService.NamespacesDisjoint | src/helper/storage-service.js:1-3 | no feature data key equals a global data key |
| StorageService.GetFeatureData | src/helper/storage-service.js:15-21 | the stored value when it is truthy, `{}` when it is absent or falsy; the result is always truthy |
| StorageService.StoreFeatureData | src/helper/storage-service.js:30-38 | the feature data key now holds the data; every other sync key and the whole local area are unchanged |
| StorageService.GetGlobalData | src/helper/storage-service.js:49-54 | reads `global.<key>` from the local area, giving `{}` when it is absent or falsy |
| StorageService.StoreThenGet | src/helper/storage-service.js:15-37 | reading back stored data yields it, or `{}` if the data is falsy |
| StorageService.StoreKeepsOthers | src/helper/storage-service.js:30-38 | storing under one key leaves the feature data under every other key, and all global data, as read before |
| ProjectsTimeDataStorage.ConvertProjectNameToKey | src/feature/projects-time/data/projects-time-data-storage.js:44-46 | every space becomes '-', other characters and the length are kept, and the key has no spaces |
| ProjectsTimeDataStorage.ConvertProjectNameToKeyIdempotent | src/feature/projects-time/data/projects-time-data-storage.js:44-46 | converting a key again changes nothing |
| ProjectsTimeDataStorage.ConvertProjectNameToKeyFixesSpaceFree | src/feature/projects-time/data/projects-time-data-storage.js:44-46 | a name without spaces is its own key |
| ProjectsTimeDataStorage.ConvertProjectNameToKeyNotInjective | src/feature/projects-time/data/projects-time-data-storage.js:44-46 | "a b" and "a-b" share one key |
| ProjectsTimeDataStorage.GetGroupRegexByProject | src/feature/projects-time/data/projects-time-data-storage.js:13-19 | the stored regex object's property under the project key, or undefined when the property is absent |
| ProjectsTimeDataStorage.SaveGroupRegexForProject | src/feature/projects-time/data/projects-time-data-storage.js:28-36 | succeeds exactly when the stored regex data is an object (assigning to a primitive throws in module code); it then changes only the regex data key |
| ProjectsTimeDataStorage.SaveThenGet | src/feature/projects-time/data/projects-time-data-storage.js:13-36 | after a successful save, reading the project's regex yields the saved string |
| ProjectsTimeDataStorage.SaveKeepsOtherProjects | src/feature/projects-time/data/projects-time-data-storage.js:28-36 | a save leaves the regex of every other feature, and of every project with a different key, unchanged |
| ProjectsTimeDataStorage.FeatureIdsSeparated | src/feature/projects-time/data/projects-time-data-storage.js:30-31 | distinct feature ids keep their regex data under distinct storage keys |
| ProjectsTimeDataStorage.GetMissingIsUndefined | src/feature/projects-time/data/projects-time-data-storage.js:14-18 | with nothing stored under the project key the read yields undefined |
| ProjectsTimeDataStorage.SaveIntoEmptyStore | src/feature/projects-time/data/projects-time-data-storage.js:28-36 | on an empty store the first save succeeds and stores an object holding just that project's regex |
| GroupingService.MapToValidGroupType | src/feature/projects-time/grouping-service.js:138-148 | returns its input exactly when the input is "description" or "ticket", and "description" otherwise |
| GroupingService.MapToValidGroupTypeIdempotent | src/feature/projects-time/grouping-service.js:138-153 | normalising a normalised type changes nothing |
| GroupingService.GetCurrentGroupingType | src/feature/projects-time/grouping-service.js:45-49 | "description" for a falsy stored type, otherwise the normalised stored type; always a valid type |
| GroupingService.SaveCurrentGroupingType | src/feature/projects-time/grouping-service.js:58-63 | only a valid group type is ever persisted, and a valid input is persisted as given |
| GroupingService.SaveThenGetGroupingType | src/feature/projects-time/grouping-service.js:45-63 | a saved type reads back unchanged |
| GroupingService.GetCurrentGroupingTypeAsWritten | src/feature/projects-time/grouping-service.js:45-49 | as written, a successful result would be the documented type |
| GroupingService.SaveCurrentGroupingTypeAsWritten | src/feature/projects-time/grouping-service.js:58-63 | as written, a successful result would persist the documented value |
| GroupingService.GroupingTypeAccessAlwaysFails | src/feature/projects-time/grouping-service.js:45-63 | as written, both calls fail for every input, because the data storage module does not define the functions they call |
| GroupingService.ExtractGroupingKeyAsWritten | src/feature/projects-time/grouping-service.js:86-99 | as written: null exactly when there is no regex or the match array has no entry 1; undefined exactly when entry 1 exists but did not take part in the match; otherwise entry 1's text |
| GroupingService.ExtractGroupingKey | src/feature/projects-time/grouping-service.js:86-99 | null exactly when there is no regex, no match, no group 1, or a group 1 that did not take part in the match; otherwise group 1's text; never undefined |
| GroupingService.ExtractGroupingKeyAgreement | src/feature/projects-time/grouping-service.js:86-99 | the as-written and corrected extractions differ exactly when the as-written one returns undefined |
| GroupingService.ExtractGroupingKeyUndefinedWitness | src/feature/projects-time/grouping-service.js:94-98 | `(a)?b` on "b": as written the key is undefined and its group title is "undefined"; corrected, the key is null |
| GroupingService.NoCaptureGroupMeansNull | src/feature/projects-time/grouping-service.js:91-98 | a compiling pattern without capture groups puts every line under null |
| GroupingService.ExtractTicketValue | src/feature/projects-time/grouping-service.js:120-127 | null exactly for a missing or empty ticket, otherwise the trimmed ticket |
| GroupingService.TicketKeyIgnoresEdgeWhitespace | src/feature/projects-time/grouping-service.js:120-127 | tickets that differ only in whitespace around them get the same key, so they share a group |
| GroupingService.GroupByStoredRegex | src/feature/projects-time/grouping-service.js:27-32 | as written: fails exactly when a truthy stored value does not compile as a regex; a falsy value puts every line under the single null key; otherwise the lines are grouped by entry 1 of the match array, undefined included |
| GroupingService.GroupByStoredRegexCorrected | src/feature/projects-time/grouping-service.js:27-32 | corrected (Findings row 1): the same outcomes with the corrected key, and no group is keyed undefined |
| GroupingService.GroupByStoredRegexAgreement | src/feature/projects-time/grouping-service.js:27-32 | when no line's as-written key is undefined, the as-written and corrected groupings are equal |
| GroupingService.RegexGroupsAreMatches | src/feature/projects-time/grouping-service.js:27-32 | in regex mode each group is non-empty and holds, in input order, exactly the lines whose key is the group's key; no key repeats |
| GroupingService.GroupLogLinesByGroupKey | src/feature/projects-time/grouping-service.js:23-36 | corrected (Findings row 3): with the type read through the corrected `getCurrentGroupingType`, description mode groups by the stored regex with the as-written key; any other mode groups by ticket |
| GroupingService.GroupLogLinesByGroupKeyAsWritten | src/feature/projects-time/grouping-service.js:23-26 | as written: the failure of `getCurrentGroupingType` propagates; a success could only be the corrected grouping |
| GroupingService.GroupLogLinesByGroupKeyAlwaysFails | src/feature/projects-time/grouping-service.js:23-26 | as written, grouping fails for every stored type, regex and list of lines |
| GroupingService.TicketModeExactly | src/feature/projects-time/grouping-service.js:27-35 | ticket grouping is used exactly when the stored type is the string "ticket" |
| ProjectsTimeElementBuilder.ValidateRegexValueSyntax | src/feature/projects-time/element/projects-time-element-builder.js:236-242 | no error exactly when the pattern compiles; otherwise its syntax error |
| ProjectsTimeElementBuilder.ValidateRegexGroupsAmount | src/feature/projects-time/element/projects-time-element-builder.js:251-266 | no error exactly for one capture group; the missing-group error for none; the too-many error naming the count for more |
| ProjectsTimeElementBuilder.GetInvalidRegexError | src/feature/projects-time/element/projects-time-element-builder.js:216-227 | no error exactly for the empty string or a compiling pattern with one group; the syntax error comes before any group counting |
| ProjectsTimeElementBuilder.ValidateRegexValue | src/feature/projects-time/element/projects-time-element-builder.js:189-208 | valid exactly when there is no error; on failure the input gets the prefixed message, the error class and a scheduled report; on success both are cleared; no other class or the value changes |
| ProjectsTimeElementBuilder.HandleProjectRegexChange | src/feature/projects-time/element/projects-time-element-builder.js:166-178 | saves exactly valid input, which then reads back from the store; invalid input leaves the store as it was; groups are regenerated exactly after a save when the container is in the page |
| ProjectsTimeElementBuilder.HandleProjectRegexChangeKeepsStoreUsable | src/feature/projects-time/element/projects-time-element-builder.js:166-178 | if every stored regex is empty or compiles, the same holds after any change event |
| ProjectsTimeElementBuilder.InitialRegexInputValue | src/feature/projects-time/element/projects-time-element-builder.js:106-108 | the input shows the saved regex, or "" when nothing truthy is saved |
| ProjectsTimeElementBuilder.InputShowsSavedRegex | src/feature/projects-time/element/projects-time-element-builder.js:96-111 | after a saving change, a rebuilt input shows the value the user entered |
| ProjectsTimeElementBuilder.JsRemainder | src/feature/projects-time/element/projects-time-element-builder.js:393 | JavaScript's `%`: the remainder has the sign of the dividend, is smaller than the divisor in size, and completes the quotient truncated toward zero back to the dividend |
| ProjectsTimeElementBuilder.SplitTimeUnits | src/feature/projects-time/element/projects-time-element-builder.js:391-396 | for a natural number of units, minutes are 0 or 30 and 60·hours + minutes = 30·units |
| ProjectsTimeElementBuilder.SplitTimeUnitsNegativeOdd | src/feature/projects-time/element/projects-time-element-builder.js:392-393 | for -1 unit the text is -1 hours and -30 minutes, which does not add up to -30 minutes |
| ProjectsTimeElementBuilder.TimeUnitsToString | src/feature/projects-time/element/projects-time-element-builder.js:391-396 | for a natural number of units the text reads back as that number of half hours |
| ProjectsTimeElementBuilder.TimeUnitsToStringRoundTrip | src/feature/projects-time/element/projects-time-element-builder.js:391-396 | the text of a natural number of units parses back to that number |
| ProjectsTimeElementBuilder.ConvertProjectNameToElementId | src/feature/projects-time/element/projects-time-element-builder.js:417-419 | every space becomes '-', and all other characters and the length are kept |
| ProjectsTimeElementBuilder.ElementIdIsStorageKey | src/feature/projects-time/element/projects-time-element-builder.js:417-419 | the element id of a project equals its storage key |
| ProjectsTimeElementBuilder.GroupTitle | src/feature/projects-time/element/projects-time-element-builder.js:344 | the title is "Ungrouped" for the null key, and the key's string otherwise |
| ProjectsTimeElementBuilder.BuildProjectGroupContainer | src/feature/projects-time/element/projects-time-element-builder.js:338-358 | a group's container shows its title, and its total, the sum of its lines' time units as text |
| ProjectsTimeElementBuilder.BuildProjectGroupContainers | src/feature/projects-time/element/projects-time-element-builder.js:145-155 | one container per group, sorted by the comparator on `String(key)`, built from a permutation of the groups; groups whose keys tie keep their order, by `Ordering.SortIsStable` |
| ProjectsTimeElementBuilder.NullTiesKeepGroupOrder | src/feature/projects-time/element/projects-time-element-builder.js:149-151 | the null group and a group keyed "null" both sort as "null" and keep their order in the Map, whichever comes first |
| ProjectsTimeElementBuilder.ContainersMatchGroups | src/feature/projects-time/element/projects-time-element-builder.js:145-155 | a group has a container exactly when it is among the groups |
| ProjectsTimeElementBuilder.GroupTotalsAddUp | src/feature/projects-time/element/projects-time-element-builder.js:349-350 | the group totals of a project add up to the total time units of its log lines |
| ProjectsTime.PartitionByProject | src/feature/projects-time/projects-time.js:167-171 | projects are the project-name groups, sorted by name under the comparator |
| ProjectsTime.PartitionByProjectGroups | src/feature/projects-time/projects-time.js:167-174 | each processed project holds exactly the lines with its name, in input order; the names come from the lines and are distinct |
| ProjectsTime.GroupLogLinesByGroupKey | src/feature/projects-time/projects-time.js:247-288 | as written: a regex is built only for a truthy stored value, and the call fails exactly when that value does not compile; a falsy value puts every line under null; a compiling one groups the lines by entry 1 of the match array, undefined included |
| ProjectsTime.GroupLogLinesByGroupKeyCorrected | src/feature/projects-time/projects-time.js:247-288 | corrected (Findings row 1): the same outcomes with the corrected key, and no group is keyed undefined |
| ProjectsTime.GroupingUndefinedWitness | src/feature/projects-time/projects-time.js:247-288 | with `(a)?b` stored and a line described "b", the feature forms one group keyed undefined, titled "undefined"; corrected, the line is under null, titled "Ungrouped" |
| ProjectsTime.UsableStoreNeverRejects | src/feature/projects-time/projects-time.js:247-253 | a store written only through the change handler never makes grouping fail |
| ProjectsTime.FindWorklogProjectElement | src/feature/projects-time/projects-time.js:296-308 | the first element in document order whose first child's text is the project name, or none when no element has it |
| ProjectsTime.JsStringToNumber | src/feature/projects-time/projects-time.js:339 | a part converts like JavaScript's number conversion: a blank part is 0, and otherwise the trimmed part must be decimal digits |
| ProjectsTime.LocalStringToDate | src/feature/projects-time/projects-time.js:336-340 | `dd.mm.yyyy` becomes (year, month - 1, day), taken from the third, second and first parts; fewer than three parts or a non-number gives no date |
| ProjectsTime.LocalStringToDateOfParts | src/feature/projects-time/projects-time.js:336-340 | three parts that convert to numbers give the date arguments (year, month - 1, day) |
| ProjectsTime.LocalStringToDateRoundTrip | src/feature/projects-time/projects-time.js:336-340 | formatting day, month and year with dots and parsing gives back (year, month - 1, day) |
| ProjectsTime.LocalStringToDateLeadingZeros | src/feature/projects-time/projects-time.js:336-340 | "05.03.2024" gives (2024, 2, 5) |
| ProjectsTime.LocalStringToDateMissingParts | src/feature/projects-time/projects-time.js:337-339 | a string without dots gives no date |
| ProjectsTime.Initialize | src/feature/projects-time/projects-time.js:55-59 | initialize sets the flag, and the overlay observer is connected again exactly when the modification completes |
| ProjectsTime.Deregister | src/feature/projects-time/projects-time.js:64-70 | deregister disconnects the observer and clears the flag |
| ProjectsTime.LifecycleIgnoresPriorState | src/feature/projects-time/projects-time.js:55-70 | neither initialize nor deregister depends on the state before it: deregister undoes an initialize, and initializing after a deregister is initializing |
| HtmlHelper.FirstElement | src/helper/html-helper.js:18-28 | the position of the first supplier result that is an element, or none when there is no such result |
| HtmlHelper.FirstElementIgnoresLater | src/helper/html-helper.js:26-28 | results after the first element do not affect the outcome |
| HtmlHelper.ResolveElement | src/helper/html-helper.js:16-34 | an element on the first call resolves at once with one supplier call and no observer; otherwise it resolves with the first element of a later batch after that many calls; the promise rejects only when the first call throws |
| HtmlHelper.Await | src/feature/expand-all/expand-all.js:85-92 | awaiting gives the element exactly for a resolved promise, and an error the caller catches exactly for a rejected one |
| FeatureRegistry.GetFeatures | src/feature/feature-loader.js:11-21 | a permutation of exactly the three registered features, sorted by id under the comparator |
| FeatureRegistry.GetFeaturesInListedOrder | src/feature/feature-loader.js:11-13 | when the comparator orders the three ids as listed, the registry is returned in listed order |
| FeatureRegistry.GetFeaturesCodePointOrder | src/feature/feature-loader.js:11-13 | under code-point order the registry is expand-all, footer-background-fix, project-autoselect-bugfix |
| FeatureRegistry.RegisteredIdsDistinct | src/feature/feature-loader.js:11 | the registered ids are distinct |
| FeatureService.IsFeatureEnabled | src/helper/feature-service.js:13-22 | a non-nullish entry is returned as stored; a nullish entry gives the feature's default, and throws exactly when the feature has none |
| FeatureService.StoredFalseOverridesDefault | src/helper/feature-service.js:17-21 | a stored false yields false whatever the default |
| FeatureService.IsFeatureEnabledReadsOwnEntry | src/helper/feature-service.js:13-22 | the result depends only on the settings entry of the feature's own id |
| FeatureService.RegisteredFeaturesHaveNoDefault | src/helper/feature-service.js:17-18 | for every registered feature a nullish entry throws, since none defines a default |
| FeatureInitializer.InitializeFeature | src/feature/feature-initializer.js:31-43 | initialize exactly when the entry is truthy and the feature is not initialized; deregister exactly when it is falsy and the feature is initialized; otherwise nothing |
| FeatureInitializer.AfterCallMatchesSetting | src/feature/feature-initializer.js:31-43 | after the decided call, a feature that keeps its `isInitialized` contract is initialized exactly when its entry is truthy |
| FeatureInitializer.InitializeFeatures | src/feature/feature-initializer.js:11-22 | one decision per feature, in registry order, from the snapshot taken before settings resolve; a failed settings read calls nothing |
| FeatureInitializer.SecondPassCallsNothing | src/feature/feature-initializer.js:31-43 | a second pass with the same settings, over the statuses the first pass left, calls no feature method |
| FeatureInitializer.MissingEntryNeverInitializes | src/feature/feature-initializer.js:33-35 | a missing entry counts as disabled, even for a feature whose default is enabled |
| ExpandCollapseElement.NewIsExpandable | src/feature/expand-all/element/expand-collapse-element.js:11-28 | a new button is expandable and shows the "expand" icon |
| ExpandCollapseElement.MakeExpandable | src/feature/expand-all/element/expand-collapse-element.js:42-45 | the button becomes expandable and shows the "expand" icon, without a callback |
| ExpandCollapseElement.MakeCollapsable | src/feature/expand-all/element/expand-collapse-element.js:50-53 | the button becomes collapsable and shows the "shrink" icon, without a callback |
| ExpandCollapseElement.ToggleState | src/feature/expand-all/element/expand-collapse-element.js:105-114 | a click flips the state, and exactly the callback of the new state runs |
| ExpandCollapseElement.ToggleTwice | src/feature/expand-all/element/expand-collapse-element.js:105-114 | two clicks restore the original button |
| LegacyExpandCollapse.NewIsExpandable | src/content-scripts/element/expand-collapse.js:42-47 | a new button shows "unfold_more" and so is expandable |
| LegacyExpandCollapse.MakeExpandable | src/content-scripts/element/expand-collapse.js:20-22 | the icon text becomes "unfold_more", which is expandable |
| LegacyExpandCollapse.MakeCollapsable | src/content-scripts/element/expand-collapse.js:24-26 | the icon text becomes "unfold_less", which is not expandable |
| LegacyExpandCollapse.ToggleState | src/content-scripts/element/expand-collapse.js:49-58 | a click flips the state, and exactly the callback of the new state runs |
| LegacyExpandCollapse.ToggleAgreesWithNewer | src/content-scripts/element/expand-collapse.js:49-58 | the older button's click matches the newer button's click, in state and in callback |
| LegacyExpandCollapse.ToggleTwiceNormalizes | src/content-scripts/element/expand-collapse.js:49-58 | two clicks restore an expandable button; any other icon text ends as "unfold_less" |
| WorklogRows.ToggleClasses | src/feature/expand-all/expand-all.js:150-151 | toggling swaps both the expanded and the collapsed class and changes nothing else |
| WorklogRows.ListenerRun | src/feature/expand-all/expand-all.js:142-153 | a listener run on row i changes no other row; on a row with a target it toggles the row and the button becomes the handler's answer to the new rows; on a row without a target nothing changes |
| WorklogRows.ClickRow | src/feature/expand-all/expand-all.js:142-153 | a click on row i changes no other row and keeps the row's kind, marker and listeners; a row without listeners is left as it is with the button |
| WorklogRows.ClickAll | src/feature/expand-all/expand-all.js:184-201 | clicking a snapshot keeps the number of rows, and an empty snapshot changes neither the rows nor the button |
| WorklogRows.ClickAllFrame | src/feature/expand-all/expand-all.js:184-201 | clicking a snapshot changes no row outside it and keeps every row's kind, marker and listeners |
| WorklogRows.IndicesWhere | src/feature/expand-all/expand-all.js:185-186 | the selected rows in document order: exactly the rows that satisfy the selector, in increasing position |
| WorklogRows.ClickToggleableRow | src/feature/expand-all/expand-all.js:142-153 | clicking a managed row with one listener toggles it and runs the handler once |
| WorklogRows.ClickInertRow | src/feature/expand-all/expand-all.js:116-132 | clicking a row without a listener changes nothing |
| WorklogRows.ClickAllToggles | src/feature/expand-all/expand-all.js:184-201 | clicking each listed row once toggles exactly those rows and keeps every row click-consistent |
| WorklogRows.ClickAllLastHandler | src/feature/expand-all/expand-all.js:184-201 | after a run of clicks the button is whatever the handler makes of the final rows |
| ExpandAll.InitWorklogRows | src/feature/expand-all/expand-all.js:116-133 | already managed rows are untouched; each unmanaged group row becomes managed and expanded when its next row is a detail row, collapsed otherwise, and gains one listener |
| ExpandAll.InitWorklogRowsWellFormed | src/feature/expand-all/expand-all.js:116-133 | classification keeps the rows well formed: every managed row carries exactly one of expanded and collapsed, and every group row ends managed |
| ExpandAll.InitWorklogRowsIdempotent | src/feature/expand-all/expand-all.js:117-118 | classifying twice equals classifying once |
| ExpandAll.InitWorklogRowsExample | src/feature/expand-all/expand-all.js:120-128 | in group, detail, group, group, detail, the first and last groups are expanded and the middle group is collapsed |
| ExpandAll.HandleRowToggle | src/feature/expand-all/expand-all.js:164-179 | afterwards the button is expandable exactly when some row is collapsed; a button already matching is unchanged |
| ExpandAll.ClickRowEvent | src/feature/expand-all/expand-all.js:142-154 | a user click on row i changes only the rows and the button, no other row, and not the clicked row's kind, marker or listeners; a row without listeners changes nothing |
| ExpandAll.ClickButton | src/feature/expand-all/element/expand-collapse-element.js:105-114 | the button's click changes only the rows and the button, and keeps every row's kind, marker and listeners; which rows it toggles is stated by `ExpandAll.ExpandAllExpandsEveryRow` and `ExpandAll.CollapseAllCollapsesEveryRow` |
| ExpandAll.ClickMarkedRow | src/feature/expand-all/expand-all.js:142-154 | a click on a managed row toggles just that row, the button then shows whether some row is collapsed, and the rows stay well formed |
| ExpandAll.ExpandAllExpandsEveryRow | src/feature/expand-all/expand-all.js:184-190 | a click on the expandable button leaves no row collapsed, every managed row expanded, and the button collapsable |
| ExpandAll.CollapseAllCollapsesEveryRow | src/feature/expand-all/expand-all.js:195-201 | a click on the collapsable button leaves no row expanded, every managed row collapsed, and the button expandable |
| ExpandAll.Initialize | src/feature/expand-all/expand-all.js:46-56 | nothing changes unless the header cell resolves; then the button is attached and rows are classified, and the flag and observer are set only if the table is present |
| ExpandAll.OnMutation | src/feature/expand-all/expand-all.js:8-10 | only the rows change; while observing, every table mutation classifies the new rows and leaves every group row marked; otherwise nothing changes |
| ExpandAll.DeregisterAsWritten | src/feature/expand-all/expand-all.js:61-79 | as written: nothing changes unless the header cell resolves; then the observer and the flag are cleared, every marked row loses the marker and both classes but keeps its listeners, and every unmarked row is untouched |
| ExpandAll.Deregister | src/feature/expand-all/expand-all.js:61-79 | corrected: as written, but a marked row also loses its listener, so it ends inert; unmarked rows are untouched; on well-formed rows every row ends inert |
| ExpandAll.ReinitializeDoublesListeners | src/feature/expand-all/expand-all.js:130-131 | as written, deregistering and initializing again leaves two listeners on a row, so a click on it leaves the rows unchanged |
| ExpandAll.ReinitializeKeepsOneListener | src/feature/expand-all/expand-all.js:61-79 | with the corrected deregister, re-initializing leaves one listener, and a click toggles the row |
| LegacyContentScripts.HandleFooterDisplay | content-scripts/content-script.js:17-41 | nothing happens unless `shortFooter` is truthy; then the button showing "unfold_more" is added and the footer restyled |
| LegacyContentScripts.HandleFooterDisplayKeepsRows | content-scripts/content-script.js:17-41 | showing the footer never touches the rows, and a second call with the same settings changes nothing more |
| LegacyContentScripts.FooterButtonExpandsAll | content-scripts/content-script.js:17-41 | with `shortFooter` truthy the added button works: its first click leaves no row collapsed and shows "unfold_less" |
| LegacyContentScripts.FooterOffLeavesNoButton | content-scripts/content-script.js:17-41 | with `shortFooter` falsy on a page without the button there is nothing to click: the page stays as it is |
| LegacyContentScripts.InitToggleStuffMarked | content-scripts/content-script.js:43-55 | marked rows are skipped; each unmarked group row stays a group row, is marked and classified by the next-sibling rule, and gets the one named listener |
| LegacyContentScripts.MarkedAgreesWithFeature | content-scripts/content-script.js:43-55 | on well-formed rows the marking script classifies exactly as the expand-all feature |
| LegacyContentScripts.InitToggleStuffMarkedIdempotent | content-scripts/content-script.js:44 | running the marking pass twice equals running it once |
| LegacyContentScripts.InitToggleStuffUnmarked | content-scripts/content_script.js:31-46 | every group row, with no already-managed filter, stays a group row, keeps its marker, gets a class by the next-sibling rule and the named listener; other rows are untouched |
| LegacyContentScripts.UnmarkedReclassifiesToggledRows | content-scripts/content_script.js:31-46 | no row is skipped: an expanded row that a click has collapsed carries both classes after the pass runs again |
| LegacyContentScripts.UnmarkedAgreesWithMarked | content-scripts/content_script.js:31-46 | on rows without the marker the script without it classifies exactly as the marking script, apart from the marker itself |
| LegacyContentScripts.ToggleExpandIcon | content-scripts/content-script.js:65-81 | "unfold_more" with no collapsed row becomes "unfold_less"; "unfold_less" with some collapsed row becomes "unfold_more"; any other icon is unchanged |
| LegacyContentScripts.ToggleExpandIconAgreesWithFeature | content-scripts/content-script.js:65-81 | on the two known icon texts the icon rule matches the expand-all feature's `handleRowToggle` |
| LegacyContentScripts.ToggleExpandFromMore | content-scripts/content-script.js:83-93 | a click while the icon reads "unfold_more" leaves no row collapsed and shows "unfold_less" |
| LegacyContentScripts.ToggleExpandFromOther | content-scripts/content-script.js:83-101 | a click while the icon reads any other text leaves no row expanded and shows "unfold_more" |
| LegacyContentScripts.ToggleExpand | content-scripts/content-script.js:83-102 | the button's click keeps the number of rows, every row's kind, marker and listeners, and the footer; without the icon the page is left as it is |
| LegacyContentScripts.ClickRowEvent | content-scripts/content-script.js:57-63 | a user click on row i changes no other row, keeps the clicked row's kind, marker and listeners and the footer; a row without the listener changes nothing |
| LegacyContentScripts.OnTableMutation | content-scripts/content-script.js:5-15 | every table mutation runs the marking pass: the icon and the footer stay, and every group row ends marked |
| LegacyContentScripts.OnTableMutationIdempotent | content-scripts/content-script.js:5-15 | a further mutation with no new rows changes nothing |
| ProjectAutoselect.GetLastUsedProjectId | src/feature/project-autoselect-bugfix/project-autoselect-bugfix.js:121-124 | `userProject.projectId` of the parsed record, or undefined when a link is missing; a missing or malformed record throws |
| ProjectAutoselect.ResolveProjectValueToSelect | src/feature/project-autoselect-bugfix/project-autoselect-bugfix.js:105-113 | the last-used project id when it is truthy, otherwise the first option's value |
| ProjectAutoselect.SelectProjectOption | src/feature/project-autoselect-bugfix/project-autoselect-bugfix.js:146-149 | the `value` setter selects the first option whose value is the chosen value as a string, so it reads back; with no such option nothing is selected and the value reads ""; the options stay and exactly one change event follows |
| ProjectAutoselect.FirstIndexOf | src/feature/project-autoselect-bugfix/project-autoselect-bugfix.js:147 | the index of the first option with the value, or -1 exactly when no option has it |
| ProjectAutoselect.TryAutoselect | src/feature/project-autoselect-bugfix/project-autoselect-bugfix.js:62-83 | selects exactly when the select and the first option resolve, nothing is selected and the record parses; then one change event follows and the option holding the chosen value is selected, or none when no option holds it |
| ProjectAutoselect.AutoselectPrefersLastProject | src/feature/project-autoselect-bugfix/project-autoselect-bugfix.js:105-113 | with nothing selected, the first option holding the last-used project id is selected when that id is truthy, the first option's value is used otherwise; nothing is selected when no option holds the value |
| ProjectAutoselect.AutoselectKeepsSelection | src/feature/project-autoselect-bugfix/project-autoselect-bugfix.js:78-82 | an existing selection is never changed |
| ProjectAutoselect.Initialize | src/feature/project-autoselect-bugfix/project-autoselect-bugfix.js:42-48 | initialize connects the observer and sets the flag |
| ProjectAutoselect.Deregister | src/feature/project-autoselect-bugfix/project-autoselect-bugfix.js:53-57 | deregister disconnects the observer and clears the flag |
| ProjectAutoselect.OnMutation | src/feature/project-autoselect-bugfix/project-autoselect-bugfix.js:7-9 | while disconnected a mutation changes nothing; while connected it changes the select exactly when a selection is made, with one change event, the first option holding the resolved value selected, or nothing selected and the value "" when no option holds it |
| ProjectAutoselect.DeregisteredIgnoresMutations | src/feature/project-autoselect-bugfix/project-autoselect-bugfix.js:7-9 | after deregistering, no mutation changes the select |
| ProjectAutoselect.InitializedSelectsOnMutation | src/feature/project-autoselect-bugfix/project-autoselect-bugfix.js:7-9 | after initializing, a mutation over an empty select selects the first option holding the resolved project with one change event; with no such option the select stays empty and reads "" |
| ProjectAutoselect.SecondMutationKeepsSelection | src/feature/project-autoselect-bugfix/project-autoselect-bugfix.js:76-82 | once a mutation has selected an option, the next mutation finds the selection and changes nothing, so one change event is dispatched in all |
| ProjectAutoselect.UnmatchedValueReselects | src/feature/project-autoselect-bugfix/project-autoselect-bugfix.js:76-82 | when no option holds the resolved value the select stays empty, so the next mutation selects again and dispatches a second change event |
| ProjectAutoselect.HandleProjectAutoselectFix | src/content-scripts/project-autoselect.js:13-20 | the observer ends connected exactly when `fixProjectAutoselect` is truthy; the feature flag is not touched |
| ProjectAutoselect.HandleFixAgreesWithFeature | src/content-scripts/project-autoselect.js:13-29 | the content script leaves the observer as the feature's `initialize` does for a truthy setting and as its `deregister` does otherwise |
| ProjectAutoselect.FixOffIgnoresMutations | src/content-scripts/project-autoselect.js:13-20 | with the setting falsy, no later mutation changes the select |
| ProjectAutoselect.FixOnSelectsOnMutation | src/content-scripts/project-autoselect.js:4-29 | with the setting truthy, a mutation over an empty select selects the first option holding the resolved project, with one change event |
| FooterDisplayFix.UpdateClasses | src/feature/footer-display-fix/footer-display-fix.js:45-51 | a found element gains or loses exactly the given class; an absent one is untouched |
| FooterDisplayFix.Initialize | src/feature/footer-display-fix/footer-display-fix.js:43-55 | adds the footer class to a resolved footer, then the table class to a resolved table; a caught error skips just that step; the flag is set once both lookups settle |
| FooterDisplayFix.Deregister | src/feature/footer-display-fix/footer-display-fix.js:60-72 | removes both classes where the elements resolve and clears the flag once both lookups settle |
| FooterDisplayFix.InitializeIdempotent | src/feature/footer-display-fix/footer-display-fix.js:43-55 | initializing twice gives the same state as once |
| FooterDisplayFix.OnlyCustomClassesChange | src/feature/footer-display-fix/footer-display-fix.js:43-72 | no class other than the two custom ones is ever added or removed |
| FooterDisplayFix.DeregisterAfterInitialize | src/feature/footer-display-fix/footer-display-fix.js:43-72 | with both elements present, deregistering after initializing removes the custom classes and clears the flag |
| FooterBackgroundFix.AssignElementId | src/feature/footer-background-fix/footer-background-fix.js:78-86 | the id ends equal to the new id; the footer is untouched when it already had it, and otherwise overwritten, assert or not |
| FooterBackgroundFix.AssignOverwritesExistingId | src/feature/footer-background-fix/footer-background-fix.js:83-85 | a different existing id is overwritten |
| FooterBackgroundFix.Initialize | src/feature/footer-background-fix/footer-background-fix.js:37-44 | a resolved footer gets the id "tes-worklog-footer"; the flag is set unless the lookup never settles |
| FooterBackgroundFix.Deregister | src/feature/footer-background-fix/footer-background-fix.js:49-56 | a resolved footer loses its id attribute entirely; the flag is cleared unless the lookup never settles |
| FooterBackgroundFix.PreviousIdNotRestored | src/feature/footer-background-fix/footer-background-fix.js:37-56 | initializing and then deregistering does not restore an id the footer had before |

Several functions exist twice in the repository with the same body, and one
member models both copies:

- `CollectionService.GroupToMapIsReference` also covers `groupToMap` in
  src/feature/projects-time/projects-time.js:226-232.
- `GroupingService.ExtractGroupingKeyAsWritten` also covers
  `extractGroupingKey` in src/feature/projects-time/projects-time.js:275-288;
  `ProjectsTime.GroupLogLinesByGroupKey` groups with it.
- `HtmlHelper.ResolveElement` also covers `resolveElement` in
  src/content-scripts/project-autoselect.js:133-151.
- `LegacyContentScripts.HandleFooterDisplay` also covers the unmarked script
  content-scripts/content_script.js:5-29.
- `ProjectAutoselect.TryAutoselect` also covers the selection rule of
  src/content-scripts/project-autoselect.js:34-56.

## Left out

- Promise timing, MutationObserver scheduling and overlapping passes are left out, because they are concurrency. Each operation is one step. A lookup's outcome (found, a caught error, or a promise that never settles) and "the modification completes" are inputs.
- Regular-expression semantics are given by the engine oracle. That covers `new RegExp`, `exec`, and counting groups by executing `pattern + '|'` on the empty string.
- `localeCompare` collation is an abstract total preorder.
- Numbers are integers. NaN, fractions, signs, exponents and hexadecimal number text are left out.
- `Date`, `Date.UTC` normalisation, `toISOString` and `toLocaleDateString` are left out. That includes `isoDateToString` (projects-time-element-builder.js:404-409), which passes the month without subtracting 1.
- The API client's fetch, JWT decoding and network access, and its date formatting, are left out.
- DOM and UIkit construction are left out. That covers the `build*` markup, accordion setup, `modifyProjectTimeDetails` and `assignCustomModalClass`/`removeCustomModalClass`.
- `restoreProjectsTimeTable` is left out. It calls `htmlHelper.resolveElements`, which the helper does not define.
- The settings pages and the browser-action page are left out (checkbox wiring and the permission request).
- The logger, i18n service, i18n tables, the update script and the build configuration are left out.
- `src/content-scripts/content-script.js` is left out. It only wires listeners; its one rule is to re-run on the sync storage area.
- The resolution-timeout error is left out, because no timeout resolver exists. `resolveElement` has no timeout.
- The legacy marking script's `initTableObserver` wiring, finding the table and connecting the observer, is left out. Its effect, re-running the marking pass on table mutations, is `LegacyContentScripts.OnTableMutation`.
- The legacy scripts' header and footer lookups are assumed to succeed. With a missing element the script throws, and the model does not cover that.
- Primitive property lookups and the `__proto__` key are left out. `JsValues.Get` reads own properties of objects only.
- JSON serialisation in storage is left out: stored values are kept as they are.
- The project select's options are fixed values in document order: options added or removed by the page between mutations, `disabled` and `multiple` are left out, and the first option the lookup resolves is a separate input, not tied to the select's first option.
- `FeatureService.IsFeatureEnabled`: no feature module defines `isEnabledByDefault`, so a feature's default is an `Option`. `None` makes a nullish entry throw, which is what calling the missing method does.
- `FeatureInitializer.InitializeFeatures`: decisions are returned as values. The calls are not performed.
- `ProjectsTime.JsStringToNumber`: only blank text and decimal digits convert. Any other text gives no date, where JavaScript would give NaN or read a sign, fraction or exponent.
- `ExpandAll.ClickRowEvent`, `ExpandAll.ClickButton`, `LegacyContentScripts.ClickRowEvent` and `LegacyContentScripts.ToggleExpand` state what a click keeps, not which rows it toggles. That is stated for consistent rows by `ExpandAll.ClickMarkedRow`, `ExpandAll.ExpandAllExpandsEveryRow`, `ExpandAll.CollapseAllCollapsesEveryRow`, `LegacyContentScripts.ToggleExpandFromMore` and `LegacyContentScripts.ToggleExpandFromOther`.
- `HtmlHelper.ResolveElement`: an exception thrown by the supplier during a mutation batch counts as no element. In the browser it is an uncaught error in the observer callback, and the observer keeps running.

Where the documentation and the code disagree, the model follows the code:

- The reconciler uses plain truthiness with no default.
- The registry holds three features.
- The storage helper has no settings or listener functions.
- `resolveElement` has no timeout.
- The promise from `resolveElement` does reject when the very first supplier call throws, because the throw happens inside the promise executor.

## Findings

| source | as written | input that shows it | evidently intended | confidence | as-written member | corrected member |
|---|---|---|---|---|---|---|
| src/feature/projects-time/grouping-service.js:98 | returns `matchedResults[1]`, which is `undefined` when capture group 1 did not take part in the match; the copy at projects-time.js:287 does the same | pattern `(a)?b`, description "b" | the documented `string \| null`: null, so the line falls under "Ungrouped" instead of a separate group titled "undefined" | medium, not executed | GroupingService.ExtractGroupingKeyAsWritten, GroupingService.ExtractGroupingKeyUndefinedWitness, ProjectsTime.GroupingUndefinedWitness | GroupingService.ExtractGroupingKey, GroupingService.ExtractGroupingKeyAgreement, GroupingService.GroupByStoredRegexCorrected, ProjectsTime.GroupLogLinesByGroupKeyCorrected |
| src/feature/expand-all/expand-all.js:61-79 | `deregister` strips the row classes but keeps the click listener that `initWorklogRows` added to each row (130-131); after a re-enable each row has two listeners | enable, disable, enable the feature, then click a group row | a click toggles the row; the listener goes away with the classes | high, not executed | ExpandAll.DeregisterAsWritten, ExpandAll.ReinitializeDoublesListeners | ExpandAll.Deregister, ExpandAll.ReinitializeKeepsOneListener |
| src/feature/projects-time/grouping-service.js:46 | `getCurrentGroupingType` calls `dataStorage.getGroupTypeByProject`, and `saveCurrentGroupingType` (line 61) calls `dataStorage.saveGroupTypeForProject`; the data storage module exports neither, so both calls throw | any call of `groupLogLinesByGroupKey` in this module | the stored type is read back and a saved type is persisted | high, not executed | GroupingService.GetCurrentGroupingTypeAsWritten, GroupingService.SaveCurrentGroupingTypeAsWritten, GroupingService.GroupingTypeAccessAlwaysFails, GroupingService.GroupLogLinesByGroupKeyAsWritten, GroupingService.GroupLogLinesByGroupKeyAlwaysFails | GroupingService.GetCurrentGroupingType, GroupingService.SaveCurrentGroupingType, GroupingService.SaveThenGetGroupingType, GroupingService.GroupLogLinesByGroupKey |
