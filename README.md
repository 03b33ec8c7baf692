# EmberCrossfilter, modelled in Dafny

EmberCrossfilter is an Ember mixin. It turns a controller's `content` into a
crossfilter and keeps `content` equal to the records that pass every
configured filter. This project models two parts of it and proves properties
of the model:

- **The filter-state engine** (`packages/ember-crossfilter/ember-crossfilter.js`).
  - Module `Crossfilter`, class `Controller`: the controller's state and its actions, with the faults the source can stop at (the exceptions under "## Left out" are not modelled).
  - Module `BitmaskEncoder`: the bitmask encoder behind the `filterOr`/`filterAnd` filters.
  - Module `Filters`: the per-entry state machine of `addFilter`/`removeFilter`/`clearAllFilters`/`isActiveFilter`, and the predicates installed on the dimensions.
  - Module `Query`: the recomputation of `content` (`_applyContentChanges`) and `top`/`bottom`.
  - Module `Sorting`: `_sortedContent`.
  - Helper modules: `Bits32` (32-bit masks as sets of bit positions), `Keys` (scalar values, records and the key order), `Seqs` (the array methods the engine uses) and `Wrappers`.
- **The undo/redo history of the example `Ember.Memento` mixin** (`example/memento.js`).
  - Module `History`: class `Memento` holds the history list, its cursor and the `_isUndo` guard.
  - Its methods are proved against transition functions on a `Timeline` value. Lemmas about those functions state what the history promises.

Modelling choices:

- **Masks.** A 32-bit mask is the set of its one bits. `|`, `&` and `^` are union, intersection and symmetric difference. `1 << i` is bit `i % 32`, as JavaScript masks the shift count. An unmapped value's bit (`undefined`) is the empty mask.
- **Dimensions.** A dimension is a key accessor plus the one filter currently applied to it. The accessor is an attribute (null when missing) or the mask cached on each record by `_createFilterBoolean`. The primary-key dimension is the list `excluded` of deleted primary keys.
- **Keys.** Keys are compared by one total order: null < booleans < numbers < strings.
- **Range bounds.** Whether a range contains its upper bound is a constructor parameter (`upperInclusive`), because the crossfilter library decides it.
- **Faults.** Each action returns the fault it stops at: `NotBuilt` for an undefined crossfilter or dimension, `UnknownFilter` for an undefined `filterMap` entry, the failed `Ember.assert`s, and `NotAFunction`. The state left at that point is stated in full.
- **Boolean method spellings.** The engine recognises boolean filters by `method === 'filterOr' | 'filterAnd'` (ember-crossfilter.js:256-267). The test configuration spells them `method: 'filterInArray', boolean: 'or' | 'and'` (tests/spec.js:27-28). `Filters.ParseMethod` reads both spellings as the same boolean mode, as the tests expect. Read literally, the engine would treat a `filterInArray` entry as a plain filter, and `_updateContent` would call a crossfilter method of that name that does not exist.
- **Bugs found.** Three places in the source do something other than what is evidently intended (see "## Findings"). Each one is modelled as written by its own member. `Controller` uses the corrected behaviour.

## Model

Paths are relative to the repository root. `ember-crossfilter.js` means `packages/ember-crossfilter/ember-crossfilter.js`.

| member | source | states |
|---|---|---|
| Bits32.Bit | packages/ember-crossfilter/ember-crossfilter.js:645 | `1 << i` is one non-zero bit below 32 |
| Bits32.BitCollision | packages/ember-crossfilter/ember-crossfilter.js:645 | the 33rd value's bit `1 << 32` is the first value's bit again |
| Bits32.XorUndoesOr | packages/ember-crossfilter/ember-crossfilter.js:352-353 | XOR-ing out bits that were OR-ed into a mask without them gives the mask back |
| Bits32.XorClears | packages/ember-crossfilter/ember-crossfilter.js:352-353 | `value ^= bit` after `value & bit` was non-zero removes exactly that bit |
| Seqs.UniqProps | packages/ember-crossfilter/ember-crossfilter.js:295 | `uniq()` has no duplicates and holds exactly the elements of its input |
| Seqs.UniqOfNoDup | packages/ember-crossfilter/ember-crossfilter.js:295 | `uniq()` leaves a duplicate-free list unchanged |
| Seqs.RemoveAllMembers | packages/ember-crossfilter/ember-crossfilter.js:345 | `removeObject(v)` keeps exactly the elements other than `v` |
| Seqs.RemoveAllNoDup | packages/ember-crossfilter/ember-crossfilter.js:345-346 | removing a value from a duplicate-free list keeps it duplicate-free |
| Seqs.IndexOf | packages/ember-crossfilter/ember-crossfilter.js:359 | `indexOf` is -1 exactly when the element is absent, else its first index |
| Seqs.Splice1 | packages/ember-crossfilter/ember-crossfilter.js:360 | `splice(i, 1)` drops index `i` when in range, the last element for -1, nothing on an empty list |
| Seqs.ReverseAt | packages/ember-crossfilter/ember-crossfilter.js:738-741 | position `i` of `reverse()` holds position `n - 1 - i` |
| Seqs.ReverseMultiset | packages/ember-crossfilter/ember-crossfilter.js:738-741 | `reverse()` is a permutation |
| Seqs.ReverseReverse | packages/ember-crossfilter/ember-crossfilter.js:738-741 | reversing twice gives the input back |
| Keys.KeyLeTotal | packages/ember-crossfilter/ember-crossfilter.js:721-736 | any two keys are comparable in the key order |
| Keys.KeyLeTrans | packages/ember-crossfilter/ember-crossfilter.js:721-736 | the key order is transitive |
| Keys.KeyLeAntisym | packages/ember-crossfilter/ember-crossfilter.js:721-736 | the key order is antisymmetric |
| Sorting.SortBy | packages/ember-crossfilter/ember-crossfilter.js:721-736 | definition: the sort by an accessor that stands in for crossfilter's; Sorting.SortByProps states it is an ascending permutation |
| Sorting.SortedContent | packages/ember-crossfilter/ember-crossfilter.js:718-745 | definition: `_sortedContent`; Sorting.SortedContentPermutes, Sorting.SortedContentOrder and Sorting.DescendingIsReversedAscending state its properties |
| Sorting.SortByProps | packages/ember-crossfilter/ember-crossfilter.js:721-736 | sorting by an accessor gives an ascending permutation of the input |
| Sorting.SortedContentPermutes | packages/ember-crossfilter/ember-crossfilter.js:718-745 | `_sortedContent` only reorders the records |
| Sorting.SortedContentOrder | packages/ember-crossfilter/ember-crossfilter.js:718-745 | `_sortedContent` is ascending by the property, descending when `isAscending` is false |
| Sorting.DescendingIsReversedAscending | packages/ember-crossfilter/ember-crossfilter.js:738-741 | descending output is exactly the ascending output reversed; this holds by definition, since `SortedContent` reverses the ascending sort as js:738-741 does |
| Sorting.ReverseSortedDesc | packages/ember-crossfilter/ember-crossfilter.js:738-741 | reversing an ascending list gives a descending one |
| Sorting.Greatest | packages/ember-crossfilter/ember-crossfilter.js:413 | `top(…)[0]` is a member of greatest key |
| Sorting.Least | packages/ember-crossfilter/ember-crossfilter.js:413 | `bottom(…)[0]` is a member of least key |
| BitmaskEncoder.Flatten | packages/ember-crossfilter/ember-crossfilter.js:628 | definition: `[].concat.apply([], mapProperty(property))`; Flatten's coverage is BitmaskEncoder.FlattenCovers |
| BitmaskEncoder.Values | packages/ember-crossfilter/ember-crossfilter.js:628-629 | definition: the `uniq()` of the flattened values, in first-seen order; see Seqs.UniqProps |
| BitmaskEncoder.PropertiesMap | packages/ember-crossfilter/ember-crossfilter.js:636-650 | definition: `_mapProperties`; BitmaskEncoder.PropertiesMapKeys, PropertiesMapBits and PropertiesMapSingleBits state its properties |
| BitmaskEncoder.RecordMask | packages/ember-crossfilter/ember-crossfilter.js:677-691 | definition: a record's cached mask; BitmaskEncoder.RecordMaskMembership and RecordMaskIsOr state its meaning |
| BitmaskEncoder.EncodingOf | packages/ember-crossfilter/ember-crossfilter.js:622-699 | definition: what `_createFilterBoolean` computes; BitmaskEncoder.CreateFilterBoolean is proved equal to it, and BitmaskEncoder.EncodingCovers states its coverage |
| BitmaskEncoder.FlattenCovers | packages/ember-crossfilter/ember-crossfilter.js:628-629 | every entry of every record's list is among the flattened values |
| BitmaskEncoder.PropertiesMapKeys | packages/ember-crossfilter/ember-crossfilter.js:636-650 | exactly the distinct values get a bit |
| BitmaskEncoder.PropertiesMapBits | packages/ember-crossfilter/ember-crossfilter.js:645-649 | the i-th distinct value, in first-seen order, gets bit `1 << i` |
| BitmaskEncoder.PropertiesMapSingleBits | packages/ember-crossfilter/ember-crossfilter.js:645-649 | with at most 32 values every bit is non-zero and the bits are pairwise disjoint |
| BitmaskEncoder.TotalBitwiseIsOr | packages/ember-crossfilter/ember-crossfilter.js:646 | with at most 32 values `_totalBitwise` (an XOR) equals the OR of the bits and holds exactly bits `0..n-1` |
| BitmaskEncoder.TotalBitwiseOverflow | packages/ember-crossfilter/ember-crossfilter.js:645-646 | with 33 values the XOR total loses bit 0 while the OR keeps it |
| BitmaskEncoder.MasksOf | packages/ember-crossfilter/ember-crossfilter.js:661-699 | every record gets a cached mask, namely the mask of its own list |
| BitmaskEncoder.AssignBits | packages/ember-crossfilter/ember-crossfilter.js:636-650 | the counter loop builds `_mapProperties` and `_totalBitwise` as the bit-assignment functions define them |
| BitmaskEncoder.RecordBitwise | packages/ember-crossfilter/ember-crossfilter.js:677-691 | the inner loop, running one index past the end, XORs in the bits of the truthy entries only |
| BitmaskEncoder.CreateFilterBoolean | packages/ember-crossfilter/ember-crossfilter.js:622-708 | `_createFilterBoolean` computes the encoding of the property over the content |
| BitmaskEncoder.RecordMaskMembership | packages/ember-crossfilter/ember-crossfilter.js:677-691 | a record's mask meets a truthy known value's bit exactly when the record lists the value, and never meets a falsy value's bit |
| BitmaskEncoder.RecordMaskIsOr | packages/ember-crossfilter/ember-crossfilter.js:689 | for distinct known truthy values the XOR mask equals the OR mask |
| BitmaskEncoder.OrMaskMeets | packages/ember-crossfilter/ember-crossfilter.js:803 | a selection mask meets a mask exactly when one selected value's bit does |
| BitmaskEncoder.EncodingCovers | packages/ember-crossfilter/ember-crossfilter.js:628-699 | every list entry of every record has a bit, every record a mask, and the bits are disjoint when there are at most 32 |
| Filters.ParseMethod | packages/ember-crossfilter/ember-crossfilter.js:256-267 | definition: a `filterMap` entry's `method` (and `boolean`) read as a filter kind; Filters.BooleanTypeOfParsed states how the spellings map |
| Filters.IsBooleanFilter | packages/ember-crossfilter/ember-crossfilter.js:256-258 | definition: `isBooleanFilter`; see Filters.BooleanTypeOfParsed |
| Filters.GetBooleanType | packages/ember-crossfilter/ember-crossfilter.js:265-267 | definition: `getBooleanType`; see Filters.BooleanTypeOfParsed |
| Filters.AddStep | packages/ember-crossfilter/ember-crossfilter.js:276-318 | definition: `addFilter` on one entry; Filters.ActiveAfterAdd, OrAddTracks, AndAddTracks, AndAddSelectedDuplicatesBit and NonBooleanActive state its properties |
| Filters.RemoveStep | packages/ember-crossfilter/ember-crossfilter.js:327-369 | definition: `removeFilter` on one entry; Filters.ActiveAfterRemove, OrRemoveTracks, AndRemoveTracks, AndRemoveUnselectedDropsLast and AndRemoveBeforeAddFails state its properties |
| Filters.IsActive | packages/ember-crossfilter/ember-crossfilter.js:226-249 | definition: `isActiveFilter` on one entry; Filters.OrIsActive and Filters.AndIsActive state it is membership in `active` |
| Filters.Admits | packages/ember-crossfilter/ember-crossfilter.js:757-836 | definition: the predicate a dimension's filter applies; Filters.OrAdmits, Filters.AndAdmits, Filters.BoundOpensSide and Filters.RemovedFilterReleases state its meaning |
| Filters.Install | packages/ember-crossfilter/ember-crossfilter.js:470-501 | definition: the filter `_updateContent` installs for an entry; Filters.RangePairAgree and Filters.RemovedFilterReleases state its properties |
| Filters.BooleanTypeOfParsed | packages/ember-crossfilter/ember-crossfilter.js:256-267 | `isBooleanFilter` holds exactly for the boolean spellings, and `getBooleanType` is OR exactly for the OR spellings |
| Filters.Initial | packages/ember-crossfilter/ember-crossfilter.js:595-603 | definition: the state `_createDimensions` sets up, `active` false (an empty list for a boolean entry) and `value` null (mask 0); its properties are stated by Filters.InitialInactive, Filters.OrInitialTracks and Filters.AndInitialTracks |
| Filters.InitialInactive | packages/ember-crossfilter/ember-crossfilter.js:595-603 | from the initial state nothing is active, and `addFilter` succeeds and makes its value active (an OR value only when it has a bit) |
| Filters.ClearedAsWritten | packages/ember-crossfilter/ember-crossfilter.js:63-69 | definition: the entry state `clearAllFilters` leaves as written; Filters.ClearedAsWrittenBreaksBoolean states what goes wrong with it |
| Filters.ClearedAsWrittenBreaksBoolean | packages/ember-crossfilter/ember-crossfilter.js:63 | after that, `addFilter`/`removeFilter` on a boolean entry fail, while from the initial state they succeed |
| Filters.ActiveAfterAdd | packages/ember-crossfilter/ember-crossfilter.js:294-295 | `addFilter` appends a new value to `active` and leaves an already selected one in place |
| Filters.ActiveAfterRemove | packages/ember-crossfilter/ember-crossfilter.js:345-346 | `removeFilter` takes exactly that value out of `active`, keeping the rest in order and duplicate-free |
| Filters.OrMaskRemoveAll | packages/ember-crossfilter/ember-crossfilter.js:352-353 | with disjoint bits, deselecting a value takes its bit, and nothing else, out of the OR |
| Filters.OrMaskEmpty | packages/ember-crossfilter/ember-crossfilter.js:798-800 | the OR of a selection is 0 exactly when no selected value has a bit |
| Filters.OrInitialTracks | packages/ember-crossfilter/ember-crossfilter.js:654 | initially an OR entry's mask is the OR of its (empty) selection |
| Filters.OrAddTracks | packages/ember-crossfilter/ember-crossfilter.js:297-301 | OR `addFilter` keeps `value` equal to the OR of the selected values' bits |
| Filters.OrRemoveTracks | packages/ember-crossfilter/ember-crossfilter.js:348-355 | OR `removeFilter` keeps `value` equal to the OR of the selected values' bits |
| Filters.OrAddRemoveRestores | packages/ember-crossfilter/ember-crossfilter.js:348-355 | selecting an unselected value and removing it again restores the OR entry exactly |
| Filters.OrIsActive | packages/ember-crossfilter/ember-crossfilter.js:238-239 | OR `isActiveFilter` (`value & bit`) is exactly membership in `active` |
| Filters.BitsOf | packages/ember-crossfilter/ember-crossfilter.js:310 | the AND bit list holds, position by position, the bits of the values |
| Filters.AndInitialTracks | packages/ember-crossfilter/ember-crossfilter.js:654 | initially an AND entry's value is 0 with nothing selected |
| Filters.AndAddTracks | packages/ember-crossfilter/ember-crossfilter.js:304-311 | AND `addFilter` of a new value keeps `value` the list of the selected values' bits, in order |
| Filters.AndRemoveTracks | packages/ember-crossfilter/ember-crossfilter.js:356-361 | AND `removeFilter` of a selected known value keeps `value` the list of the selected values' bits |
| Filters.AndRemoveAt | packages/ember-crossfilter/ember-crossfilter.js:359-360 | the splice at the found index removes that value's bit and its entry together |
| Filters.BitsOfIndex | packages/ember-crossfilter/ember-crossfilter.js:359 | `indexOf` of a known selected value's bit finds that value's position |
| Filters.AndIsActive | packages/ember-crossfilter/ember-crossfilter.js:242 | AND `isActiveFilter` (`inArray`) is exactly membership in `active` |
| Filters.AndRemoveUnselectedDropsLast | packages/ember-crossfilter/ember-crossfilter.js:359-360 | removing an unselected value finds index -1 and drops the last bit instead |
| Filters.AndAddSelectedDuplicatesBit | packages/ember-crossfilter/ember-crossfilter.js:294-310 | selecting an already selected value leaves `active` alone but pushes its bit again |
| Filters.AndRemoveBeforeAddFails | packages/ember-crossfilter/ember-crossfilter.js:359 | an AND `removeFilter` before any add fails on `(0).indexOf` after `active` was updated |
| Filters.NonBooleanActive | packages/ember-crossfilter/ember-crossfilter.js:285-286 | a plain `addFilter` makes the entry active with the value; a plain `removeFilter` sets it to `false` and inactive |
| Filters.OrAdmits | packages/ember-crossfilter/ember-crossfilter.js:794-805 | a record passes an OR filter iff nothing known is selected or it lists a selected truthy value |
| Filters.AndAdmits | packages/ember-crossfilter/ember-crossfilter.js:759-788 | a record passes an AND filter iff it lists every selected value, each truthy |
| Filters.FirstOccurrence | packages/ember-crossfilter/ember-crossfilter.js:848 | the index `String.replace` rewrites is the first occurrence of the pattern, or -1 when there is none |
| Filters.Bound | packages/ember-crossfilter/ember-crossfilter.js:855 | definition: `value || -Infinity` (`|| Infinity` at js:876); Filters.BoundOpensSide and Filters.RangePairAgree state its meaning |
| Filters.BoundOpensSide | packages/ember-crossfilter/ember-crossfilter.js:846-877 | an end of the installed range admits every key exactly when that end's value is falsy; a truthy value always leaves some key outside |
| Filters.RangePairAgree | packages/ember-crossfilter/ember-crossfilter.js:846-877 | a `min…`/`max…` pair installs the same interval from either side, each keeping the other's bound |
| Filters.RemovedFilterReleases | packages/ember-crossfilter/ember-crossfilter.js:336-337 | after a plain `removeFilter`, an exact or callback filter admits every record and a range drops its own bound |
| Query.DeletedIds | packages/ember-crossfilter/ember-crossfilter.js:514-520 | definition: the primary keys of the deleted records (the corrected reading); Query.DeletedIdsMembers states its members |
| Query.Survivors | packages/ember-crossfilter/ember-crossfilter.js:524 | definition: the records `_dimensionDefault.top(Infinity)` returns; Query.SurvivorsMembers states its members |
| Query.Recompute | packages/ember-crossfilter/ember-crossfilter.js:510-532 | definition: the new `content` of `_applyContentChanges`; Query.RecomputePermutes, RecomputeMembers and RecomputeOrder state its properties |
| Query.DeletedIdsAsWritten | packages/ember-crossfilter/ember-crossfilter.js:514-520 | definition: the deleted ids as written, read from `id`; Query.DeletedIdsAsWrittenKeepsDeleted exhibits the discrepancy |
| Query.DeletedIdsMembers | packages/ember-crossfilter/ember-crossfilter.js:514-520 | a key is a deleted id exactly when a deleted record carries it as its primary key |
| Query.SurvivorsMembers | packages/ember-crossfilter/ember-crossfilter.js:524 | the survivors are exactly the records passing every dimension whose key is not excluded |
| Query.RecomputePermutes | packages/ember-crossfilter/ember-crossfilter.js:510-532 | the recomputed content is a permutation of the survivors |
| Query.RecomputeMembers | packages/ember-crossfilter/ember-crossfilter.js:510-532 | the recomputed content holds exactly the records passing every filter whose primary key no deleted record carries |
| Query.RecomputeOrder | packages/ember-crossfilter/ember-crossfilter.js:524-529 | the recomputed content is descending by primary key, or ordered by the sort property in its direction |
| Query.Extreme | packages/ember-crossfilter/ember-crossfilter.js:413 | `top(count \|\| 1)[0]` is a survivor of greatest key (`bottom`: least), undefined when none survives or a negative count is asked for |
| Query.UnfilteredKeepsAll | packages/ember-crossfilter/ember-crossfilter.js:60 | with every dimension cleared and nothing deleted every record survives, in order |
| Query.UnfilteredPasses | packages/ember-crossfilter/ember-crossfilter.js:60 | with every dimension cleared every record passes |
| Query.UnfilteredShowsUndeleted | packages/ember-crossfilter/ember-crossfilter.js:44-74 | after clearing every filter the content is exactly the records not deleted |
| Query.DeletedIdsAsWrittenKeepsDeleted | packages/ember-crossfilter/ember-crossfilter.js:519 | with primary key `code`, a deleted `{code: 'a'}` stays in `content` as written and goes with the configured key |
| Crossfilter.SourceFor | packages/ember-crossfilter/ember-crossfilter.js:608-609 | definition: a dimension's accessor, the entry's attribute or the cached mask property that `_createFilterBoolean` renamed it to |
| Crossfilter.DimsAfter | packages/ember-crossfilter/ember-crossfilter.js:579-611 | definition: the dimensions after `_createDimensions` has visited the first k entries; Crossfilter.FoldKeys and FirstDefinerWins state its properties |
| Crossfilter.PresentMembers | packages/ember-crossfilter/ember-crossfilter.js:111-115 | the `hasOwnProperty` loop visits exactly the records the array holds |
| Crossfilter.FoldKeys | packages/ember-crossfilter/ember-crossfilter.js:582-611 | after `_createDimensions` every entry has a state, every boolean entry an encoding, every dimension name a dimension |
| Crossfilter.FirstDefinerWins | packages/ember-crossfilter/ember-crossfilter.js:554-556 | a dimension is defined by the first entry naming it; later entries do not redefine it |
| Crossfilter.DefineEntries | packages/ember-crossfilter/ember-crossfilter.js:582-611 | the `_createDimensions` loop produces the states, dimensions and encodings of the entries in declaration order |
| Crossfilter.ClearEntries | packages/ember-crossfilter/ember-crossfilter.js:49-71 | the `clearAllFilters` loop resets every entry and clears every dimension's filter, keeping its accessor |
| Crossfilter.DeleteRecordsAsWritten | packages/ember-crossfilter/ember-crossfilter.js:146-168 | definition: `deleteRecords` as written; Crossfilter.DeleteRecordsAsWrittenFailsOnRecord and Crossfilter.DeleteRecordsAsWrittenFails state its meaning |
| Crossfilter.DeleteRecordsAsWrittenFailsOnRecord | packages/ember-crossfilter/ember-crossfilter.js:146-168 | as written, `deleteRecords` fails exactly when the array holds a record to delete |
| Crossfilter.DeleteRecordsAsWrittenFails | packages/ember-crossfilter/ember-crossfilter.js:162 | as written, deleting a one-record array is a `TypeError` |
| Crossfilter.Controller.constructor | packages/ember-crossfilter/ember-crossfilter.js:208-218 | `init` with no content yet: nothing built, primary key defaulting to `id` |
| Crossfilter.Controller.SetContent | packages/ember-crossfilter/ember-crossfilter.js:212-216 | loading content builds the crossfilter exactly when it is not built and the content is non-empty |
| Crossfilter.Controller.CreateCrossfilter | packages/ember-crossfilter/ember-crossfilter.js:423-462 | builds once and only from non-empty content, then sorts when a sort property is set; otherwise changes nothing |
| Crossfilter.Controller.Build | packages/ember-crossfilter/ember-crossfilter.js:446-458 | the crossfilter holds the content, the dimensions are created, and content is sorted if a sort property is set |
| Crossfilter.Controller.CreateDimensions | packages/ember-crossfilter/ember-crossfilter.js:542-613 | every entry gets its initial state, every boolean entry its encoding, every dimension name one dimension |
| Crossfilter.Controller.ApplyContentChanges | packages/ember-crossfilter/ember-crossfilter.js:510-534 | fails before the build; otherwise excludes the deleted ids and sets content to the recomputed survivors |
| Crossfilter.Controller.UpdateContent | packages/ember-crossfilter/ember-crossfilter.js:470-501 | installs the entry's filter on its dimension only (or stops at the range/callback assertion) and recomputes content |
| Crossfilter.Controller.AddFilter | packages/ember-crossfilter/ember-crossfilter.js:276-318 | an unknown key changes nothing; otherwise the entry takes the add step and, if that succeeds, its filter is installed |
| Crossfilter.Controller.RemoveFilter | packages/ember-crossfilter/ember-crossfilter.js:327-369 | an unknown key changes nothing; otherwise the entry takes the remove step (kept on failure) and, if that succeeds, its filter is installed |
| Crossfilter.Controller.ClearAllFilters | packages/ember-crossfilter/ember-crossfilter.js:44-81 | every entry is back in its initial state, every dimension unfiltered, content recomputed; before the build nothing changes |
| Crossfilter.Controller.AddRecord | packages/ember-crossfilter/ember-crossfilter.js:89-93 | appends the record to the crossfilter and recomputes content; before the build nothing changes |
| Crossfilter.Controller.AddRecords | packages/ember-crossfilter/ember-crossfilter.js:101-126 | 0 for a non-array; otherwise adds the present entries in order and returns how many |
| Crossfilter.Controller.AddEach | packages/ember-crossfilter/ember-crossfilter.js:111-124 | the `index <= count` loop adds each present entry once, in order, and counts them |
| Crossfilter.Controller.DeleteRecord | packages/ember-crossfilter/ember-crossfilter.js:134-138 | the record joins the deleted list even when the recomputation then fails |
| Crossfilter.Controller.DeleteRecords | packages/ember-crossfilter/ember-crossfilter.js:146-168 | 0 for a non-array; otherwise deletes the present entries in order and returns the array length, holes included |
| Crossfilter.Controller.DeleteEach | packages/ember-crossfilter/ember-crossfilter.js:154-166 | the `index <= count` loop deletes each present entry once, in order; before the build it stops after the first push |
| Crossfilter.Controller.DeleteAt | packages/ember-crossfilter/ember-crossfilter.js:156-162 | one turn of that loop: a hole changes nothing, a record is deleted |
| Crossfilter.Controller.SortContent | packages/ember-crossfilter/ember-crossfilter.js:177-199 | content is replaced by its sorted copy first; then a missing `sort` object or `sortProperty` fails, else the sort settings take the new values |
| Crossfilter.Controller.TopBottom | packages/ember-crossfilter/ember-crossfilter.js:378-415 | an unknown key fails; otherwise a visible record of greatest (least) key on the entry's dimension, if any |
| Crossfilter.Controller.IsActiveFilter | packages/ember-crossfilter/ember-crossfilter.js:226-249 | an unknown key fails, a boolean entry before the build fails, a plain entry reports `active === true`, a boolean entry tests the value's bit |
| History.Past | example/memento.js:6-11 | the past is the cursor's entry and everything left of it |
| History.Future | example/memento.js:6-11 | the future is everything right of the cursor; past and future make up the list |
| History.WithoutFuture | example/memento.js:84-91 | dropping the future keeps the cursor valid |
| History.Trimmed | example/memento.js:60-82 | `clearHistory` keeps the cursor valid |
| History.AddedTo | example/memento.js:42-58 | `_addHistory` keeps the cursor valid |
| History.Back | example/memento.js:116-126 | `undo` keeps the cursor valid and the list unchanged |
| History.Forward | example/memento.js:131-142 | `redo` keeps the cursor valid and the list unchanged |
| History.WithoutFutureKeepsPast | example/memento.js:84-91 | `_clearFuture` keeps the past, removes the whole future, leaving `index + 1` entries |
| History.TrimmedKeepsLast | example/memento.js:73-81 | a positive count keeps the last `min(count, index + 1)` past entries, in order, and no future |
| History.TrimmedEdgeCases | example/memento.js:62-71 | no count empties the history with cursor -1; a negative count changes nothing |
| History.AddedWithinSize | example/memento.js:35-40 | with a positive `mementoSize` the list never grows past it |
| History.AddedIsCurrent | example/memento.js:48-56 | a new item becomes the current entry, with no future left |
| History.AddedUnboundedAppends | example/memento.js:48-54 | without a size the past is kept and the item appended |
| History.ForwardUndoesBack | example/memento.js:116-142 | undo followed by redo restores the list and the cursor |
| History.BackUndoesForward | example/memento.js:116-142 | redo followed by undo restores the list and the cursor |
| History.BackMovesOne | example/memento.js:116-126 | undo moves exactly the current entry from the past to the front of the future |
| History.Memento.constructor | example/memento.js:144-146 | `init`: an empty history with cursor -1 |
| History.Memento.UndoCount | example/memento.js:13-15 | `undoCount` is the number of past entries |
| History.Memento.RedoCount | example/memento.js:17-21 | `redoCount` is the number of future entries; the two counts add up to the length |
| History.Memento.CanUndo | example/memento.js:23-25 | `canUndo` holds exactly when there is a past entry |
| History.Memento.CanRedo | example/memento.js:27-29 | `canRedo` holds exactly when there is a future entry |
| History.Memento.ClearFuture | example/memento.js:84-91 | the list becomes the past alone, cursor unchanged |
| History.Memento.ClearHistory | example/memento.js:60-82 | the new history is the trimmed one |
| History.Memento.UpdateMemento | example/memento.js:35-40 | the history is trimmed to a positive `mementoSize`, else unchanged |
| History.Memento.SetMementoSize | example/memento.js:31-33 | setting `mementoSize` trims the history at once |
| History.Memento.AddHistory | example/memento.js:42-58 | inside an undo/redo nothing changes; otherwise the future is dropped, the item appended and the size bound applied |
| History.Memento.Undo | example/memento.js:116-126 | with a past, runs the current entry's `undo` and steps back; `_isUndo` is false afterwards |
| History.Memento.Redo | example/memento.js:131-142 | with a future, steps forward and runs that entry's `redo`; `_isUndo` is false afterwards |

## Left out

- Ember wiring is left out: `get`/`set`, observers, `notifyPropertyChange` and `Object.defineProperty` attributes. Fields are plain state. Loading content is `SetContent`, which runs what the `content.length` observer runs.
- The crossfilter library is not shown, so it is modelled abstractly. A dimension is an accessor plus its current filter. `top`/`bottom` give a record of greatest or least key. Range upper-bound inclusiveness is a parameter.
- Sorting.SortBy: a stable insertion sort stands in for crossfilter's quicksort. The model proves only what the source promises, an ascending permutation. Records with equal keys may come out of the source's quicksort in another order.
- Sorting.SortedContent: the sort and `reverse()` work in place in the source. The model works on sequences, so array identity and aliasing of `content` are not captured.
- Query.Recompute: the primary-key dimension's `top(Infinity)` order is modelled as the reverse of a stable ascending sort by primary key. Ties follow that choice.
- Timing, `$ember.debug`, `console.log` in `_topBottom` and `console.error` in `addRecords`/`deleteRecords` are left out: they have no effect on state.
- The `get` fallback of the accessor (`'get' in d`) is left out. Records are plain attribute maps, and a missing attribute reads as null.
- JavaScript loose comparison and coercion are left out: keys are null, booleans, integers and strings under one total order. Floating point, `NaN` and `Infinity` keys are left out.
- Unmapped values make XOR over `undefined` read as 0. This is modelled only through `BitOf` giving the empty mask.
- A `filterMap` iterated with `for…in` is modelled as the declaration-order list `names`.
- Two dimension names that capitalise to the same `_dimension<Name>` property, or that collide with `_dimensionDefault`, are not modelled.
- Cached masks are keyed by record value, so two equal records share one. The source caches them per object.
- A record added after the build has no cached mask and reads as null on boolean dimensions.
- `undefined` entries pushed onto `_deletedModels` are not modelled: `deleteRecord` takes a record.
- The `_deletedModels: []` literal, which the source shares across instances, is modelled as per-instance state.
- `_updateContent`'s default branch `dimension[map.method](map.value)` is modelled only for `filterExact`. Other crossfilter method names are not modelled.
- `Crossfilter.Controller.TopBottom` returns a record, not the array crossfilter returns. Only the first element of the array is used.
- `_apply<Name>` dispatch with `canInvoke` is a supplied map of predicates by entry name.
- Memento glue is left out: `init`'s observers, `_beforePropertyChange`, `_propertyChanged`, `arrayWillChange`, `arrayDidChange`, `updateProperties` and the description strings. History items are opaque values.
- History.Memento.Undo: the item's `undo`/`redo` closures are foreign code, recorded in `invoked` without their effects. A closure's property change would re-enter `_addHistory` while `_isUndo` is set. That re-entry is not modelled as a call; `AddHistory`'s `isUndo` branch states what it would do.
- History.Memento.ClearHistory: `count` and `mementoSize` are integers, and 0 stands for a missing value (both are falsy). Non-integer counts are left out.
- BitmaskEncoder.CreateFilterBoolean: only list-valued attributes are modelled, and a record without the attribute reads as an empty list. In the source `propertiesList.length` on `undefined` throws a `TypeError` (js:677). A scalar attribute such as a string would also get its own bit through `[].concat` (js:628-629), and `Record` cannot hold one under a list attribute.
- Crossfilter.Controller.CreateDimensions: the `TypeError` above is not modelled. In the source it would leave some entries without state or dimension.
- Crossfilter.Controller.Build: the `TypeError` above is not modelled. In the source `_crossfilter` is already set and the `content.length` observer removed (js:443-446), so the controller would stay half-built.
- Crossfilter.Controller.CreateCrossfilter: the assertion that `filterMap` exists (js:426) is not modelled, because the controller always has a map of entries, possibly empty.
- Filters.Admits: an exact filter for `false`, which a plain `removeFilter` installs, is taken to admit every record. The crossfilter library is not shown. The choice follows tests/spec.js:200-205, where the key is a string. For other key types, such as numbers that JavaScript compares with `false` as 0, it is an assumption. Filters.RemovedFilterReleases rests on it.

## Findings

| source | as written | input that shows it | evidently intended | confidence | as-written member | corrected member |
|---|---|---|---|---|---|---|
| packages/ember-crossfilter/ember-crossfilter.js:63 | `clearAllFilters` sets `active` to `false` for every entry, boolean ones included | a boolean entry after `clearAllFilters`, then `addFilter` on it: `false.pushObject` is a `TypeError` | a boolean entry's `active` goes back to the empty list `_createDimensions` gave it | high, not executed | Filters.ClearedAsWrittenBreaksBoolean | Crossfilter.Controller.ClearAllFilters |
| packages/ember-crossfilter/ember-crossfilter.js:162 | `deleteRecords` calls `this.deleteRecord`, but `deleteRecord` is defined inside `actions` | `deleteRecords([record])`: `this.deleteRecord` is undefined, a `TypeError` | each present entry is deleted through the `deleteRecord` action | medium (depends on Ember not copying actions onto the controller), not executed | Crossfilter.DeleteRecordsAsWrittenFails | Crossfilter.Controller.DeleteRecords |
| packages/ember-crossfilter/ember-crossfilter.js:514-520 | the `map` callback runs without a `this` argument, so `$ember.get(this, 'primaryKey')` reads the global object and the ids are read from `id` | primary key `code`, `deleteRecord({code: 'a'})`: the record stays in `content` | deleted ids are read through the controller's primary key, the key the default dimension uses | high, not executed | Query.DeletedIdsAsWrittenKeepsDeleted | Crossfilter.Controller.ApplyContentChanges |
