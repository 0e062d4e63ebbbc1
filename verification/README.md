# nuclear_maps: pager and map-marker model

A Dafny model of the two pieces of sequential logic in the nuclear detonation map viewer:

- the **pager** of the application shell (`src/App.tsx`): a zero-based page index over the
  loaded detonation records, a fixed page size of 10000, the window of records shown
  (`records.slice(p*s, p*s+s)`), the Previous / Next buttons and the "Page p of c" label;
- the **map markers** component (`src/components/MapMarkers/MapMarkers.tsx`): the registry
  from key string to live marker that the marker ref callback `setMarkerRef` maintains, the
  clusterer that is cleared and refilled with the registry's markers after every change, the
  single selected record with its detail popup, and the fallback labels for unnamed records.

Everything is a pure function over immutable values. Modules:

| file | module | contents |
|---|---|---|
| `wrappers.dfy` | `Wrappers` | `Option`, standing for `null` / `undefined` |
| `decimal.dfy` | `Decimal` | decimal text of integers as JavaScript renders those below 10^21 in magnitude, and its inverse parser |
| `detonations.dfy` | `Detonations` | the detonation record, JavaScript truthiness of its optional fields, `a \|\| b` fallback, the id key string |
| `pager.dfy` | `Pager` | page count, slice, Previous / Next, label, click sequences, page concatenation |
| `marker_registry.dfy` | `MarkerRegistry` | registry, `setMarkerRef`, clusterer clear / add / sync, mounting and unmounting |
| `selection.dfy` | `Selection` | marker title, selection, popup visibility, popup contents |
| `map_view.dfy` | `MapView` | the pager's window mounted as markers and handed to the clusterer |

Modelling decisions:

- `Math.ceil(n / s)` over naturals with `s > 0` is `(n + s - 1) / s`; `PageCount` is specified
  by the ceiling property (`c*s >= n` and `(c-1)*s < n`) rather than by that formula.
- `Array.prototype.slice` is modelled for non-negative bounds, with both bounds clamped to the
  length; the page index is never negative, so negative bounds do not arise.
- The marker registry is kept as a list of entries with distinct keys; `ToMap` is its
  key-to-marker view, and every registry property is stated on that view. The list's order is
  internal to the model: what reaches the clusterer is the multiset of registered markers
  (`ValueBag`), whatever order `Object.values` enumerates the keys in.
- The guard `markers[key]` reads a plain object, so it is truthy for an own entry and also for
  the members every object inherits from `Object.prototype` (`constructor`, `toString`, …).
  The model includes those names (`InheritedKeys`): a marker under such a name is never
  registered. Record keys are decimal numerals and never collide with them (`IdKeyNotInherited`).
- In `setMarkerRef` the guard reads the rendered `markers` snapshot while the update is
  applied to `prev`; the model treats both as the same current registry. The same holds for
  `pageNumber` in the Previous / Next handlers.
- Record ids are modelled as integers and the key is their decimal text (`id.toString()`);
  the model proves that text injective, so "key strings equal" and "ids equal" coincide.
- Truthiness: a text field is truthy when present and non-empty; a number field when present
  and non-zero.
- The clusterer is modelled only as the multiset of markers it holds, with `clearMarkers`
  emptying it and `addMarkers` adding every given marker; before the map exists there is no
  clusterer and the sync does nothing.
- The popup's yield line is `{upperYield && <row/>}`: a zero yield makes that expression the
  number 0, which React renders as the text "0". `PopupFor` models this as written; see
  "## Findings".

Next clamps to the page count, not to the last page index (`src/App.tsx:60`). With 25 records
and 10 per page, a third Next click reaches index 3, the label reads "Page 4 of 3" and the
window is empty; the model reproduces this (`Pager.OvershootPage`,
`Pager.TwentyFiveRecordsScenario`).

## Model

| member | source | states |
|---|---|---|
| Decimal.NatToString | src/App.tsx:57 | a rendered page number is a non-empty string of digits with no leading zero, one digit exactly for numbers below ten |
| Decimal.ParseNatOfNatToString | src/App.tsx:57 | the digits of a rendered natural number read back as that number |
| Decimal.IntToString | src/components/MapMarkers/MapMarkers.tsx:75 | a rendered integer is non-empty, has no space, and starts with '-' exactly when negative |
| Decimal.ParseIntOfIntToString | src/components/MapMarkers/MapMarkers.tsx:75 | the text of a rendered integer (year, id) reads back as that integer |
| Decimal.IntToStringInjective | src/components/MapMarkers/MapMarkers.tsx:81 | two integers render to the same text if and only if they are equal |
| Detonations.IdKey | src/components/MapMarkers/MapMarkers.tsx:86-88 | a record's key string reads back as its id |
| Detonations.IdKeyMatchesIff | src/components/MapMarkers/MapMarkers.tsx:81 | two records' key strings are equal if and only if their ids are equal |
| Pager.PageCount | src/App.tsx:57 | the page count is the least count whose pages cover all records, and is zero exactly when there are no records |
| Pager.JsSlice | src/App.tsx:15 | `slice(start, end)` has length `max(0, min(end,n) - min(start,n))` and its i-th element is element `start + i` of the input |
| Pager.VisibleSlice | src/App.tsx:14-16 | page p's window is `records[min(p*s,n) .. min(p*s+s,n)]`, has `min(s, n - p*s)` records when `p*s < n` and none otherwise, and its i-th record is record `p*s + i` |
| Pager.Previous | src/App.tsx:53 | Previous keeps the page size, goes back exactly one page from a page above the first, and stays on page 0 from page 0 |
| Pager.Next | src/App.tsx:60 | Next keeps the page size, never exceeds the page count, advances by one below it and lands on the page count at or above it |
| Pager.LabelReadsBack | src/App.tsx:57 | the label is "Page ", the displayed page number (index + 1), " of ", the page count, and both numbers read back from it |
| Pager.RunStaysInRange | src/App.tsx:53-60 | any sequence of Previous / Next clicks keeps the page size and keeps the index between 0 and the page count |
| Pager.RunNextClicks | src/App.tsx:60 | k Next clicks from page p reach page `min(p + k, page count)` |
| Pager.NextIdempotentAtBound | src/App.tsx:60 | at the page count, Next leaves the state unchanged |
| Pager.OvershootPage | src/App.tsx:57-60 | Next alone reaches index equal to the page count, where the window is empty and the label reads "Page c+1 of c" |
| Pager.PagesArePrefix | src/App.tsx:14-16 | the windows of pages 0 .. k-1 laid end to end are the first `min(k*s, n)` records in order |
| Pager.PagesCoverRecords | src/App.tsx:14-16 | the windows of pages 0 .. c-1, c the page count, concatenate back to the whole record sequence |
| Pager.EmptyLabel | src/App.tsx:11-12 | the pager starts at page 0 with page size 10000, and with no records the label reads "Page 1 of 0" |
| Pager.TwentyFiveRecordsScenario | src/App.tsx:53-60 | with 25 records and 10 per page: "Page 1 of 3" with 10 rows; two Next clicks give "Page 3 of 3" with 5 rows; a third gives "Page 4 of 3" with none; a fourth stays there |
| MarkerRegistry.ToMapKeys | src/components/MapMarkers/MapMarkers.tsx:10 | (representation lemma) the registry's keys are exactly the keys of its entries |
| MarkerRegistry.ToMapSize | src/components/MapMarkers/MapMarkers.tsx:10 | (representation lemma) a registry with distinct keys has one key per entry |
| MarkerRegistry.ToMapLookup | src/components/MapMarkers/MapMarkers.tsx:10 | (representation lemma) every entry is found in the registry under its own key |
| MarkerRegistry.RemoveKeyKeeps | src/components/MapMarkers/MapMarkers.tsx:67-68 | deleting a key keeps exactly the entries under other keys |
| MarkerRegistry.RemoveKeyCorrect | src/components/MapMarkers/MapMarkers.tsx:67-69 | deleting a key removes exactly that key from the registry and keeps the keys distinct |
| MarkerRegistry.RemoveAbsentKey | src/components/MapMarkers/MapMarkers.tsx:67-68 | deleting a key with no own entry leaves the registry as it was |
| MarkerRegistry.AppendFresh | src/components/MapMarkers/MapMarkers.tsx:65 | (representation lemma) adding a marker under a new key keeps the keys distinct and maps that key to the marker |
| MarkerRegistry.SetMarkerRef | src/components/MapMarkers/MapMarkers.tsx:59-72 | keys stay distinct; when `markers[key]` is truthy (own entry or inherited member) a marker changes nothing, and when it is falsy a null changes nothing; a marker for a key that is neither maps the key to it; a null removes the key's own entry |
| MarkerRegistry.SetPresentIsNoOp | src/components/MapMarkers/MapMarkers.tsx:60 | a marker for an already registered key changes nothing |
| MarkerRegistry.ClearAbsentIsNoOp | src/components/MapMarkers/MapMarkers.tsx:61 | a null for a key with no own entry changes nothing, including an inherited member's name, where the `delete` finds no own property |
| MarkerRegistry.SetInheritedKeyIsNoOp | src/components/MapMarkers/MapMarkers.tsx:60 | a marker under the name of a member inherited from `Object.prototype` is never registered, because the guard reads the inherited member as truthy |
| MarkerRegistry.SetNewKeyAddsOnlyIt | src/components/MapMarkers/MapMarkers.tsx:63-65 | a marker for a key that is neither registered nor an inherited member's name registers it under that key, and every other key and its marker are unchanged |
| MarkerRegistry.ClearPresentRemovesOnlyIt | src/components/MapMarkers/MapMarkers.tsx:66-69 | a null for a registered key removes exactly that key, and every other key and its marker are unchanged |
| MarkerRegistry.Sync | src/components/MapMarkers/MapMarkers.tsx:54-57 | the sync produces a clusterer exactly when one exists |
| MarkerRegistry.ValueBagCounts | src/components/MapMarkers/MapMarkers.tsx:56 | `Object.values(markers)` holds each marker once per key registered to it |
| MarkerRegistry.SyncHoldsRegistry | src/components/MapMarkers/MapMarkers.tsx:54-57 | after a sync the clusterer's collection equals the registry's values as a multiset: each marker held once per key registered to it, one marker per key in all |
| MarkerRegistry.SyncHeldIffRegistered | src/components/MapMarkers/MapMarkers.tsx:54-57 | after a sync the clusterer holds a marker exactly when some key is registered to it |
| MarkerRegistry.SyncIdempotent | src/components/MapMarkers/MapMarkers.tsx:54-57 | syncing twice on an unchanged registry gives the same clusterer as syncing once |
| MarkerRegistry.ApplyRefs | src/components/MapMarkers/MapMarkers.tsx:88 | any sequence of ref callbacks keeps the registry's keys distinct |
| MarkerRegistry.MountAppends | src/components/MapMarkers/MapMarkers.tsx:85-88 | mounting markers under distinct fresh keys registers each under its key, keeps every earlier entry, adds no other key, and adds exactly those markers to the registry's values |
| MarkerRegistry.RemoveFirstKey | src/components/MapMarkers/MapMarkers.tsx:67-69 | (representation lemma) deleting the first entry's key drops exactly the first entry |
| MarkerRegistry.UnmountEmpties | src/components/MapMarkers/MapMarkers.tsx:85-88 | a null callback for every registered key empties the registry |
| Selection.DisplayName | src/components/MapMarkers/MapMarkers.tsx:75 | the title's name is the record's name when it is non-empty and 'Unnamed' otherwise, never empty |
| Selection.OverviewTitleLayout | src/components/MapMarkers/MapMarkers.tsx:74-76 | a marker title is, at fixed positions, the display name, " - ", the responsible party, " - " and the year's text |
| Selection.OverviewTitleReadsBack | src/components/MapMarkers/MapMarkers.tsx:74-76 | a marker title begins with the display name and " - ", and its last word reads back as the year |
| Selection.JoinedTitleParts | src/components/MapMarkers/MapMarkers.tsx:75 | in three parts joined by " - ", each part and separator sits at its place, and a space-free last part is the last word |
| Selection.ShownPopups | src/components/MapMarkers/MapMarkers.tsx:80-81 | a popup is shown for a visible record if and only if its key string equals the selected record's |
| Selection.ShownPopupsMatchId | src/components/MapMarkers/MapMarkers.tsx:81 | a popup is shown for a record if and only if it is visible and has the selected record's id |
| Selection.AtMostOnePopup | src/components/MapMarkers/MapMarkers.tsx:99 | among visible records with distinct ids at most one popup is shown |
| Selection.NoPopupWithoutMatch | src/components/MapMarkers/MapMarkers.tsx:81 | when no visible record has the selected id (nothing selected, or the selection paged out of view) no popup is shown |
| Selection.ClickShowsOnlyThatPopup | src/components/MapMarkers/MapMarkers.tsx:91 | after clicking a visible marker, among distinct ids, exactly that record's popup is shown |
| Selection.CloseShowsNoPopup | src/components/MapMarkers/MapMarkers.tsx:102 | after the close control no popup is shown |
| Selection.PopupFor | src/components/MapMarkers/MapMarkers.tsx:104-121 | the popup heading is the name or 'Unnamed Detonation', the country is the responsible party, the year text reads back as the year, and after it comes the yield row exactly when the upper yield is truthy, nothing when it is absent, and a bare text exactly when it is zero |
| Selection.ZeroYieldShowsStrayZero | src/components/MapMarkers/MapMarkers.tsx:117 | a record with a zero upper yield shows the text "0" where the yield row would be |
| Selection.IntendedPopupFor | src/components/MapMarkers/MapMarkers.tsx:104-121 | the popup as evidently intended never shows a bare text, shows the yield row exactly when the yield is truthy, and otherwise matches the popup as written |
| Selection.IntendedDiffersOnlyAtZero | src/components/MapMarkers/MapMarkers.tsx:117 | the intended and the as-written popups agree exactly on records whose upper yield is not zero |
| MapView.DistinctMarkerKeys | src/components/MapMarkers/MapMarkers.tsx:86-88 | records with distinct ids get distinct marker key strings |
| MapView.IdKeyNotInherited | src/components/MapMarkers/MapMarkers.tsx:88 | a record's key string is never the name of a member inherited from `Object.prototype` |
| MapView.MountRecords | src/components/MapMarkers/MapMarkers.tsx:80-88 | mounting one marker per record (distinct ids) into an empty registry registers exactly the records' key strings, each record's marker under its key, and the sync then holds exactly the multiset of those markers |
| MapView.MountVisibleSlice | src/App.tsx:45 | the map is given page p's window: mounting its markers registers exactly the window's key strings, the window's i-th record (record `p*s + i`) under marker i, and the clusterer then holds exactly the multiset of those markers |

## Findings

| source | as written | input that shows it | evidently intended | confidence | as-written member | corrected member |
|---|---|---|---|---|---|---|
| src/components/MapMarkers/MapMarkers.tsx:117 | `{pointOfInterest.upperYield && (<p>…Yield…</p>)}` evaluates to the number 0 for a zero yield, and React renders it as the text "0" | a record with `upperYield` equal to 0 is selected | no yield line at all unless the yield is truthy | not executed; the rendering of `0 && …` follows React's documented treatment of numbers as text | Selection.ZeroYieldShowsStrayZero | Selection.IntendedPopupFor |

## Left out

- Data fetch, JSON parsing and the `alert` on failure (`src/App.tsx:19-28`): network I/O with one catch-all handler. The model takes the record sequence as a parameter; an empty sequence stands for "not loaded yet" or "fetch failed".
- Map rendering (`APIProvider`, `Map`, `AdvancedMarker`, `Pin`, `InfoWindow`): foreign UI components. A marker object is an opaque type parameter.
- Clusterer construction and the cluster renderer (`src/components/MapMarkers/MapMarkers.tsx:15-51`) and the `SuperClusterAlgorithm` grouping: third-party code that is not part of this model. The clusterer is only the collection of markers it holds. If the map becomes available after markers were registered, the created clusterer stays empty until the registry next changes; the model's `Sync` takes the clusterer as it is at the time and does not model effect ordering.
- Coordinates in the popup (`toFixed(0)`) and the table (`src/App.tsx:79`): floating-point formatting. Latitude and longitude are carried as `real` and never rendered.
- The table rows (`src/App.tsx:75-82`): a direct rendering of the window's fields, with row keys from `crypto.randomUUID()`, which is nondeterministic.
- React's asynchronous state batching: each handler sees the state left by the previous one. With an inline ref callback React calls the old ref with null and the new one with the marker on every re-render; that interleaving is not modelled, only sequences of callbacks applied one after another (`ApplyRefs`).
- The order in which `Object.values(markers)` lists the markers (array-index keys, such as the numerals of non-negative ids below 2^32−1, first in ascending numeric order, then every other key, negative id numerals included, in insertion order): the clusterer is cleared and refilled with the full set each time, so the model hands it the multiset of registered markers and promises nothing about order.
- The clusterer's `addMarkers` is third-party code that is not part of this model; the model takes it to add every given marker, and the sync only ever adds to an emptied clusterer.
- Decimal.IntToString: JavaScript renders integers of magnitude 10^21 and above in exponent notation, and has no exact integers above 2^53; the model renders every integer in plain digits. Years and ids are far below both bounds.
- Decimal.NatToString: the same bound applies; the digits it produces are JavaScript's rendering only below 10^21.
- Selection.PopupFor: a NaN upper yield is falsy in JavaScript and would be rendered as the text "NaN"; the model's yields are reals, which have no NaN.
- `src/dataModels/nuclearDetonation.ts` declares the record shape only; the record type the components import carries an `id` field and is not part of this model, so `id` is added to the record as an integer.
