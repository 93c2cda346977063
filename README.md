# Germany region selection page — verified model of its selection logic

The page (`deutschland_karte_app.py`, version 10) shows the German federal
states on an interactive map. The user selects states by clicking the map or
by ticking checkboxes in two alphabetical columns, and can export a PDF that
highlights the selection. This project models the sequential logic inside
that page in Dafny and proves what it guarantees:

- **Geometry index** (`build_geometries`): each GeoJSON feature gets a name
  from a priority chain of property keys ending in `"Unbekannt"`. The records
  keep input order. The tooltip fields are the preferred keys some feature
  carries, in preference order. `state_names` is the sorted list of all
  names, repeats kept. The map view's tooltip guard keeps the tooltip fields
  the first feature carries; when it carries none, it falls back to one key
  that every feature carries.
- **Hit test**: a map click is tested against each record in list order. The
  first record that accepts the point wins. A record whose geometry call
  raises is a miss for that record only. The geometry library is not
  modelled: its three calls are functions supplied by the caller, each
  returning a truth value or raising.
- **Selection store** (`st.session_state`): a class `Session` with the
  selected names (kept sorted) and the last click. Its operations are the
  map-click toggle, "Alle auswählen" / "Alle abwählen", and the two checkbox
  columns. The last one comes with a frame property: names outside a column
  keep their membership.
- **Export strings**: the PDF title line and the download label. The label
  replaces spaces by `_` and joins the names with `_`.
- **Map style test**: which regions the map draws as selected. This is where
  the one finding below comes from.

Python's string order is lexicographic by code point. Dafny's `char` is a
Unicode scalar value, so on strings of Unicode scalar values `Order.Less` is
the same order;
`Order.LessIsFirstDifference` proves it equal to the documented rule (a proper
prefix first, otherwise the first differing code point decides). `sorted(...)`
is modelled by an insertion sort. That is sound because two non-decreasing
orderings of the same elements are equal (`Order.SortedUnique`, which uses
that `Order.Less` is asymmetric). `sorted(list(s))` of a set is modelled by a
method that inserts the members in whatever order the set yields them.
`Order.StrictlySortedUnique` shows that this order does not affect the result.

The widgets are inputs. A click arrives as its coordinates plus the geometry
calls for that point. A checkbox's returned value comes from
`widget: map<string, bool>`: a name in the map has a stored widget state,
which the checkbox returns; any other checkbox returns its `value=` default.

The page keeps no per-region values: the selection is a list of names and
nothing else. Its tooltip fields are the preferred keys found among the keys
of all features together, narrowed by the guard of lines 167-172.

## Model

| member | source | states |
|---|---|---|
| GeometryIndex.FeaturesOf | deutschland_karte_app.py:39 | `geojson.get("features", [])`: the feature list, or none when the key is absent; no contract of its own |
| GeometryIndex.PropsOf | deutschland_karte_app.py:40 | `f.get("properties") or {}`: the properties, or the empty map when absent or null; no contract of its own |
| GeometryIndex.FirstNonEmpty | deutschland_karte_app.py:41 | the `or` chain yields nothing exactly when every key's value is missing or empty; otherwise it yields the non-empty value of the first key that has one |
| GeometryIndex.ResolveName | deutschland_karte_app.py:41 | the region name is never empty; it is the first non-empty value among `name`, `GEN`, `NAME_1`, `NAME`, `id`, and `"Unbekannt"` when none has one |
| GeometryIndex.AllKeys | deutschland_karte_app.py:47 | `available` holds exactly the keys that occur in some feature's properties |
| GeometryIndex.Filter | deutschland_karte_app.py:48 | the comprehension keeps the kept keys in their original order (an order-preserving subsequence) and holds a key exactly when it is in the input and kept |
| GeometryIndex.FilterCounts | deutschland_karte_app.py:48 | every occurrence of a kept key survives, as often as it occurs in the input, and no other key survives |
| GeometryIndex.TooltipFields | deutschland_karte_app.py:46-48 | `tooltip_fields` is an order-preserving subsequence of the preferred keys, holds a preferred key exactly when some feature carries it, and is empty without features |
| GeometryIndex.NonEmpty | deutschland_karte_app.py:49 | `[n for n in names if n]` holds no empty name, keeps every non-empty name as often as it occurs, keeps their order (an order-preserving subsequence of the input), and is the identity on a list without empty names |
| GeometryIndex.BuildGeometries | deutschland_karte_app.py:36-50 | one record per input feature in input order, `properties` defaulted to `{}` and named by `ResolveName`; tooltip fields as above; `state_names` sorted, free of empty names and a permutation of the record names, duplicates kept |
| GeometryIndex.SafeTooltipFields | deutschland_karte_app.py:167-172 | no fields without features; the tooltip fields the first feature carries when there are any; failing those, at most one field, which every feature carries, and none exactly when no key is common to all features |
| Order.Less | deutschland_karte_app.py:49 | Python's `<` on `str`, the order `sorted` uses at lines 49, 198 and 225; it has no contract of its own, and the lemmas below state what it is |
| Order.LessIsFirstDifference | deutschland_karte_app.py:49 | `a < b` exactly when `a` is a proper prefix of `b` or `a` has the smaller code point at the first position where they differ |
| Order.LessIrreflexive | deutschland_karte_app.py:49 | no string is below itself |
| Order.LessTransitive | deutschland_karte_app.py:49 | the order is transitive |
| Order.LessTotal | deutschland_karte_app.py:49 | any two different strings are ordered one way or the other |
| Order.Sort | deutschland_karte_app.py:49 | `sorted` yields a non-decreasing list that is a permutation of its input |
| Order.SortedUnique | deutschland_karte_app.py:49 | two non-decreasing lists with the same elements, repetitions counted, are equal, so the insertion sort yields what `sorted` yields |
| Order.SortedList | deutschland_karte_app.py:198 | `sorted(list(sel))` is strictly increasing and holds exactly the members of the set, whatever order the set yields them in |
| Order.StrictlySortedUnique | deutschland_karte_app.py:225 | two strictly increasing lists with the same members are equal, so the sorted selection is determined by the set alone |
| HitTesting.Condition | deutschland_karte_app.py:191 | the click condition holds exactly when the prepared test returns true and then either `contains` returns true, or it returns false and `intersects` returns true; a false prepared test makes it false whatever the later calls would do; without exceptions it is the boolean `and`/`or` of the three answers |
| HitTesting.FirstHit | deutschland_karte_app.py:188-193 | there is no hit exactly when no record accepts the click; a hit is the name of an accepting record with no accepting record before it |
| HitTesting.EarliestAcceptingWins | deutschland_karte_app.py:189-192 | first match wins: an accepting record with no accepting record before it determines the hit, whatever later records answer |
| HitTesting.RaisingRecordIsSkipped | deutschland_karte_app.py:190-193 | a record whose test raises changes nothing: the hit equals the hit of the list without that record |
| HitTesting.HitTest | deutschland_karte_app.py:188-193 | the loop, with its early `break` and swallowed exceptions, returns exactly `FirstHit` |
| Selection.CheckboxValue | deutschland_karte_app.py:222 | `st.checkbox` returns the stored widget state when the key has one; only then can it differ from the `value=` default |
| Selection.Toggled | deutschland_karte_app.py:195-197 | the hit name's membership flips and every other name's membership is kept |
| Selection.ToggledTwice | deutschland_karte_app.py:195-198 | toggling the same name twice restores the original set |
| Selection.Columns | deutschland_karte_app.py:212-213 | the two column slices concatenate back to `state_names`, and the left one is as long as the right one or one longer |
| Selection.Session.constructor | deutschland_karte_app.py:147-148 | a new session has an empty selection and no recorded click |
| Selection.Session.Toggle | deutschland_karte_app.py:194-198 | the new selection is strictly sorted, so without repeats, and its members are the old members with the hit name's membership flipped |
| Selection.Session.OnMapClick | deutschland_karte_app.py:184-198 | the click is recorded; when the hit test yields a non-empty name, that name is toggled, otherwise the selection is unchanged; the selection stays sorted |
| Selection.Session.SelectAll | deutschland_karte_app.py:204-205 | the selection becomes a copy of `state_names` |
| Selection.Session.SelectNone | deutschland_karte_app.py:207-208 | the selection becomes empty |
| Selection.Session.RenderChecks | deutschland_karte_app.py:216-225 | each name of the slice is in the result exactly when its checkbox returns true; every name outside the slice keeps its membership; the result is strictly sorted |
| Selection.Session.SyncCheckboxes | deutschland_karte_app.py:212-231 | after both columns, each region is selected exactly when its checkbox returns true, names outside the region list keep their membership, and the selection is strictly sorted |
| MapStyle.StyleName | deutschland_karte_app.py:157 | the style function's name is the resolved name whenever some name key has a value; otherwise it is absent or empty, never `"Unbekannt"` |
| MapStyle.HighlightedAsWritten | deutschland_karte_app.py:158 | the map draws a region selected exactly when the style name is present and in the selection; no contract of its own, the lemmas below state what it does |
| MapStyle.Highlighted | deutschland_karte_app.py:76 | the region's resolved name is in the selection, the test the PDF export applies; no contract of its own |
| MapStyle.UnnamedRegionNeverHighlighted | deutschland_karte_app.py:155-160 | a region without any name value is named `"Unbekannt"`, yet the map never draws it selected as long as no empty name is selected |
| MapStyle.UnnamedRegionCounterexample | deutschland_karte_app.py:155-160 | with no properties and `["Unbekannt"]` selected, the region is selected but not drawn selected |
| MapStyle.HighlightedAgreesWhenNamed | deutschland_karte_app.py:155-160 | for a region with a name value, the written test and the test on the resolved name agree |
| PdfExport.Join | deutschland_karte_app.py:65 | `sep.join(xs)` of no elements is empty; otherwise its length is the elements' total length plus one separator between each two neighbours |
| PdfExport.JoinAppend | deutschland_karte_app.py:65 | joining two non-empty lists one after the other gives the join of their concatenation, so the elements appear in list order with `sep` between neighbours |
| PdfExport.JoinEnds | deutschland_karte_app.py:65 | the joined string starts with the first element and ends with the last |
| PdfExport.Title | deutschland_karte_app.py:63-65 | the title starts with the fixed title; it equals it exactly when nothing is selected; otherwise `" (markiert: "` follows, `)` ends it, and what lies between is exactly the selected names joined with `", "` |
| PdfExport.TitleAppend | deutschland_karte_app.py:63-65 | one more selected name is listed after the earlier ones, after `", "` and before the closing `)` |
| PdfExport.TitleListsSelected | deutschland_karte_app.py:63-65 | every selected name occurs in the title |
| PdfExport.JoinListsEvery | deutschland_karte_app.py:65 | every element occurs, contiguously, in `sep.join(xs)` |
| PdfExport.JoinAvoids | deutschland_karte_app.py:239 | a character in neither the separator nor any element is not in the joined string |
| PdfExport.Underscored | deutschland_karte_app.py:239 | `replace(' ', '_')` keeps the length, turns each space into `_`, keeps every other character, and leaves no space |
| PdfExport.UnderscoredAll | deutschland_karte_app.py:239 | the list comprehension `[s.replace(' ','_') for s in ...]`: one entry per selected name, in order, each with its spaces replaced |
| PdfExport.Label | deutschland_karte_app.py:239 | the label is `"Deutschlandkarte"` when nothing is selected; otherwise it is `"Deutschlandkarte_"` followed by exactly the selected names, spaces replaced, joined with `_` |
| PdfExport.LabelAppend | deutschland_karte_app.py:239 | one more selected name, spaces replaced, follows the earlier ones in the label after `_` |
| PdfExport.LabelHasNoSpaces | deutschland_karte_app.py:239 | the label never contains a space |
| PdfExport.LabelListsSelected | deutschland_karte_app.py:239 | every selected name, spaces replaced, occurs in the label |
| PdfExport.FileName | deutschland_karte_app.py:241 | the download file name is exactly the label followed by `.pdf`, and has no space |

## Left out

- Loading the GeoJSON from the two fallback URLs (lines 21-33): network I/O. The model starts from the parsed collection.
- The geometry library's `shape`, `prep`, `Point`, `buffer`, `contains` and `intersects` (lines 42, 43, 187, 191): foreign calls. Geometries are an abstract type, and the three tests are caller-supplied functions of the geometry and the point that either answer or raise. Any exception `shape` raises for a missing or malformed geometry is not modelled.
- The bounding box (`unary_union(...).bounds` and its default tuple, line 45) and the PDF projection (lines 53-59): floating-point geometry. `BuildGeometries` does not return the bounds.
- ReportLab drawing in `create_pdf` and `draw_geom` (lines 61-105): foreign calls. They include the re-drawing of selected regions and the rule that drawing skips rings of fewer than 3 points (lines 93, 99).
- The folium map, city markers, colours, the hover style and the tooltip widget itself (lines 153-181): UI rendering. The tooltip *fields* and the selected/unselected test are modelled.
- The static `CITIES` list, page configuration, captions and hints (lines 18, 107-138, 233, 243-245): static data and UI text.
- Streamlit caching, columns and buttons: framework plumbing. A button press is the call of the matching `Session` method. A checkbox's value is the `widget` input. Streamlit would reject two checkboxes with the same key, which happens if a name occurs twice in `state_names`; the model gives such checkboxes the same value instead.
- Property values other than strings: `Props` maps keys to strings, and a missing key and `""` both count as false. In Python, a numeric or boolean value, e.g. a numeric `id`, could become a region name. The model does not capture that.
- Strings holding lone surrogates: a Python `str` can hold one (from a JSON `"\ud800"` escape, say), a Dafny `char` cannot, so names and keys are strings of Unicode scalar values only.
- `lastClick` stores the click as reals. The `float(...)` conversion of the widget's answer (line 185) is not modelled.
- SafeTooltipFields: when it falls back to a common key, it does not say which one, because the source takes `next(iter(common))`, an arbitrary member of a set.

## Findings

| source | as written | input that shows it | evidently intended | confidence | as-written member | corrected member |
|---|---|---|---|---|---|---|
| deutschland_karte_app.py:157-158 | the map style names a feature with the `or` chain without the `"Unbekannt"` fallback and tests that name against the selection | a feature whose properties carry none of `name`, `GEN`, `NAME_1`, `NAME`, `id`; clicking it selects `"Unbekannt"`, but the map never draws it selected, while the PDF does | test the resolved name (`d["name"]`, as the PDF export does) against the selection | low; not executed | MapStyle.UnnamedRegionCounterexample | MapStyle.HighlightedAgreesWhenNamed |
