# Map screen with off-screen marker indicators

This project models the core of a small React and Leaflet map application. The model is written in Dafny.

The home screen keeps a list of marker rows. Each row has an id, a position, a label and a visibility flag. The sidebar can toggle, remove, show all, hide all and add rows. The visible rows are handed to the map component. For every marker outside the current bounds, the map component draws an arrow on a frame inset 50 px from the viewport border. The arrow points toward the marker and carries its label and its formatted distance.

The model covers:

- The placement of the edge arrows (`intersectWithRect`, file `geometry.dfy`). A ray is cast from the centre pixel toward the marker pixel. The crossing with the inset frame that is reached first is returned.
- The arrow descriptors and the map component's refs and state (`updateIndicators`, `syncMarkers`, `initMap` and its cleanup, file `indicators.dfy`).
- The two text formats (`formatDistance`, `formatLatLng`, file `string_utils.dfy`), over models of `Math.round`, `Number.prototype.toFixed`, integer printing and `String.prototype.trim` (file `js_builtins.dfy`).
- The sidebar's list updaters, the derived values, and the rules that disable the show-all and hide-all buttons (file `home.dfy`).

The records are in `models.dfy` and the seed data is in `constants.dfy`. `sequences.dfy` holds generic sequence helpers: subsequences, distinctness, and the filter-and-map that a `forEach` with `push` builds. `wrappers.dfy` holds `Option`.

Naming conventions:

- JavaScript numbers are exact reals.
- The source field `label` is called `caption`, and the ref `mapRef` holds a value named `mapInstance`, because `label` and `map` are Dafny keywords.
- State that the source updates in place is a class: `Indicators.Maps` holds the map component's cells and `Home.HomeScreen` holds the `markers` state.
- The `forEach` loop of `updateIndicators` becomes a method with a loop invariant (`Indicators.Maps.UpdateIndicators`). `intersectWithRect` has no loop; its sequence of guarded pushes into the `candidates` array becomes a method, `Geometry.IntersectWithRect`, with the array as a local sequence, and its `sort` becomes the function `Geometry.SortByT`. Both methods are proved against specification functions.
- The functions that compute what the source computes (`StringUtils.FormatDistance`, `Home.Toggled` and the like) carry no contract of their own. Each has a row below that names the lemmas specifying it.

## Model

| member | source | states |
|---|---|---|
| Geometry.IntersectWithRect | src/utils/map.ts:1-51 | the result equals the specification function `NearestCrossing`, and it satisfies the geometric specification `IsNearestExit`: None exactly when the ray crosses no edge of the inset frame; otherwise the point of the crossing with the least ray parameter |
| Geometry.EdgeCandidate | src/utils/map.ts:18-44 | specified by `CandidateIsExit` and `ExitIsCandidate`: the test of one edge yields a candidate exactly when the ray crosses that edge forward and within its span |
| Geometry.CrossVertical | src/utils/map.ts:19-28 | specified by `CrossVerticalSound` and `CrossVerticalComplete` |
| Geometry.CrossHorizontal | src/utils/map.ts:33-42 | specified by `CrossHorizontalSound` and `CrossHorizontalComplete` |
| Geometry.Candidates | src/utils/map.ts:16-44 | specified by `CandidateOrigin` and `EdgeCandidateCollected`: the array holds a candidate from every passing edge test, and nothing else |
| Geometry.SortByT | src/utils/map.ts:48 | specified by `SortByTCorrect` and `SortedHeadIsFirstMinimal`: a permutation ordered by parameter whose head is the first least candidate |
| Geometry.NearestCrossing | src/utils/map.ts:46-50 | specified by `NearestCrossingIsNearestExit`: null exactly when no edge is crossed, otherwise the earliest crossing |
| Geometry.CrossVerticalSound | src/utils/map.ts:19-28 | a pushed crossing of a vertical edge lies ahead of the centre (t > 0), on the edge line, on the ray, and within the vertical span |
| Geometry.CrossVerticalComplete | src/utils/map.ts:19-28 | any forward parameter at which the ray meets a vertical edge within its span is exactly the crossing the test pushes |
| Geometry.CrossHorizontalSound | src/utils/map.ts:33-42 | a pushed crossing of a horizontal edge lies ahead of the centre, on the edge line, on the ray, and within the horizontal span |
| Geometry.CrossHorizontalComplete | src/utils/map.ts:33-42 | any forward parameter at which the ray meets a horizontal edge within its span is exactly the crossing the test pushes |
| Geometry.CandidateIsExit | src/utils/map.ts:18-44 | every candidate pushed for an edge is a forward, transverse crossing of that edge, at the ray's point for its parameter |
| Geometry.ExitIsCandidate | src/utils/map.ts:18-44 | every forward, transverse crossing of an edge is pushed for that edge, with the same parameter |
| Geometry.CandidateOrigin | src/utils/map.ts:16-44 | every element of the candidates array came from one of the four edge tests |
| Geometry.EdgeCandidateCollected | src/utils/map.ts:16-44 | every edge test that passes contributes its candidate to the array |
| Geometry.InsertByTPermutes | src/utils/map.ts:48 | one insertion step of the sort adds exactly the inserted candidate (multiset equality) |
| Geometry.InsertByTSorted | src/utils/map.ts:48 | one insertion step keeps the candidates ordered by parameter |
| Geometry.SortByTCorrect | src/utils/map.ts:48 | the comparator sort returns a permutation of the candidates, ordered by parameter |
| Geometry.MinIndex | src/utils/map.ts:48-50 | the first index holding the least parameter: that parameter is minimal, and every earlier one is strictly greater |
| Geometry.SortedHeadIsFirstMinimal | src/utils/map.ts:48-50 | element 0 after the stable sort is the first candidate, in push order, with the least parameter |
| Geometry.NearestCrossingIsNearestExit | src/utils/map.ts:46-50 | the computed result meets the geometric specification: no crossing means null, and otherwise the point returned is the earliest crossing |
| Geometry.NearestExitUnique | src/utils/map.ts:46-50 | the geometric specification has at most one answer, so any implementation meeting it returns the same point |
| Geometry.NearestCrossingWitness | src/utils/map.ts:46-50 | a returned point is the crossing of some edge at some forward parameter |
| Geometry.NearestCrossingOnFrame | src/utils/map.ts:16-50 | a returned point lies on the inset frame, on an edge line and within that edge's span |
| Geometry.NearestCrossingOnRay | src/utils/map.ts:19-42 | a returned point is center + t * (target - center) for some t > 0 |
| Geometry.DegenerateRayHasNoCrossing | src/utils/map.ts:18-46 | with target equal to centre both guards fail and the result is null |
| Geometry.AxisRayCrossings | src/utils/map.ts:18-44 | a vertical ray leaves through the top or bottom edge at the centre's x, and a horizontal ray through the left or right edge at the centre's y |
| Geometry.ExitOnAxisRay | src/utils/map.ts:18-44 | a crossing of a vertical ray is on a horizontal edge at the centre's x, and a crossing of a horizontal ray is on a vertical edge at the centre's y |
| Geometry.RightEdgeExample | src/utils/map.ts:18-50 | centre (100, 100), target (300, 100), viewport 400 x 300: the left test fails (t = -0.25), the right test gives (350, 100) at t = 1.25, and that point is returned |
| Geometry.NarrowViewportCrossing | src/utils/map.ts:10-29 | in an 80 x 300 viewport a crossing (50, 100) is returned even though no x satisfies 50 <= x <= 80 - 50 |
| Geometry.InsideCenterAlwaysCrosses | src/utils/map.ts:18-46 | from a centre strictly inside the inset frame every direction other than none yields a point |
| Geometry.LeavesThroughVertical | src/utils/map.ts:18-29 | when the x coordinate reaches the frame first, the ray crosses the left or right edge at that parameter |
| Geometry.LeavesThroughHorizontal | src/utils/map.ts:32-43 | when the y coordinate reaches the frame first, or x never changes, the ray crosses the top or bottom edge at that parameter |
| JsBuiltins.IntToString | src/utils/string.ts:5 | specified by `IntToStringRoundTrip` and `IntToStringOnly`: the printed text is the one text that reads back as the integer |
| JsBuiltins.ToFixed | src/utils/string.ts:6 | specified by `ToFixedRoundTrip` and `ToFixedOnly`: the text is the one text that reads back as the sign of x and the correctly rounded scaled value |
| JsBuiltins.Round | src/utils/string.ts:5 | Math.round returns the integer n with n - 1/2 <= x < n + 1/2, so a half rounds toward +infinity |
| JsBuiltins.NatToString | src/utils/string.ts:5 | the decimal text of a natural number: non-empty, digits only, no leading zero, and it denotes the number |
| JsBuiltins.NatToStringOnly | src/utils/string.ts:5 | digits with no leading zero (or "0" alone) are exactly what NatToString prints for the number they denote |
| JsBuiltins.PaddedDigitsOnly | src/utils/string.ts:6 | any k digits are exactly what toFixed writes as the k fractional digits of their value |
| JsBuiltins.IntToStringRoundTrip | src/utils/string.ts:5 | reading back the printed integer gives the integer, negative values included |
| JsBuiltins.IntToStringOnly | src/utils/string.ts:5 | a text reads back as n exactly when it is the printed text of n; leading zeros, "-0" and "+" are not read |
| JsBuiltins.FixedDigitsRoundTrip | src/utils/string.ts:6 | the digits that toFixed writes, with exactly f fractional digits, read back as the scaled integer |
| JsBuiltins.FixedDigitsOnly | src/utils/string.ts:6 | a text reads back as the scaled integer n exactly when it is the digits toFixed writes for n |
| JsBuiltins.ToFixedRoundTrip | src/utils/string.ts:6 | reading back x.toFixed(f) gives the sign of x, and the integer nearest to abs(x) * 10^f, the larger one on a tie |
| JsBuiltins.ToFixedOnly | src/utils/string.ts:6 | a text is x.toFixed(f) exactly when it reads back as the sign of x and the integer nearest to abs(x) * 10^f, the larger on a tie |
| JsBuiltins.FixedRoundingUnique | src/utils/string.ts:6 | at most one sign and scaled integer meet toFixed's rounding rule for x |
| JsBuiltins.ParseFixedInjective | src/utils/string.ts:6 | two texts that read back as the same decimal are the same text |
| JsBuiltins.Trim | src/screens/Home.tsx:187 | trim returns the slice of the input after its leading whitespace, neither starting nor ending with whitespace, with only whitespace cut from either end |
| JsBuiltins.TrimIdempotent | src/screens/Home.tsx:187 | trimming a trimmed label changes nothing |
| StringUtils.FormatDistance | src/utils/string.ts:4-7 | specified by `FormatDistanceOnly`, `FormatDistanceUnit`, `FormatDistanceMetres` and `FormatDistanceKilometres`: the text is the one text that reads as the rounded metres below 950 m, or as the rounded tenths of a kilometre from 950 m on |
| StringUtils.FormatLatLng | src/utils/string.ts:9-12 | specified by `FormatLatLngOnly` and `FormatLatLngRoundTrip`: the line is the one line that reads back as both coordinates rounded to five decimals |
| StringUtils.FormatDistanceMetres | src/utils/string.ts:4-5 | below 950 m the text reads back as whole metres, rounded as Math.round rounds |
| StringUtils.FormatDistanceKilometres | src/utils/string.ts:4-7 | from 950 m on the text reads back as non-negative kilometres in tenths, the tenths count within one half of meters / 100 |
| StringUtils.FormatDistanceUnit | src/utils/string.ts:4-7 | the text ends in " m" exactly when meters < 950 and in " km" exactly when meters >= 950 |
| StringUtils.FormatDistanceOnly | src/utils/string.ts:4-7 | a text is formatDistance(meters) exactly when it reads as Math.round(meters) metres below 950, or as non-negative tenths of a kilometre within one half of meters / 100 from 950 on |
| StringUtils.ParseDistanceInjective | src/utils/string.ts:4-7 | two texts that read as the same distance are the same text |
| StringUtils.FormatDistance949 | src/utils/string.ts:5 | 949 is written "949 m" |
| StringUtils.FormatDistance949Point5 | src/utils/string.ts:5 | 949.5 takes the metre branch and is written "950 m" |
| StringUtils.FormatDistanceJustBelowThreshold | src/utils/string.ts:4-5 | every distance from 949.5 m up to, but not including, 950 m is written "950 m" |
| StringUtils.FormatDistance950 | src/utils/string.ts:6 | 950 takes the kilometre branch, so the text ends in " km"; over exact reals it is "1.0 km", while the program on doubles writes "0.9 km" |
| StringUtils.FormatDistance1500 | src/utils/string.ts:6 | 1500 is written "1.5 km" |
| StringUtils.FormatDistance2000 | src/utils/string.ts:6 | 2000 is written "2.0 km", with the trailing zero toFixed keeps |
| StringUtils.FormatLatLngRoundTrip | src/utils/string.ts:9-12 | the coordinate line reads back as latitude and longitude, each rounded as toFixed(5) rounds and with its sign |
| StringUtils.FormatLatLngOnly | src/utils/string.ts:9-12 | a line is formatLatLng(position) exactly when it reads back as both coordinates rounded as toFixed(5) rounds them |
| StringUtils.ParseCoordinates | src/utils/string.ts:11 | two numbers joined by a degree sign and a comma, with a closing degree sign, are read back apart |
| Indicators.Rotation | src/components/common/map/index.tsx:136-139 | specified by `IndicatorFor`: a descriptor's rotation is the angle from the centre pixel to the marker pixel, in degrees, plus 90 |
| Indicators.Project | src/components/common/map/index.tsx:119-153 | specified by `ProjectIsShown`, `IndicatorOrigin` and `ProjectLength`: one descriptor per shown marker, in marker order |
| Indicators.IndicatorFor | src/components/common/map/index.tsx:121-151 | a marker gets a descriptor exactly when it is outside the bounds and its ray crosses the frame; the descriptor carries the marker's id and label, the crossing point, the arrow's rotation, and the formatted distance from the map centre |
| Indicators.Visit | src/components/common/map/index.tsx:121-151 | one turn of the forEach callback returns the descriptor that IndicatorFor specifies, or nothing |
| Indicators.Recompute | src/components/common/map/index.tsx:101-154 | with no map, or with no markers, the new state is empty; otherwise there are no more descriptors than markers |
| Indicators.Maps.constructor | src/components/common/map/index.tsx:91-97 | on the first render there is no map, the latest-markers ref holds the prop, and there are no indicators |
| Indicators.Maps.UpdateIndicators | src/components/common/map/index.tsx:101-154 | the indicators state is the filtered and mapped marker list, computed from the map and the latest markers alone; only that cell changes |
| Indicators.Maps.SyncMarkers | src/components/common/map/index.tsx:167-191 | once a map exists the latest-markers ref becomes the new prop; without a map it is left as it was |
| Indicators.Maps.AttachMap | src/components/common/map/index.tsx:193-202 | a map is created only when there is a container and no map yet; otherwise the ref is unchanged |
| Indicators.Maps.DetachMap | src/components/common/map/index.tsx:223-229 | the cleanup clears the map ref |
| Indicators.ProjectLength | src/components/common/map/index.tsx:119-153 | an update yields at most as many indicators as markers |
| Indicators.ProjectAppend | src/components/common/map/index.tsx:121-151 | running the loop over a + b pushes the descriptors of a, then those of b |
| Indicators.ProjectIsShown | src/components/common/map/index.tsx:121-151 | the descriptors are those of the shown markers, one each and in marker order, and the shown markers are a subsequence of the input |
| Indicators.DistinctIdsPreserved | src/components/common/map/index.tsx:143-150 | distinct marker ids give distinct indicator ids |
| Indicators.IndicatorOrigin | src/components/common/map/index.tsx:121-151 | a descriptor is in the list exactly when some marker of the list produces it |
| Indicators.IndicatorHasMarkerId | src/components/common/map/index.tsx:143-144 | every descriptor carries the id of some marker of the list |
| Indicators.ContainedMarkerHasNoIndicator | src/components/common/map/index.tsx:122-123 | when ids are distinct, a marker inside the bounds has no descriptor under its id |
| Indicators.IndicatorOnFrame | src/components/common/map/index.tsx:125-145 | a descriptor's point lies on the inset frame and on the forward ray from the centre pixel toward the marker's pixel |
| Indicators.IndicatorsOnFrame | src/components/common/map/index.tsx:119-153 | every descriptor of an update lies on the inset frame of the current viewport |
| Indicators.IndicatorsInBox | src/components/common/map/index.tsx:119-153 | in a viewport at least 100 px wide and high, every descriptor's point satisfies 50 <= x <= width - 50 and 50 <= y <= height - 50 |
| Constants.InitialMarkersDistinct | src/utils/constants.ts:7-23 | there are three seed markers and their ids are pairwise different |
| Home.SeedRows | src/screens/Home.tsx:107-114 | specified by `SeedRowsFacts` |
| Home.Toggled | src/screens/Home.tsx:160-166 | specified by `ToggledFacts` and `ToggledTwice` |
| Home.Removed | src/screens/Home.tsx:168-170 | specified by `RemovedFacts` and `RemovedIds` |
| Home.ShowAll | src/screens/Home.tsx:172-174 | specified by `ShowAllFacts` and `ShowAllDisabledIff` |
| Home.HideAll | src/screens/Home.tsx:176-178 | specified by `HideAllFacts` and `HideAllDisabledIff` |
| Home.AllVisible | src/screens/Home.tsx:129-132 | specified by `ShowAllFacts` and `NotAllVisibleAndAllHidden` |
| Home.AllHidden | src/screens/Home.tsx:133-136 | specified by `HideAllFacts` and `NotAllVisibleAndAllHidden` |
| Home.VisibleMarkers | src/screens/Home.tsx:138-144 | specified by `VisibleMarkersFacts`, `VisibleMarkersAll` and `VisibleRowIds` |
| Home.ShowAllDisabled | src/screens/Home.tsx:225 | specified by `ShowAllDisabledIff` |
| Home.HideAllDisabled | src/screens/Home.tsx:235 | specified by `HideAllDisabledIff` |
| Home.Appended | src/screens/Home.tsx:180-194 | adding keeps every existing row and appends one visible row with the new id, the position, and the label trimmed, which neither starts nor ends with whitespace |
| Home.HomeScreen.constructor | src/screens/Home.tsx:107-114 | the initial state is the seed markers as visible rows, and their ids are distinct |
| Home.HomeScreen.ToggleMarkerVisibility | src/screens/Home.tsx:160-166 | the new list is the toggled list, and distinct ids stay distinct |
| Home.HomeScreen.RemoveMarker | src/screens/Home.tsx:168-170 | the new list drops the rows with the id, and distinct ids stay distinct |
| Home.HomeScreen.ShowAllMarkers | src/screens/Home.tsx:172-174 | the new list has every row visible, and distinct ids stay distinct |
| Home.HomeScreen.HideAllMarkers | src/screens/Home.tsx:176-178 | the new list has every row hidden, and distinct ids stay distinct |
| Home.HomeScreen.AddMarker | src/screens/Home.tsx:180-194 | the new list is the appended list, and with a fresh id the ids stay distinct |
| Home.SeedRowsFacts | src/screens/Home.tsx:107-114 | the seed rows are the initial markers in order, all visible, with the same ids |
| Home.ToggledFacts | src/screens/Home.tsx:160-166 | toggling flips visibility on the rows with the id and changes nothing else |
| Home.ToggledTwice | src/screens/Home.tsx:160-166 | toggling the same id twice restores the list |
| Home.RemovedFacts | src/screens/Home.tsx:168-170 | removal keeps the other rows in order; a row with a different id keeps every copy, and a row with the id keeps none |
| Home.RemovedCount | src/screens/Home.tsx:168-170 | filter keeps every copy of a row whose id differs, and no copy of a row with the id |
| Home.RemovedIds | src/screens/Home.tsx:168-170 | the remaining ids are a subsequence of the old ids, and the removed id is gone |
| Home.ShowAllFacts | src/screens/Home.tsx:172-174 | show all makes every row visible, changes nothing else, is idempotent, and leads to allVisible exactly when the list is not empty |
| Home.HideAllFacts | src/screens/Home.tsx:176-178 | hide all makes every row hidden, changes nothing else, is idempotent, and leads to allHidden exactly when the list is not empty |
| Home.AppendedKeepsDistinct | src/screens/Home.tsx:180-190 | appending a row under a fresh id keeps the ids distinct |
| Home.NotAllVisibleAndAllHidden | src/screens/Home.tsx:129-136 | allVisible and allHidden never hold together |
| Home.VisibleMarkersFacts | src/screens/Home.tsx:138-144 | visibleMarkers is a subsequence of the rows; a visible row keeps every copy, and a hidden row keeps none |
| Home.VisibleMarkersCount | src/screens/Home.tsx:138-144 | filter keeps every copy of a visible row, and no copy of a hidden one |
| Home.VisibleRowIds | src/screens/Home.tsx:138-144 | the ids handed to the map are a subsequence of the list's ids |
| Home.DistinctIndicatorIds | src/components/common/map/index.tsx:143-150 | with distinct row ids, the arrows drawn from the visible rows have distinct ids |
| Home.HomeScreen.IndicatorIdsDistinct | src/screens/Home.tsx:199-205 | the screen's distinct-id invariant makes the ids of the arrows the map draws from its markers prop distinct |
| Home.VisibleMarkersAll | src/screens/Home.tsx:138-144 | the map gets every row exactly when every row is visible |
| Home.AllVisibleKept | src/screens/Home.tsx:138-144 | when every row is visible, visibleMarkers is the whole list |
| Home.ShowAllDisabledIff | src/screens/Home.tsx:225 | the show-all button is disabled exactly when pressing it would change nothing |
| Home.HideAllDisabledIff | src/screens/Home.tsx:235 | the hide-all button is disabled exactly when pressing it would change nothing |
| Home.VisibleMarkerIsVisibleRow | src/screens/Home.tsx:138-144 | every entry handed to the map is a visible row of the list |
| Home.IndicatorsComeFromVisibleRows | src/screens/Home.tsx:199-205 | every indicator computed from the markers Home passes to the map belongs to a visible row of the sidebar list |

## Left out

- Leaflet is not modelled. This covers creating the map, tile and scale layers, marker layers and popups, event handlers, `setView` and `fitBounds`. The queries `updateIndicators` makes are fields of `Indicators.Viewport`: size, centre, bounds test, projection to container pixels, and `distanceTo`. `Math.atan2` is a parameter.
- `requestAnimationFrame` scheduling, React rendering and effects, `syncView`, styling, translations, and the add-marker form's validation (`useMarkerSchema`) are not modelled.
- `Home.HomeScreen.AddMarker` receives the id that `newUuid()` returns, and the position that `Number(values.lat)` and `Number(values.lng)` give, as parameters. Parsing the form strings is not modelled.
- JavaScript numbers are exact reals, with no IEEE-754 rounding, NaN or infinities. This is why `StringUtils.FormatDistance950` gives "1.0 km". With doubles, 950 / 1000 is the double just below 0.95, and toFixed(1) would write "0.9 km".
- `JsBuiltins.ToFixed` covers only magnitudes below 10^21. Above that, toFixed switches to exponent notation, which is not modelled. Integer printing is likewise modelled without exponent notation.
- `Geometry.SortByT`: `Array.prototype.sort` is modelled as a stable insertion sort by parameter. Over the reals, two equal parameters give the same point, so the tie between edges cannot be seen in the returned point. `Geometry.SortedHeadIsFirstMinimal` still fixes which candidate comes first.
- `Indicators.Visit` returns the descriptor of one forEach turn. `Indicators.Maps.UpdateIndicators` performs the `push`. In the source, the arrow function pushes into `next` itself.
- `Indicators.Maps.SyncMarkers` does not model the `markersLayerRef` test. The markers layer is created and cleared together with the map, so that test is the same as the map test.
- `Indicators.Maps.UpdateIndicators`: the `?? []` fallback is not modelled, since the latest-markers cell always holds a list.
- `Home.HomeScreen` methods state distinct ids as preserved (`old(Valid()) ==> Valid()`). The source itself relies on `newUuid` for fresh ids, which `Home.HomeScreen.AddMarker` takes as an assumption on its parameter.
- `Indicators.IndicatorsInBox` requires a viewport at least two margins (100 px) wide and high. For narrower viewports, `Geometry.NarrowViewportCrossing` shows a returned point outside the inset box. In that case the box is empty.
- `StringUtils.FormatDistance950`: the "1.0 km" clause holds over exact reals only. The program on doubles writes "0.9 km" for 950. The clause that holds in both semantics is that the text ends in " km".
- `Home.IndicatorsComeFromVisibleRows` is about the indicators that `updateIndicators` computes from the markers prop. The rendered `indicators` state lags by one animation frame: after a toggle or a removal, `syncMarkers` only schedules the recompute. The model has no frames, so this lag is not captured.
