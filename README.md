# Events service model

This project models the pure core of the frontend events service
(`src/services/EventsService.ts`). The core has two functions:

- `buildDetailsQuery` turns a list of Wikidata event ids into a SPARQL
  query. The query is a fixed template whose `VALUES ?event { … }` list holds
  the ids joined by single spaces.
- `pointStringToLatLngTuple` turns a WKT literal such as `Point(12.5 7.25)`
  into a Leaflet `[latitude, longitude]` pair. It removes the first
  `Point(` and the first `)`, splits the rest on single spaces, converts each
  token with JavaScript's `Number`, and swaps the first two values.

Both functions are pure, so the model uses Dafny functions and lemmas.

Files:
- `Wrappers.dfy` defines `Option`. `None` stands for JavaScript's `undefined`.
- `Text.dfy` models the JavaScript string operations the service uses:
  - the first-match search of `replace` is `IndexOf`.
  - `replace` with a string pattern is `RemoveFirst`. Only the first
    occurrence is removed.
  - `split` on a one-character separator is `Split`. The empty string gives
    `[""]`, and two adjacent separators give an empty token.
  - `join` is `Join`.

  It also proves that `Split` and `Join` invert each other.
- `EventsService.dfy` holds:
  - the query template, copied character for character from the template
    literal;
  - the two service functions;
  - their properties.

Two choices in how the model represents the source:
- **Number conversion.** The model does not fix how a token becomes a
  number. `PointStringToLatLngTuple` takes the conversion as a parameter
  `toNum: string -> R`, so every property holds whatever `Number` does.
- **The result pair.** The destructured `[x, y]` always has an `x`, because
  `split` never returns an empty array. The `y` is missing when there is no
  second token. The result is therefore `LatLngTuple(lat: Option<R>, lng: R)`:
  - `lat` is `y`, and is `None` when the source would put `undefined` in
    element 0;
  - `lng` is `x`.

`buildDetailsQuery` does not require a non-empty list: an empty list gives a
query whose VALUES braces hold only two spaces (`EventsService.EmptyIdList`).

## Model

| member | source | states |
|---|---|---|
| EventsService.BuildDetailsQuery | src/services/EventsService.ts:5-31 | Cutting the fixed template head and tail off the query leaves exactly the ids joined by single spaces. |
| EventsService.ValuesList | src/services/EventsService.ts:7-30 | When a text has the template head and tail around it, it is head, extracted VALUES text and tail, in that order. |
| EventsService.BuildDetailsQueryImage | src/services/EventsService.ts:5-31 | A text is a possible query exactly when it has the template around it. Both directions are proved. |
| EventsService.QueryDependsOnlyOnValues | src/services/EventsService.ts:6-14 | Two id lists give the same query if and only if their space-joined texts are equal. Everything outside the VALUES list is fixed. |
| EventsService.QueryInjective | src/services/EventsService.ts:5-31 | Two non-empty lists of space-free ids that give the same query are the same list. |
| EventsService.ValuesSplitRoundTrip | src/services/EventsService.ts:6 | Splitting the VALUES text on spaces gives back the space-free ids in order. An empty list comes back as `[""]`. |
| EventsService.EmptyIdList | src/services/EventsService.ts:5-14 | An empty id list gives the bare template, whose VALUES braces hold nothing but two spaces. |
| EventsService.ValuesOpening | src/services/EventsService.ts:14 | The template head ends with `VALUES ?event { `. |
| EventsService.ValuesClosing | src/services/EventsService.ts:14 | The template tail starts with the ` }` that closes the VALUES list. |
| EventsService.IdOccurs | src/services/EventsService.ts:6-14 | Id `k` stands in the query after the head and the ids before it, each followed by one space. This is the ids' original order. |
| EventsService.IdOpening | src/services/EventsService.ts:6-14 | The first id directly follows `{ `. Every other id directly follows a single space. |
| EventsService.IdClosing | src/services/EventsService.ts:6-14 | Each id is directly followed by a single space and the next id. The last id is followed by the closing ` }`. |
| EventsService.SlotOccurs | src/services/EventsService.ts:14 | Interpolating a space-joined list between a head and a tail puts element `k` at the head's length plus its offset in the join. |
| EventsService.SlotOpening | src/services/EventsService.ts:14 | After interpolation, each element is preceded by the head's closing `{ ` (first element) or by a space (every other). |
| EventsService.SlotClosing | src/services/EventsService.ts:14 | After interpolation, each element is followed by a space and the next element, or by the tail's ` }` (last element). |
| EventsService.EmptySlot | src/services/EventsService.ts:14 | Interpolating an empty list makes `{ ` and ` }` meet as `{  }`. |
| EventsService.PointStringToLatLngTuple | src/services/EventsService.ts:63-69 | Longitude: the conversion of the first token of the cleaned text. Latitude: present exactly when the cleaned text contains a space, and then the conversion of the second token. |
| EventsService.PointTokens | src/services/EventsService.ts:64-66 | The tokens are at least one, contain no space, and joined with spaces give back the cleaned text. |
| EventsService.ParseCleanedTokens | src/services/EventsService.ts:66-68 | The result depends only on the space-free tokens of the cleaned text: latitude from the second token (absent if there is none), longitude from the first. |
| EventsService.ParsePointLiteral | src/services/EventsService.ts:63-69 | For coordinates free of spaces and `)`, parsing `Point(c0 c1 …)` gives latitude `c1` (absent for one coordinate) and longitude `c0`. Later coordinates are ignored. |
| EventsService.SwappedExample | src/services/EventsService.ts:63-69 | `Point(12.5 7.25)` gives `[7.25, 12.5]`: latitude and longitude swap places. |
| EventsService.NegativeExample | src/services/EventsService.ts:63-69 | `Point(-3 4)` gives `[4, -3]`. |
| EventsService.DoubleSpaceExample | src/services/EventsService.ts:66 | A doubled space gives an empty second token, and that token becomes the latitude. |
| EventsService.SingleTokenExample | src/services/EventsService.ts:66-68 | A single coordinate leaves the latitude undefined. |
| EventsService.RemovePointPrefix | src/services/EventsService.ts:64 | Cleaning starts by removing the first `Point(`: from a text that starts with it, exactly that prefix goes. |
| EventsService.CleanPointFirstOnly | src/services/EventsService.ts:64 | Cleaning removes the first `Point(` and then only the first `)`. In `Point(a)b`, with no `)` in `a`, the cleaned text is `a + b`, keeping any `)` in `b`. |
| EventsService.CleanPointUnmarked | src/services/EventsService.ts:64 | Text with no `Point(` and no `)` is not changed by cleaning. |
| EventsService.BareCoordinates | src/services/EventsService.ts:64 | The wrapper is not checked: bare coordinates parse the same as the `Point(…)` literal around them. |
| EventsService.ExtraParenKept | src/services/EventsService.ts:64-68 | In `Point(x y))` the second `)` stays in the text and ends up in the latitude token. |
| Text.IndexOf | src/services/EventsService.ts:64 | Returns the first index where the pattern occurs, or None exactly when it occurs nowhere. |
| Text.FirstOccurrenceUnique | src/services/EventsService.ts:64 | A text has at most one first occurrence of a pattern. |
| Text.RemoveFirst | src/services/EventsService.ts:64 | If the pattern is absent, the text is unchanged. Otherwise its first occurrence is cut out and the rest of the text is kept. |
| Text.RemoveFirstRestores | src/services/EventsService.ts:64 | Putting the pattern back at its first occurrence restores the text, and the part before it is untouched. |
| Text.RemoveFirstKeepsLaterOccurrences | src/services/EventsService.ts:64 | Later non-overlapping occurrences survive the removal, shifted left by the pattern's length. |
| Text.RemoveFirstChar | src/services/EventsService.ts:64 | Removing the first `c` from `a + c + b`, when `a` has no `c`, leaves `a + b`. |
| Text.Split | src/services/EventsService.ts:66 | Gives at least one token. No token contains the separator. There are two or more tokens exactly when the text contains the separator. |
| Text.JoinSplit | src/services/EventsService.ts:66 | Joining the split tokens with the separator gives back the text. |
| Text.SplitJoin | src/services/EventsService.ts:6 | Splitting the join of a non-empty, separator-free list gives back the list. |
| Text.JoinAt | src/services/EventsService.ts:6 | Each element stands in the join at its offset, and the last element ends the join. |
| Text.JoinAppend | src/services/EventsService.ts:6 | Cutting the list at `k` cuts the join at the separator after element `k - 1`. |
| Text.JoinSeparatorBefore | src/services/EventsService.ts:6 | Every element but the first is directly preceded by the separator. |
| Text.OffsetNext | src/services/EventsService.ts:6 | The next element starts one element and one separator further on. |
| Text.JoinExcludes | src/services/EventsService.ts:6 | A character that is in no element and is not the separator is not in the join. |
| Text.FirstSeparator | src/services/EventsService.ts:66 | The first separator in `a + c + b`, when `a` has no `c`, is at index `|a|`. |
| Text.Unwrap | src/services/EventsService.ts:7-30 | Succeeds exactly when the text has the given prefix and suffix, and then gives the text between them. |
| Text.UnwrapWrapped | src/services/EventsService.ts:7-30 | Unwrapping `head + middle + tail` gives back `middle`. |

## Left out

- `fetchWikidataSPARQL` (lines 33-49) is left out. It POSTs the query to the Wikidata endpoint and throws on a non-OK HTTP status. Both are network I/O.
- `getEventsData` (lines 51-61) is left out. It only chains `buildDetailsQuery` with the fetch and queues a toaster notification in a microtask. Both are I/O and scheduling. Its query part is `EventsService.BuildDetailsQuery`.
- The JavaScript `Number` conversion is not modelled: no IEEE-754 parsing, no `NaN` for malformed tokens, `0` for the empty token. `EventsService.PointStringToLatLngTuple` takes the conversion as the parameter `toNum`, so its properties hold for any conversion.
- Only the string content of the query is modelled. Its meaning as SPARQL, and the shape of the JSON bindings the endpoint returns, are left out.
- `EventLocation`, `HistoricEvent` and Leaflet's `LatLngTuple` types are not part of this model. An id is any string, and a pair is `EventsService.LatLngTuple`.
- `Text.Split` models `split` only for a one-character separator, the only kind the service uses.
