# Osechi potluck: a Dafny model of its pure core

The osechi potluck app lets many people fill a shared lacquered box (the
*jubako*) together. The box is a list of tiers. Each tier has nine slots. A
slot is either empty or holds one dish: an id, the name of the person bringing
it, the dish name and a food colour (Red, Green, Yellow, White or Brown).
Almost all of the app is rendering, database I/O or calls to a text-generation
service. Three small pieces of pure logic sit inside it, and this project
models them:

- **The box** (`src/hooks/useOsechi.ts`), in `Osechi.dfy`:
  - the repair of a raw database snapshot into nine slots per tier;
  - the seed box written when the database is empty;
  - `claimSlot`, which runs a global, case-insensitive, trimmed duplicate-dish
    check (with its own Potato Salad message), then the "Brown food" cap, then
    writes the slot;
  - `clearSlot`.

  Each database write is modelled as the box it would write. The fresh slot id
  is a parameter.
- **The rate limiter** (`src/lib/rateLimit.ts`), in `RateLimit.dfy`:
  - the fixed-window counter keyed by client identifier;
  - the periodic sweep of expired entries;
  - the choice of client identifier from proxy headers.

  The clock `now` is a parameter, and the sweep is a function rather than a
  timer.
- **The recipe renderer** (`src/components/RecipeModal.tsx`, lines 89-101), in
  `RecipeMarkup.dfy`:
  - lines split at `'\n'`;
  - headings;
  - the split by `/(\*\*.*?\*\*)/g` with separators kept;
  - bold spans;
  - removal of a leading `#+\s`.

`JsText.dfy` holds the ECMAScript string operations these rely on: `trim`,
`\s`, ASCII `toLowerCase`, `startsWith`, `endsWith`, `includes` and
`split`. It also defines `IndexOf`, which no source file calls: it is a
reference definition used to state what `ClientIdentifier` returns. `Wrappers.dfy` holds `Option`.

`claimSlot` does not sanitise or length-cap its input. It has no grace
threshold on the Brown rule, so a Brown dish is refused whenever Brown would
reach more than half of the filled slots, even in an empty box. It does not
check that the target slot is empty. `SlotData` has no owner field, so
`clearSlot` has no ownership check. Both operations write the whole tiers
array, not one slot path.

## Model

| member | source | states |
|---|---|---|
| `Osechi.InitialStateShape` | src/hooks/useOsechi.ts:20-24 | The seed box has three tiers, nine slots each, all empty, and so no filled slot. |
| `Osechi.NormalizeTier` | src/hooks/useOsechi.ts:40-43 | A repaired tier keeps its id and name. A missing slot array becomes nine empty slots. A longer one is cut to its first nine entries. A shorter one is padded with empty slots. |
| `Osechi.Normalize` | src/hooks/useOsechi.ts:40-43 | The repaired box has the same tiers in the same order, with the same ids and names and exactly nine slots each. Slot i keeps the raw entry when present and truthy and is empty otherwise. |
| `Osechi.NormalizeCarried` | src/hooks/useOsechi.ts:38-43 | Any raw snapshot with a well-formed box's tiers, ids and names, whose entry at each index equals the box's slot there (an absent array or index counting as empty), is repaired into exactly that box. |
| `Osechi.Stored` | src/hooks/useOsechi.ts:39 | The database's form of a box: each tier keeps its id and name, its slot array loses its trailing empty slots, and a tier with no filled slot has no array at all. |
| `Osechi.NormalizeRoundTrip` | src/hooks/useOsechi.ts:38-43 | Repairing what the database hands back for a box with nine slots per tier gives the same box back. So does repairing the box written with full nine-entry arrays. |
| `Osechi.NormalizeIdempotent` | src/hooks/useOsechi.ts:40-43 | Repairing an already repaired box changes nothing. |
| `Osechi.OnSnapshot` | src/hooks/useOsechi.ts:36-48 | An empty snapshot leaves the mirror as it was and writes the seed box. Any other snapshot writes nothing, and the mirror becomes its repair (`Normalize`): one well-formed tier per delivered tier. |
| `Osechi.SeedEcho` | src/hooks/useOsechi.ts:38-47 | The seed box comes back through the subscription with no slot array on any tier, and the mirror becomes exactly the seed box. |
| `Osechi.BoxHasDish` | src/hooks/useOsechi.ts:64-66 | The nested `some` search is true exactly when some slot anywhere in the box holds a dish with the given lower-cased, trimmed name. |
| `Osechi.TierHasDish` | src/hooks/useOsechi.ts:65 | The inner `tier.slots.some(...)` is true exactly when some slot of the tier holds a dish with the given lower-cased, trimmed name. |
| `Osechi.CountColors` | src/hooks/useOsechi.ts:78-88 | The two counting loops return the number of filled slots and the number of filled Brown slots in the box. |
| `Osechi.ClaimSlot` | src/hooks/useOsechi.ts:59-109 | A successful claim writes a box with the same tiers, ids and names. Slot (t, s) holds the claimed dish with the fresh id, and every other slot is as before. |
| `Osechi.ClaimDuplicateRule` | src/hooks/useOsechi.ts:62-74 | A claim is refused as a duplicate exactly when its lower-cased, trimmed dish name matches that of a filled slot. The Potato Salad message is used exactly when that name contains "potato salad", and the generic message quoting the dish as typed otherwise. |
| `Osechi.ClaimBrownRule` | src/hooks/useOsechi.ts:76-96 | Once past the duplicate check, a claim is refused exactly when it is Brown and 2·(Brown + 1) > filled + 1, and then with the "too ugly" message. Non-Brown claims are never refused there. |
| `Osechi.DuplicateBeforeBrown` | src/hooks/useOsechi.ts:62-96 | A duplicate never gets the Brown message, because the duplicate check runs first. |
| `Osechi.BrownOnEmptyBoxRejected` | src/hooks/useOsechi.ts:77-95 | In a box with nothing filled, a Brown claim is always refused by the Brown rule. |
| `Osechi.ClaimPreservesDistinct` | src/hooks/useOsechi.ts:62-101 | If no two filled slots share a normalised dish name before a claim, none do after it. |
| `Osechi.ClaimIntoEmptyKeepsBrownCap` | src/hooks/useOsechi.ts:77-101 | A successful claim into an empty slot leaves 2·Brown ≤ filled if the dish is Brown. For any dish, it keeps 2·Brown ≤ filled if that held before. |
| `Osechi.OverwriteCanBreakBrownCap` | src/hooks/useOsechi.ts:77-101 | Because the target slot is not checked for emptiness, in a fresh nine-slot box whose only dish is a non-Brown one at (0, 0), a Brown claim over that slot is accepted. Before it 0 of 1 filled slots are Brown; after it 1 of 1 is. |
| `Osechi.ClearSlot` | src/hooks/useOsechi.ts:111-113 | Clearing empties slot (t, s) whoever filled it. Every other slot, and every tier's id, name and length, is unchanged. |
| `Osechi.ClearEmptyIsNoop` | src/hooks/useOsechi.ts:111-113 | Clearing an empty slot writes back the same box. |
| `Osechi.ClearIdempotent` | src/hooks/useOsechi.ts:111-113 | Clearing twice is the same as clearing once. |
| `Osechi.ClearKeepsInvariants` | src/hooks/useOsechi.ts:111-113 | Clearing keeps dish names distinct and lowers the filled count by one exactly when the slot was filled. It never raises the Brown count. |
| `Osechi.ReclaimAfterClear` | src/hooks/useOsechi.ts:59-113 | In a box of distinct dishes, a non-Brown dish just cleared from a slot can be claimed again there. |
| `RateLimiter.RateLimit` | src/lib/rateLimit.ts:26-62 | The configuration defaults to 10 requests per 60 000 ms. A call is allowed exactly when its identifier has no entry, its window is over (strictly after the reset time), or its count is under the quota. A new window stores count 1 ending `windowMs` from now. An allowed call inside a window raises the count by one. An allowed call reports remaining = quota − stored count. A refused call reports 0 and leaves the store as it was. `resetIn` is always the stored reset time minus now. No other identifier's entry changes. |
| `RateLimiter.RateLimitKeepsBound` | src/lib/rateLimit.ts:33-54 | With a quota of at least one, every stored count stays between 1 and the quota. |
| `RateLimiter.NonPositiveQuotaAdmitsFirst` | src/lib/rateLimit.ts:33-44 | With a quota of zero or less, a first call is still allowed and stores a count above the quota. |
| `RateLimiter.WithinWindow` | src/lib/rateLimit.ts:46-61 | Any sequence of calls no later than the reset time of an open window is allowed at most quota − count times. |
| `RateLimiter.FreshWindow` | src/lib/rateLimit.ts:33-61 | A window opened by a call lets at most the quota of calls through, counting every call up to and including `windowMs` later. |
| `RateLimiter.Sweep` | src/lib/rateLimit.ts:12-19 | The sweep keeps exactly the entries whose window is not over at the sweep time, with their values unchanged. |
| `RateLimiter.SweepIdempotent` | src/lib/rateLimit.ts:12-19 | Sweeping twice at the same time is sweeping once. |
| `RateLimiter.SweepKeepsBound` | src/lib/rateLimit.ts:12-19 | Sweeping keeps every stored count within the quota. |
| `RateLimiter.SweepUnobservable` | src/lib/rateLimit.ts:12-44 | Any call made at or after a sweep gets the same decision, and stores the same entry for its identifier, as without the sweep. |
| `RateLimiter.ClientIdentifier` | src/lib/rateLimit.ts:65-76 | A non-empty `x-forwarded-for` gives the trimmed text before its first comma, which contains no comma. Otherwise a non-empty `x-real-ip` is used, then a non-empty `cf-connecting-ip`, then "unknown". |
| `JsText.Trim` | src/lib/rateLimit.ts:71 | The result is an infix of the input that neither starts nor ends with whitespace. Everything removed before and after it is whitespace. |
| `JsText.SplitFirst` | src/lib/rateLimit.ts:71 | The first field of a split is everything before the first separator. |
| `JsText.Split` | src/components/RecipeModal.tsx:89 | Splitting at `'\n'` gives one line more than there are newlines. No line contains a newline. Joining the lines with newlines gives the text back. |
| `RecipeMarkup.Render` | src/components/RecipeModal.tsx:89-101 | There is exactly one rendered line per `'\n'`-separated line of the recipe text, in order. |
| `RecipeMarkup.RenderLine` | src/components/RecipeModal.tsx:91-100 | A line is a heading exactly when it starts with '#'. It renders one part per piece of its split, and part i is how piece i is shown (`RenderPart`). |
| `RecipeMarkup.SplitFrom` | src/components/RecipeModal.tsx:91 | The regex split loop from a piece starting at p gives an odd number of pieces, every odd one a bold span, which glued together give back the text from p on. |
| `RecipeMarkup.CloseFrom` | src/components/RecipeModal.tsx:91 | The lazy `.*?\*\*` either stops just after the first `**`, with no line terminator or earlier `**` before it, or fails exactly when a line terminator comes before every later `**`. |
| `RecipeMarkup.CloseFromFinds` | src/components/RecipeModal.tsx:91 | When the text from j reaches a `**` with no line terminator and no earlier `**` on the way, the lazy body stops exactly after that `**`. |
| `RecipeMarkup.MatchAt` | src/components/RecipeModal.tsx:91 | A match starting at q is a bold span: `**`, a body without line terminators or `**`, then `**`. Conversely, whenever the text from q to some e is a bold span, the match at q ends at e. |
| `RecipeMarkup.NoMatchInMeans` | src/components/RecipeModal.tsx:91 | "No match starts in [lo, hi)" holds exactly when the regular expression fails at every position from lo up to hi. |
| `RecipeMarkup.SplitFromCuts` | src/components/RecipeModal.tsx:91 | The split loop, started after a stretch with no match, lays its pieces end to end from the start. Each even piece contains no match start, and each odd piece is the text it covers. |
| `RecipeMarkup.SplitBold` | src/components/RecipeModal.tsx:91 | The split has an odd number of pieces. Every odd-indexed piece is a bold span. Gluing the pieces together gives back the line. Piece i sits at the sum of the lengths before it. An even piece contains no position where the regular expression matches. An odd piece is exactly the match that starts at its position. |
| `RecipeMarkup.NoMarkerNoSplit` | src/components/RecipeModal.tsx:91 | A line with no `**` anywhere is a single piece. |
| `RecipeMarkup.BoldText` | src/components/RecipeModal.tsx:96 | For a piece of four or more characters, putting `**` back on both ends of `slice(2, -2)` gives the piece back. Shorter pieces ("**", "***") give "". |
| `RecipeMarkup.StripHeadingMarker` | src/components/RecipeModal.tsx:98 | If the piece starts with one or more '#' followed by one whitespace character, exactly that prefix is removed. Otherwise the piece is unchanged. |
| `RecipeMarkup.RenderPart` | src/components/RecipeModal.tsx:95-98 | A piece that starts and ends with `**` is bold. With four or more characters its text wrapped in `**` gives the piece back; "**" and "***" give empty bold text. Any other piece is plain, with its heading marker removed. |
| `RecipeMarkup.BoldSpansRenderBold` | src/components/RecipeModal.tsx:91-96 | Every piece the regular expression matched is shown bold. Its text with `**` on both ends is the piece, and it holds no line terminator. |
| `RecipeMarkup.BoldSpanShown` | src/components/RecipeModal.tsx:95-96 | A bold span is shown bold; its text is the span without the outer `**` and holds no line terminator. |
| `RecipeMarkup.FourStars` | src/components/RecipeModal.tsx:91 | `"****"` splits into an empty piece, the bold span `"****"` and an empty piece. |
| `RecipeMarkup.FourStarsShown` | src/components/RecipeModal.tsx:93-98 | Those pieces show as an empty plain text, an empty bold text and an empty plain text, and `"****"` is not a heading. |

## Left out

- Firebase I/O is left out: the `onValue` subscription, `set`, the `.catch` handlers, and the `error` and `loading` flags. The model gives the state the callback computes and the box a write would contain.
- Races between clients, and last-writer-wins between concurrent writes of the whole tiers array, are left out. Every operation is a pure function of the snapshot it reads.
- The shallow copy `[...tiers]` followed by an in-place slot assignment is left out. The update is modelled as pure. Out-of-range tier or slot indices are a precondition, not a modelled error.
- `crypto.randomUUID()` becomes the `freshId` parameter, `Date.now()` becomes `now`, and the `setInterval` timer becomes the explicit `Sweep` call.
- JavaScript numbers are modelled as unbounded integers. Counts and times never come near 2^53 here.
- A snapshot whose tier array has holes (a `null` tier) would make `tier.slots` throw. Raw tiers are always present in the model.
- `JsText.Lower`: lower-cases only the ASCII letters A–Z, so dish names differing only in non-ASCII case count as different. `trim` and `\s` use the full ECMAScript whitespace and line-terminator set.
- Rejection messages are a datatype (`Osechi.Rejection`), with `Osechi.Message` giving the text shown. `setError(null)` at the start of `claimSlot` is UI state and is left out.
- The API routes, the 3D scene and modal components, the recipe fetch effect and its cache, the clipboard copy, the login components and the language tables are left out. They are foreign calls or presentation.
- `{ ...data, id }` in `claimSlot` (src/hooks/useOsechi.ts:101) stores every field the caller passes. src/components/Scene.tsx:117-123 types the slot data with `category`, `origin` and `meaning`, and reads `category` and `origin` back (src/components/Scene.tsx:246, 266-267). The claim form (src/components/ClaimModal.tsx:13, 31) supplies only user, dish and colour. The model's `SlotData` keeps those four fields (with the id), so the wider fields are not modelled.
