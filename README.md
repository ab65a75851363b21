# use-dimensions, modelled in Dafny

`useDimensions` is a React hook. It turns the viewport width into a breakpoint
label (`xs`, `sm`, `md`, …) by looking it up in a threshold table, and keeps a
`{width, height, size}` record current as the window is resized. It also offers
five predicates that compare the current label with another label by their
position in the label list.

This model covers two source files:

- `functions.dfy` (module `Functions`) models `src/utils/functions.tsx`:
  - `takeIf` is a conditional select.
  - `isEqualJSON` compares two objects by their serialisation. It is modelled
    on key/value lists in the order `JSON.stringify` writes them. That order is
    insertion order for keys that are not array indices, which covers every key
    of the tracked record.
  - `findLastIndex` is a method with a backward `while` loop. It is proved
    against the recursive specification `LastIndexWhere`.
- `use_dimensions.dfy` (module `UseDimensions`) models
  `src/hooks/useDimensions/index.ts`:
  - The threshold resolver is `ThresholdIndex` with `SizeOfWindowWidth`.
  - The update policy is the pure pair `Outcome`/`Next` together with the
    method `DimensionTracker.UpdateDimensions`, which implements it step by
    step. The method copies the record, adjusts the copy, compares it with the
    current record and commits only when the two differ.
  - The ordinal comparison engine is the five `IsSize*` predicates of the
    class `DimensionTracker`. Each one reads the record the tracker currently
    holds.

The threshold table (`sizes`, `widths`) comes from a context provider that is
not part of this model. Here it is a constructor argument. The constructor
requires `sizes` and `widths` to have the same non-zero length and `widths` to
be non-decreasing. Whether a browser window exists and its inner size are
constructor arguments too.

The initial record without a browser is the literal `{0, 0, "xxl"}` that the
hook writes (src/hooks/useDimensions/index.ts:45-46). It is not "the last label
of `sizes`". With a custom table that has no `xxl`, that initial label has
rank -1.

## Model

| member | source | states |
|---|---|---|
| `Functions.TakeIf` | src/utils/functions.tsx:5-11 | returns `value` when the condition holds and `defaultValue` otherwise |
| `Functions.IsEqualJSON` | src/utils/functions.tsx:13-15 | two objects compare equal exactly when they list the same keys at the same positions with the same values |
| `Functions.IsEqualJSONReflexive` | src/utils/functions.tsx:13-15 | every object compares equal to itself |
| `Functions.IsEqualJSONSymmetric` | src/utils/functions.tsx:13-15 | the comparison does not depend on argument order |
| `Functions.IsEqualJSONTransitive` | src/utils/functions.tsx:13-15 | objects equal to a common object are equal to each other |
| `Functions.IsEqualJSONSeesKeyOrder` | src/utils/functions.tsx:14 | for two distinct keys that are not array indices, the same two entries inserted in the opposite order compare unequal, because serialisation follows insertion order for such keys |
| `Functions.LastIndexWhere` | src/utils/functions.tsx:21-26 | result lies in -1 .. length-1; a non-negative result satisfies the predicate; no later index satisfies it; so -1 means no element does |
| `Functions.FindLastIndex` | src/utils/functions.tsx:17-27 | a missing array gives -1; a missing predicate gives length-1; otherwise the backward scan returns exactly `LastIndexWhere` (last satisfying index, or -1) |
| `UseDimensions.Configure` | src/hooks/useDimensions/index.ts:23-30 | a missing argument means the default labels and no watching; missing breakpoints mean the default labels; an empty list stays empty; the watch flag holds only when it is given as true |
| `UseDimensions.IndexOf` | src/hooks/useDimensions/index.ts:69-70 | first position of the label, or -1 exactly when it is absent; no earlier position holds it |
| `UseDimensions.IndexOfDistinct` | src/hooks/useDimensions/index.ts:69-70 | in a list without repeats, the position found for the i-th label is i |
| `UseDimensions.OccursBeforeIffFirstPositions` | src/hooks/useDimensions/index.ts:69-70 | for two labels of a list, the first one occurring before any occurrence of the second is the same as its `indexOf` being smaller |
| `UseDimensions.ThresholdIndex` | src/hooks/useDimensions/index.ts:35-36 | a valid index with every later threshold above the width; its own threshold is at or below the width unless every threshold is above it, and in that case the index is 0 |
| `UseDimensions.SizeOfWindowWidth` | src/hooks/useDimensions/index.ts:34-37 | the label of the last threshold at or below the width; the first label when every threshold is above it |
| `UseDimensions.BelowFirstThreshold` | src/hooks/useDimensions/index.ts:35-36 | with sorted thresholds, a width below the first threshold resolves to the first label |
| `UseDimensions.ThresholdIndexMonotone` | src/hooks/useDimensions/index.ts:34-37 | a wider viewport never resolves to an earlier threshold |
| `UseDimensions.ExampleResolutions` | src/hooks/useDimensions/index.ts:34-37 | with labels xs..xxl over 0, 576, 768, 992, 1200, 1400: width 800 gives md, 50 gives xs, 1400 gives xxl, -1 gives xs |
| `UseDimensions.ToJSON` | src/hooks/useDimensions/index.ts:10-14 | the record serialises with the three keys width, height, size in that order, none of them an array index |
| `UseDimensions.EqualJSONIffEqualDimensions` | src/hooks/useDimensions/index.ts:54-60 | a record and its spread copy list their keys in the same order, so the JSON test on them holds exactly when the records are equal |
| `UseDimensions.Accepts` | src/hooks/useDimensions/index.ts:52 | the filter lets a label through exactly when the allow-list is empty or contains it |
| `UseDimensions.Tentative` | src/hooks/useDimensions/index.ts:54-59 | the copy carries the new label; with the watch flag it takes the new width and height, and without it keeps the old ones |
| `UseDimensions.Outcome` | src/hooks/useDimensions/index.ts:50-63 | filtered exactly when the resolved label fails the filter; unchanged exactly when it passes and the copy equals the current record; committed exactly when it passes and the copy differs |
| `UseDimensions.Next` | src/hooks/useDimensions/index.ts:50-63 | a filtered event keeps the current record; otherwise the record afterwards is the adjusted copy, which in the unchanged case equals the current record |
| `UseDimensions.FilteredUpdateKeepsState` | src/hooks/useDimensions/index.ts:51-52 | when the allow-list is non-empty and lacks the resolved label, the event is dropped and the record is unchanged, height included |
| `UseDimensions.FrozenUnlessWatching` | src/hooks/useDimensions/index.ts:54-59 | without the watch flag, width and height after any update equal their values before it |
| `UseDimensions.AcceptedUpdateTakesResolvedSize` | src/hooks/useDimensions/index.ts:53-63 | when the label passes the filter, the record afterwards holds the resolved label, and with the watch flag also the new width and height |
| `UseDimensions.CommittedIffChanged` | src/hooks/useDimensions/index.ts:60-63 | a new record is committed exactly when it differs from the current one; otherwise the old record is kept |
| `UseDimensions.UpdateIdempotent` | src/hooks/useDimensions/index.ts:50-66 | a second update with the same width and height commits nothing and leaves the record of the first update |
| `UseDimensions.AllowListExample` | src/hooks/useDimensions/index.ts:51-52 | with allow-list [xs, sm] and current label sm, a resize to width 800 (which resolves to md) is dropped and the record stays as it was |
| `UseDimensions.FrozenDimensionsExample` | src/hooks/useDimensions/index.ts:54-63 | without the watch flag, record {1024, 768, lg} resized to (600, 400) becomes {1024, 768, sm} |
| `UseDimensions.DimensionTracker.constructor` | src/hooks/useDimensions/index.ts:27-47 | in a browser, the initial record is the inner width and height with the label resolved from the inner width; otherwise it is {0, 0, "xxl"}; the configuration follows the defaults |
| `UseDimensions.DimensionTracker.UpdateDimensions` | src/hooks/useDimensions/index.ts:50-66 | the outcome (filtered, unchanged or committed) and the new record are those of the update policy; a dropped or equal update leaves the record as it was |
| `UseDimensions.DimensionTracker.CurrentAndRequestedSizeIndex` | src/hooks/useDimensions/index.ts:68-72 | both ranks lie in -1 .. length-1; a rank is -1 exactly when its label is missing from `sizes`; otherwise it is the first position holding that label |
| `UseDimensions.DimensionTracker.IsSizeEqualOrLargerThan` | src/hooks/useDimensions/index.ts:74-77 | holds exactly when `IsSizeSmallerThan` does not |
| `UseDimensions.DimensionTracker.IsSizeLargerThan` | src/hooks/useDimensions/index.ts:79-82 | holds exactly when the current label is in `sizes` and the queried label is either missing from `sizes` or occurs before the current label's first occurrence |
| `UseDimensions.DimensionTracker.IsSizeEqualTo` | src/hooks/useDimensions/index.ts:84-87 | holds exactly when the labels are the same or both are missing from `sizes` |
| `UseDimensions.DimensionTracker.IsSizeSmallerThan` | src/hooks/useDimensions/index.ts:89-92 | holds exactly when the queried label is in `sizes` and the current label is either missing from `sizes` or occurs before the queried label's first occurrence |
| `UseDimensions.DimensionTracker.IsSizeEqualOrSmallerThan` | src/hooks/useDimensions/index.ts:94-97 | holds exactly when `IsSizeLargerThan` does not |
| `UseDimensions.DimensionTracker.OrdinalConsistency` | src/hooks/useDimensions/index.ts:74-97 | for labels in `sizes`, exactly one of equal, larger and smaller holds; equal means the same label; the inclusive predicates are larger-or-equal and smaller-or-equal |
| `UseDimensions.DimensionTracker.RankOrder` | src/hooks/useDimensions/index.ts:68-97 | when `sizes` has no repeats and the current label is `sizes[i]`: it is larger than `sizes[j]` iff i > j, equal iff i = j, smaller iff i < j |
| `UseDimensions.DimensionTracker.UnknownSizeRanksLowest` | src/hooks/useDimensions/index.ts:68-82 | a queried label missing from `sizes` ranks -1: larger holds exactly when the current label is known, equal exactly when it is not, larger-or-equal always, smaller never |

## Left out

- React machinery (`useMemo`, `useCallback`, `useState`, `useEffect`). The memoised values are plain fields and functions of the configuration and the current record. `setDimensions` with an updater becomes the assignment in `UpdateDimensions`.
- The resize listener and its removal (src/hooks/useDimensions/index.ts:99-109), and reading `innerWidth`/`innerHeight` off the event target. A resize event is a call to `UpdateDimensions`.
- `isBrowser` (src/utils/functions.tsx:1-3): its `typeof window` test becomes the constructor's `isBrowser` argument. The window's inner size becomes two constructor arguments.
- The context provider `./context` and its `Breakpoint` type are not part of this model. The table is a constructor argument, and a label is a string.
- The internals of `JSON.stringify`. Objects are compared as lists of key/value entries in the order the serialisation writes them. This assumes that equal serialisations come only from equal entry lists, which holds for the integer and string values used here.
- Key reordering by `JSON.stringify`: array-index keys ("0", "1", …) are written first, in numeric order. The model does not compute that order. It states insertion-order sensitivity only for other keys, and the record's keys width, height and size are not array indices.
- The default arguments of `isEqualJSON` (`{}` for a missing object). Its only caller passes both objects.
- Floating-point widths and heights: both are integers here.
- Reconfiguring a live tracker. The hook re-reads its argument and the context on every render while keeping its record (src/hooks/useDimensions/index.ts:29-32). Here the configuration is fixed when the tracker is constructed.
- Identity of records: keeping the old record is modelled as keeping an equal value. The `Unchanged` outcome is what tells a caller that no new record was made.
- `Functions.TakeIf`: the third argument is mandatory. The source's default of `undefined` is not modelled, because its only caller passes all three arguments.
