# Nearby-peripheral list: registry engine and signal normalizer

This project models, in Dafny, the part of the Bluetooth connection dialog
that keeps the list of nearby peripherals:

- **The scanning step's registry engine** (`src/containers/scanning-step.jsx`).
  - It holds a registry of peripheral entries keyed by id, the times of the
    last discovery batch and of the last scan request, and the published
    state `{scanning, peripheralList}`.
  - It reacts to discovery batches, scan timeouts, refresh requests and a
    periodic maintenance tick.
  - The tick sweeps out entries unseen for more than 15 s, republishes when
    a published staleness flag is out of date, and asks for a preserving
    rescan once more than 8 s have passed since both the last batch and the
    last scan request.
- **The signal normalizer** (`src/lib/ble/signal-utils.js`). It classifies
  raw RSSI readings and maps valid ones to a [0, 1] quality, a bar count
  and a percentage.

Modules:

- `Wrappers` (`wrappers.dfy`): `Option`, which stands for an absent
  property and for JavaScript's `null` reading.
- `SignalUtils` (`signal_utils.dfy`): the four normalizer functions on
  integer dBm readings.
  - The quality is an exact `real`, and `Math.ceil` and `Math.round` are
    exact.
  - Integer formulas for the bar count and the percentage are proved equal
    to the real-valued definitions.
- `PeripheralRegistry` (`registry.dfy`): the registry as values.
  - The shallow merge of a batch.
  - The expiration sweep.
  - The enumeration order of the registry's keys, which is insertion order
    because the registry is a JavaScript object.
- `PeripheralSnapshot` (`snapshot.dfy`): the published list.
  - One snapshot per key, with the `isStale` flag and the `peripheralId || id`
    fallback.
  - The sort comparator, and a stable insertion sort by it (as
    `Array.prototype.sort` is stable).
- `ScanningStep` (`scanning_step.dfy`): the engine as a class whose fields
  the handlers update in place.
  - The registry is a `map` plus a `seq` of its keys in enumeration order.
  - The `forEach` loops of the merge, the sweep and the staleness check are
    `while` loops proved against the registry functions above.

Time is the `now` parameter of each handler: one clock reading per handler,
also used by the publish it triggers. `setState` is a synchronous field
assignment. Each request sent to the discovery source is counted in
`scanRequests`.

The engine keeps one invariant besides the key order matching the
registry: the published list is the ranked snapshot of the registry taken
at `publishedAt`, a ghost field holding the time of the last publish
(`ListIsSnapshot`). The tick, the batch handler, the refresh and the scan
timeout keep or re-establish it. A preserving scan request changes neither
the registry nor the list, so it keeps the invariant whenever it held. The
invariant ties the tick's staleness check to the entries that crossed the
6000 ms threshold since `publishedAt`.

A scan request, preserving or not, records only the request time; the time
of the last discovery batch is left as it was (scanning-step.jsx:123-137).

The staleness check of the tick looks each published item's record up by
the item's `peripheralId`, which is the entry's own `peripheralId` when it
has a non-empty one and the key otherwise (scanning-step.jsx:106, 144). So
when every entry's display id is its key, the check fires exactly when some
staleness flag would change (`RefreshIffStaleFlip`). An entry whose
`peripheralId` names no key makes the check fire on every tick, which then
republishes the list each time (`ForeignIdAlwaysRefreshes`).

## Model

| member | source | states |
|---|---|---|
| SignalUtils.Ceil | src/lib/ble/signal-utils.js:46 | `Math.ceil` is the least integer not below its argument |
| SignalUtils.Round | src/lib/ble/signal-utils.js:55 | `Math.round` is the nearest integer, halves rounded up |
| SignalUtils.Sanitize | src/lib/ble/signal-utils.js:10-23 | A reading is valid exactly when it is a number below zero, and a valid reading is returned unchanged. NaN, non-numbers, the sentinel 127, zero and positive values are unknown (`null`). |
| SignalUtils.SanitizeIdempotent | src/lib/ble/signal-utils.js:10-23 | sanitizing a sanitized reading changes nothing |
| SignalUtils.Clamp | src/lib/ble/signal-utils.js:32 | the clamped reading lies in [-100, -20]: it is the reading when inside, -100 at or below -100 and -20 at or above -20 |
| SignalUtils.Normalize | src/lib/ble/signal-utils.js:30-34 | The quality lies in [0, 1]. It is 0 for `null` and for readings at or below -100, and 1 at or above -20. Otherwise it is (clamped + 100) / 80. |
| SignalUtils.NormalizeMonotonic | src/lib/ble/signal-utils.js:30-34 | a stronger reading never has a lower quality |
| SignalUtils.SafeBarCount | src/lib/ble/signal-utils.js:44 | a bar count below 1 is treated as 1; any other is kept |
| SignalUtils.SignalLevel | src/lib/ble/signal-utils.js:42-48 | `null` shows no bars. A reading shows between 1 and `max(1, barCount)` bars: all of them at or above -20, and one at or below -100. |
| SignalUtils.SignalLevelExact | src/lib/ble/signal-utils.js:44-47 | the level is ceil((clamped + 100) * n / 80), clamped into [1, n], in integer arithmetic |
| SignalUtils.SignalLevelMonotonic | src/lib/ble/signal-utils.js:45-47 | a stronger reading never shows fewer bars |
| SignalUtils.SignalPercentage | src/lib/ble/signal-utils.js:55 | the percentage lies in [0, 100]; 0 for `null` and at or below -100, 100 at or above -20 |
| SignalUtils.SignalPercentageExact | src/lib/ble/signal-utils.js:55 | the percentage is round((clamped + 100) * 100 / 80) = floor((5 * (clamped + 100) + 2) / 4) |
| SignalUtils.SignalPercentageMonotonic | src/lib/ble/signal-utils.js:55 | a stronger reading never shows a smaller percentage |
| PeripheralRegistry.Override | src/containers/scanning-step.jsx:68-70 | a property of the incoming object replaces the previous one; an absent one keeps it |
| PeripheralRegistry.MergeEntry | src/containers/scanning-step.jsx:67-72 | Each incoming property overrides the previous entry's (or the empty object's), and absent ones keep their previous value. `lastSeen` is `now`. |
| PeripheralRegistry.MergeEntryIdempotent | src/containers/scanning-step.jsx:67-72 | merging the same observation twice at the same time is merging it once |
| PeripheralRegistry.MergeBatch | src/containers/scanning-step.jsx:65-73 | the registry's ids after a batch are the old ids plus the batch's ids |
| PeripheralRegistry.MergeBatchAt | src/containers/scanning-step.jsx:65-73 | each batch id holds its previous entry merged with its observation; every other id is untouched |
| PeripheralRegistry.MergeBatchSeenNow | src/containers/scanning-step.jsx:65-73 | every id of the batch has `lastSeen == now`; no entry is removed |
| PeripheralRegistry.MergeBatchIdempotent | src/containers/scanning-step.jsx:65-73 | merging the same batch twice at the same time gives the registry of one merge |
| PeripheralRegistry.MergeOrder | src/containers/scanning-step.jsx:65-73 | the keys enumerated after a merge are the old keys and the batch's ids |
| PeripheralRegistry.MergeOrderKeeps | src/containers/scanning-step.jsx:65-73 | a merge keeps the old keys in their places; new ones are appended |
| PeripheralRegistry.MergeOrderAppendsInBatchOrder | src/containers/scanning-step.jsx:64-72 | the keys a merge appends are batch ids new to the old order, in batch order: they sit at strictly increasing batch positions |
| PeripheralRegistry.MergeOrderNoNewIds | src/containers/scanning-step.jsx:65-73 | a batch of known ids leaves the key order as it is |
| PeripheralRegistry.MergeOrderIdempotent | src/containers/scanning-step.jsx:65-73 | merging the same batch twice enumerates the keys of one merge |
| PeripheralRegistry.MergeKeepsKeysMatch | src/containers/scanning-step.jsx:65-73 | after a merge the key order lists the registry's keys, each once |
| PeripheralRegistry.Sweep | src/containers/scanning-step.jsx:94-99 | after the sweep the registry holds exactly the entries with `now - lastSeen <= 15000`, unchanged |
| PeripheralRegistry.SweepPrefix | src/containers/scanning-step.jsx:94-99 | part-way through the sweep, exactly the expired entries among the visited keys are gone |
| PeripheralRegistry.Expired | src/containers/scanning-step.jsx:95 | (definition) an entry has expired when `now - lastSeen > 15000` |
| PeripheralRegistry.SweepOrder | src/containers/scanning-step.jsx:94-99 | the keys enumerated after the sweep are the unexpired ones, no more of them than before |
| PeripheralRegistry.SweepOrderSubsequence | src/containers/scanning-step.jsx:94-99 | the surviving keys keep their old relative order: they sit at strictly increasing positions of the old order |
| PeripheralRegistry.SweepOrderAll | src/containers/scanning-step.jsx:94-99 | when nothing has expired the key order is unchanged |
| PeripheralRegistry.SweepKeepsKeysMatch | src/containers/scanning-step.jsx:94-99 | after the sweep the key order lists the registry's keys, each once |
| PeripheralRegistry.SweepChangesIffExpired | src/containers/scanning-step.jsx:93-99 | the sweep changes the registry exactly when some entry has expired |
| PeripheralRegistry.MergedSurvivesSweep | src/containers/scanning-step.jsx:65-99 | an entry merged at `now` survives a sweep at `now` |
| PeripheralRegistry.ExpiredAfterWindow | src/containers/scanning-step.jsx:95-96 | an entry unseen for more than 15000 ms is gone after the sweep |
| PeripheralSnapshot.IsStale | src/containers/scanning-step.jsx:145 | (definition) an item is stale when `now - lastSeen > 6000` |
| PeripheralSnapshot.DisplayId | src/containers/scanning-step.jsx:144 | the entry's `peripheralId` when present and non-empty, the key otherwise |
| PeripheralSnapshot.FalsyIdFallsBack | src/containers/scanning-step.jsx:68-144 | an observation carrying a falsy `peripheralId` replaces the id held so far, and the merged entry is displayed under its key |
| PeripheralSnapshot.Snap | src/containers/scanning-step.jsx:140-146 | the snapshot carries the entry's properties and display id, and `isStale` exactly when `now - lastSeen > 6000` |
| PeripheralSnapshot.RankReading | src/containers/scanning-step.jsx:148-149 | (definition) the reading an item is ranked by: its sanitized `rssi`, unknown when absent |
| PeripheralSnapshot.RankedBefore | src/containers/scanning-step.jsx:147-162 | (definition) the ranking rule without the comparator: a known reading before an unknown one, then the stronger, then the more recent (ties allowed) |
| PeripheralSnapshot.Compare | src/containers/scanning-step.jsx:147-162 | The comparator returns at most 0 exactly when `a` may go first under the ranking rule, and at least 0 exactly when `b` may. |
| PeripheralSnapshot.CompareAntisymmetric | src/containers/scanning-step.jsx:147-162 | swapping the arguments negates the comparator |
| PeripheralSnapshot.CompareTotal | src/containers/scanning-step.jsx:147-162 | any two items are ordered one way or the other |
| PeripheralSnapshot.CompareTransitive | src/containers/scanning-step.jsx:147-162 | the comparator's order is transitive |
| PeripheralSnapshot.Insert | src/containers/scanning-step.jsx:147 | insertion adds exactly the one item |
| PeripheralSnapshot.InsertSorted | src/containers/scanning-step.jsx:147 | insertion into a sorted list keeps it sorted |
| PeripheralSnapshot.SortPeripherals | src/containers/scanning-step.jsx:147 | the sort is a permutation of its input |
| PeripheralSnapshot.SortPeripheralsSorted | src/containers/scanning-step.jsx:147-162 | the sort's result is sorted by the comparator |
| PeripheralSnapshot.Ties | src/containers/scanning-step.jsx:147-162 | the items tying with a given item, in list order, are items of the list that tie with it |
| PeripheralSnapshot.TieTransitive | src/containers/scanning-step.jsx:147-162 | two items tying with a third tie with each other |
| PeripheralSnapshot.InsertTies | src/containers/scanning-step.jsx:147 | insertion passes over no item that ties with the inserted one |
| PeripheralSnapshot.SortPeripheralsStable | src/containers/scanning-step.jsx:147 | the sort is stable: items that tie keep their relative order |
| PeripheralSnapshot.Snapshots | src/containers/scanning-step.jsx:140-146 | one snapshot per key, in key order |
| PeripheralSnapshot.Publish | src/containers/scanning-step.jsx:140-162 | the published list is a permutation of the snapshots, one item per listed key |
| PeripheralSnapshot.PublishSorted | src/containers/scanning-step.jsx:138-164 | the published list is sorted by the comparator |
| PeripheralSnapshot.PublishStable | src/containers/scanning-step.jsx:140-162 | items that tie under the comparator (same reading, same `lastSeen`) are published in key enumeration order |
| PeripheralSnapshot.PublishCoversRegistry | src/containers/scanning-step.jsx:140-146 | the published list has one item per entry: each item is some key's snapshot, and every key's snapshot is present |
| PeripheralSnapshot.PublishRanked | src/containers/scanning-step.jsx:147-162 | In the published list, known readings come before unknown ones. Stronger readings come first, and equal readings go most recent first. Unknown readings go most recent first. |
| ScanningStep.NeedsRefresh | src/containers/scanning-step.jsx:106-109 | (definition) a published item needs a refresh when no record is found under its `peripheralId` or its `isStale` flag no longer matches the record |
| ScanningStep.AnyNeedsRefresh | src/containers/scanning-step.jsx:105-110 | (definition) some published item needs a refresh |
| ScanningStep.ShouldUpdate | src/containers/scanning-step.jsx:105-110 | the `some` scan answers true exactly when some published item has no record under its id or a recomputed `isStale` that differs |
| ScanningStep.SweepKeys | src/containers/scanning-step.jsx:94-99 | the sweep loop leaves the swept registry and key order; `removed` exactly when a key was dropped |
| ScanningStep.RefreshIffStaleFlip | src/containers/scanning-step.jsx:101-114 | When every entry's display id is its key, the check fires on a list published from the current registry exactly when some entry crossed the 6000 ms threshold in between. So then a tick at publication time never republishes. |
| ScanningStep.ForeignIdAlwaysRefreshes | src/containers/scanning-step.jsx:105-110 | an entry whose display id names no key makes the staleness check fire on every tick, even one at publication time |
| ScanningStep.ExpiredNotRepublished | src/containers/scanning-step.jsx:93-102 | an expired entry makes the tick republish, and no republished item is its snapshot |
| ScanningStep.QuietSweep | src/containers/scanning-step.jsx:93-114 | when no entry has expired, the sweep keeps the registry and key order; then, with display ids equal to keys, the staleness check on the list published at `published` fires exactly when some entry crossed the 6000 ms threshold since |
| ScanningStep.StaleFlagSurfaces | src/containers/scanning-step.jsx:101-114 | when no entry has expired, an entry displayed under its own key that went stale since publication triggers a republish that shows it flagged stale |
| ScanningStep.StaleEntrySurvivesSweep | src/containers/scanning-step.jsx:94-102 | a stale, unexpired entry is in the list republished after the sweep, flagged stale, also when other entries expired; and when some entry expired, the tick republishes whatever the published list was |
| ScanningStep.StaleIsPermanent | src/containers/scanning-step.jsx:145 | once stale, an entry stays stale as time goes on |
| ScanningStep.TickRepublishes | src/containers/scanning-step.jsx:101-113 | (definition) the tick republishes after a deletion, or when the list is non-empty and the staleness check fires on the swept registry |
| ScanningStep.ShouldRescan | src/containers/scanning-step.jsx:116-117 | (definition) a rescan is due when both the last batch and the last scan request are more than 8000 ms old |
| ScanningStep.RescanSpacing | src/containers/scanning-step.jsx:116-117 | no rescan is requested within 8000 ms of the last scan request |
| ScanningStep.ScanningStep.constructor | src/containers/scanning-step.jsx:24-31 | scanning, empty list and registry, both timers 0, no scan request sent; the empty list is the snapshot of the empty registry |
| ScanningStep.ScanningStep.HandlePeripheralScanTimeout | src/containers/scanning-step.jsx:55-61 | not scanning, empty list and registry; timers untouched; the list is the registry's snapshot |
| ScanningStep.ScanningStep.PublishPeripheralList | src/containers/scanning-step.jsx:138-164 | the list becomes the ranked snapshots of the registry at `now`, and `publishedAt` is `now` |
| ScanningStep.ScanningStep.MergeObservation | src/containers/scanning-step.jsx:66-73 | the entry under the id becomes the merged entry; a new id is enumerated last |
| ScanningStep.ScanningStep.MergeBatchIntoRegistry | src/containers/scanning-step.jsx:65-77 | the registry and key order become those of the merge, and still match |
| ScanningStep.ScanningStep.HandlePeripheralListUpdate | src/containers/scanning-step.jsx:62-87 | the batch is merged, `lastListUpdate` is `now` even for an empty batch, and the list is always republished: it is the merged registry's snapshot at `now` |
| ScanningStep.ScanningStep.HandleRefresh | src/containers/scanning-step.jsx:88-90 | a non-preserving scan request: scanning, empty list and registry, one more request at `now`; keeps the snapshot invariant |
| ScanningStep.ScanningStep.StartScan | src/containers/scanning-step.jsx:123-137 | Both modes send one request, record its time and set `scanning`. A preserving request keeps the registry and list; any other request empties both, so the empty list is the empty registry's snapshot. |
| ScanningStep.ScanningStep.ResumeScan | src/containers/scanning-step.jsx:123-131 | a preserving request: one more request at `now`, `scanning` set, nothing else changed |
| ScanningStep.ScanningStep.SweepExpired | src/containers/scanning-step.jsx:93-99 | the registry becomes the sweep's; `removed` exactly when some entry had expired |
| ScanningStep.ScanningStep.RepublishAfterSweep | src/containers/scanning-step.jsx:101-114 | republish after a deletion; otherwise, for a non-empty list, exactly when the staleness check fires; either way the list is the registry's snapshot at `publishedAt` |
| ScanningStep.ScanningStep.SweepAndRepublish | src/containers/scanning-step.jsx:93-114 | the sweep followed by the publish decision: the list is republished at `now` exactly when `TickRepublishes`, and stays the registry's snapshot |
| ScanningStep.ScanningStep.RescanIfDue | src/containers/scanning-step.jsx:116-121 | Exactly when both timers are older than 8000 ms, one preserving request is sent at `now` and `scanning` is set. The registry, list, `publishedAt` and `lastListUpdate` are unchanged. |
| ScanningStep.ScanningStep.HandleMaintenanceTick | src/containers/scanning-step.jsx:91-122 | The tick's combined effect: the sweep, then a republish at `now` exactly when `TickRepublishes`, then a preserving rescan when due; the list stays the registry's snapshot at `publishedAt`. With nothing expired and display ids equal to keys, the staleness check fires exactly when some entry crossed the 6000 ms threshold since `publishedAt`. `lastListUpdate` is unchanged. |

## Left out

- React lifecycle and rendering are not modelled: the mount and unmount hooks, `render`, and the `setInterval` timer (scanning-step.jsx:33-54, 165 onwards). The tick is a method the environment calls with the current time; `MAINTENANCE_TICK_MS` is only declared.
- Event wiring (`vm.on`, `removeListener`) is not modelled.
- `vm.scanForPeripheral` is a call into the VM. The model counts calls in `scanRequests`; the extension id it passes is not modelled.
- React's `setState` is asynchronous and batched. The model assigns the published state at once.
- `Date.now()` is not read. Each handler takes `now`, and the `publishPeripheralList` and `startScan` it calls use that same `now`. The code reads the clock again inside both (scanning-step.jsx:125, 139), so the snapshot time and the recorded scan-request time can be slightly later than the handler's.
- The `hasChanges` flag of the merge is not modelled. Both branches that use it publish, and `previous` is never falsy, so it changes nothing.
- Readings are integers. Fractional readings and IEEE-754 rounding at bucket boundaries are not modelled, and neither is `-Infinity`, which `sanitizeRSSI` accepts.
- `SignalUtils.Normalize`, `SignalUtils.SignalLevel` and `SignalUtils.SignalPercentage` take a sanitized reading (`null` or a number). The behaviour of the JavaScript functions on `undefined` or NaN is not modelled.
- The default `barCount = 4` of `getSignalLevel` is not modelled: the bar count is always passed.
- Observations carry only `name`, `rssi` and `peripheralId`. Other properties are spread along unchanged by the code and do not affect the modelled behaviour.
- A `peripheralId` carried with a falsy non-string value (`null`, `undefined`, `0`) is modelled as `Some("")`: it overrides the previous id in the merge and the display falls back to the key, as in the code. Other non-string ids (a number, an object) are not modelled.
- A `name` carried as `null` or `undefined` overrides the previous name in the spread. `Option<string>` cannot hold that value, so such a name is not modelled.
- Key enumeration order is insertion order. JavaScript enumerates integer-like keys first, in ascending numeric order; that rule is not modelled. Keys such as `__proto__` are not modelled either.
- The handlers accept any `now`, in any order. With `Date.now()` the times never go back, so `lastSeen` never decreases and a later tick never sees a fresher entry; the model does not assume this.
- The sweep loop (`SweepKeys`) deletes from a local copy of the registry. The registry fields are assigned once the loop is done, which is equivalent because no other code runs during the loop.
- The presentation tile that draws the bars (`peripheral-tile.jsx`) is not part of this model, and neither is the bundled default project.
