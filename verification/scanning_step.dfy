/**
 * The scanning step's registry engine: the peripheral registry, the two
 * timers and the published state `{scanning, peripheralList}`, updated by
 * the discovery handlers, the maintenance tick and the scan commands.
 *
 * Time is the `now` parameter of each handler (one clock reading per
 * handler); publishing the state is a plain field assignment; each scan
 * request sent to the discovery source is counted in `scanRequests`.
 */
module ScanningStep {
  import opened Wrappers
  import opened PeripheralRegistry
  import opened PeripheralSnapshot

  /**
   * A published item must be refreshed when no record is found under its
   * id or its `isStale` flag no longer matches the record.
   */
  predicate NeedsRefresh(item: Peripheral, m: map<string, Entry>, now: int) {
    item.peripheralId !in m || item.isStale != IsStale(m[item.peripheralId].lastSeen, now)
  }

  predicate AnyNeedsRefresh(list: seq<Peripheral>, m: map<string, Entry>, now: int) {
    exists i :: 0 <= i < |list| && NeedsRefresh(list[i], m, now)
  }

  /** The `some` scan of the maintenance tick over the published list. */
  method ShouldUpdate(list: seq<Peripheral>, m: map<string, Entry>, now: int) returns (b: bool)
    ensures b <==> AnyNeedsRefresh(list, m, now)
  {
    b := false;
    var i := 0;
    while i < |list| && !b
      invariant 0 <= i <= |list|
      invariant b ==> i > 0 && NeedsRefresh(list[i - 1], m, now)
      invariant !b ==> forall j :: 0 <= j < i ==> !NeedsRefresh(list[j], m, now)
    {
      var item := list[i];
      if item.peripheralId !in m {
        b := true;
      } else {
        var isStale := now - m[item.peripheralId].lastSeen > STALE_THRESHOLD_MS;
        b := item.isStale != isStale;
      }
      i := i + 1;
    }
  }

  /**
   * The `forEach` of the expiration sweep: visits the keys in order and
   * deletes each expired one. Returns the surviving keys in order, the
   * registry without the deleted entries, and whether anything was deleted.
   */
  method SweepKeys(keys: seq<string>, m: map<string, Entry>, now: int)
    returns (kept: seq<string>, swept: map<string, Entry>, removed: bool)
    requires KeysMatch(keys, m)
    ensures kept == SweepOrder(keys, m, now)
    ensures swept == SweepPrefix(m, keys, now)
    ensures removed <==> |kept| < |keys|
  {
    swept := m;
    kept := [];
    removed := false;
    var i := 0;
    while i < |keys|
      invariant 0 <= i <= |keys|
      invariant kept == SweepOrder(keys[..i], m, now)
      invariant swept == SweepPrefix(m, keys[..i], now)
      invariant removed <==> |kept| < i
    {
      var id := keys[i];
      SweepStep(m, keys, i, now);
      if now - swept[id].lastSeen > EXPIRATION_THRESHOLD_MS {
        swept := swept - {id};
        removed := true;
      } else {
        kept := kept + [id];
      }
      i := i + 1;
    }
    assert keys[..i] == keys;
  }

  /** Some entry's staleness differs between the times `published` and `now`. */
  predicate StaleFlip(m: map<string, Entry>, published: int, now: int) {
    exists k :: k in m && IsStale(m[k].lastSeen, published) != IsStale(m[k].lastSeen, now)
  }

  /** Every entry's display id is its own key, as when observations carry their key as id. */
  predicate IdsAreKeys(m: map<string, Entry>) {
    forall k :: k in m ==> DisplayId(k, m[k]) == k
  }

  /**
   * For a list published at `published` from the current registry, the tick at
   * `now` finds something to refresh exactly when some entry crossed the
   * stale threshold in between. In particular a tick at the time of the
   * publication never republishes.
   */
  lemma RefreshIffStaleFlip(order: seq<string>, m: map<string, Entry>, published: int, now: int)
    requires KeysMatch(order, m) && IdsAreKeys(m)
    ensures AnyNeedsRefresh(Publish(order, m, published), m, now) <==> StaleFlip(m, published, now)
  {
    var list := Publish(order, m, published);
    PublishCoversRegistry(order, m, published);
    if AnyNeedsRefresh(list, m, now) {
      var i :| 0 <= i < |list| && NeedsRefresh(list[i], m, now);
      assert list[i] in list;
      var k :| k in m && list[i] == Snap(k, m[k], published);
      assert IsStale(m[k].lastSeen, published) != IsStale(m[k].lastSeen, now);
    }
    if StaleFlip(m, published, now) {
      var k :| k in m && IsStale(m[k].lastSeen, published) != IsStale(m[k].lastSeen, now);
      var p := Snap(k, m[k], published);
      assert p in list;
      var i :| 0 <= i < |list| && list[i] == p;
      assert NeedsRefresh(list[i], m, now);
    }
  }

  /**
   * A sweep that deletes nothing leaves the registry and its key order as
   * they were; the list published from them then needs a refresh exactly
   * when a staleness flag flipped since, provided display ids are keys.
   */
  lemma QuietSweep(order: seq<string>, m: map<string, Entry>, list: seq<Peripheral>, published: int, now: int)
    requires KeysMatch(order, m) && list == Publish(order, m, published) && !AnyExpired(m, now)
    ensures Sweep(m, now) == m && SweepOrder(order, m, now) == order
    ensures IdsAreKeys(m) ==> (AnyNeedsRefresh(list, m, now) <==> StaleFlip(m, published, now))
  {
    SweepChangesIffExpired(m, now);
    SweepOrderAll(order, m, now);
    if IdsAreKeys(m) {
      RefreshIffStaleFlip(order, m, published, now);
    }
  }

  /**
   * The staleness check looks records up by the published id, not by the
   * key: an entry whose display id names no key makes every tick find
   * something to refresh, even a tick at the time of the publication.
   */
  lemma ForeignIdAlwaysRefreshes(order: seq<string>, m: map<string, Entry>, k: string, published: int, now: int)
    requires KeysMatch(order, m) && k in m && DisplayId(k, m[k]) !in m
    ensures AnyNeedsRefresh(Publish(order, m, published), m, now)
  {
    var list := Publish(order, m, published);
    PublishCoversRegistry(order, m, published);
    assert Snap(k, m[k], published) in list;
    var i :| 0 <= i < |list| && list[i] == Snap(k, m[k], published);
    assert NeedsRefresh(list[i], m, now);
  }

  /**
   * An entry unseen for longer than the expiration window makes the tick
   * republish, and the republished list holds no snapshot of it: every
   * item is the snapshot of another, unexpired entry.
   */
  lemma ExpiredNotRepublished(order: seq<string>, m: map<string, Entry>, id: string, now: int)
    requires KeysMatch(order, m) && id in m && Expired(m[id], now)
    ensures AnyExpired(m, now)
    ensures forall p :: p in Publish(SweepOrder(order, m, now), Sweep(m, now), now) ==>
              exists k :: k in m && k != id && !Expired(m[k], now) && p == Snap(k, m[k], now)
  {
    var swept := Sweep(m, now);
    SweepKeepsKeysMatch(order, m, now);
    PublishCoversRegistry(SweepOrder(order, m, now), swept, now);
    forall p | p in Publish(SweepOrder(order, m, now), swept, now)
      ensures exists k :: k in m && k != id && !Expired(m[k], now) && p == Snap(k, m[k], now)
    {
      var k :| k in swept && p == Snap(k, swept[k], now);
      assert k in m && swept[k] == m[k];
    }
  }

  /**
   * An entry that was fresh when the list was published, is stale now and
   * has not expired makes the tick republish (when its display id is its
   * key), and the republished list shows it, flagged stale.
   */
  lemma StaleFlagSurfaces(order: seq<string>, m: map<string, Entry>, id: string, published: int, now: int)
    requires KeysMatch(order, m) && id in m && DisplayId(id, m[id]) == id
    requires !IsStale(m[id].lastSeen, published) && IsStale(m[id].lastSeen, now)
    requires !AnyExpired(m, now)
    ensures AnyNeedsRefresh(Publish(order, m, published), m, now)
    ensures Sweep(m, now) == m && SweepOrder(order, m, now) == order
    ensures Snap(id, m[id], now) in Publish(order, m, now) && Snap(id, m[id], now).isStale
  {
    var list := Publish(order, m, published);
    PublishCoversRegistry(order, m, published);
    PublishCoversRegistry(order, m, now);
    assert Snap(id, m[id], published) in list;
    var i :| 0 <= i < |list| && list[i] == Snap(id, m[id], published);
    assert NeedsRefresh(list[i], m, now);
    SweepChangesIffExpired(m, now);
    SweepOrderAll(order, m, now);
  }

  /**
   * An entry that is stale but has not expired is in the list the tick
   * republishes after its sweep, flagged stale, whether or not other
   * entries expired in that sweep; when one did, the tick republishes
   * whatever the published `list` was.
   */
  lemma StaleEntrySurvivesSweep(order: seq<string>, m: map<string, Entry>, list: seq<Peripheral>, id: string, now: int)
    requires KeysMatch(order, m) && id in m && !Expired(m[id], now) && IsStale(m[id].lastSeen, now)
    ensures AnyExpired(m, now) ==> TickRepublishes(m, list, now)
    ensures Snap(id, m[id], now) in Publish(SweepOrder(order, m, now), Sweep(m, now), now)
    ensures Snap(id, m[id], now).isStale
  {
    SweepKeepsKeysMatch(order, m, now);
    PublishCoversRegistry(SweepOrder(order, m, now), Sweep(m, now), now);
  }

  /** Once an entry is stale it stays stale as time goes on. */
  lemma StaleIsPermanent(lastSeen: int, earlier: int, now: int)
    requires earlier <= now && IsStale(lastSeen, earlier)
    ensures IsStale(lastSeen, now)
  {
  }

  /**
   * The tick republishes after deleting an expired entry, or when the
   * published list is not empty and the staleness check fires on the
   * swept registry.
   */
  predicate TickRepublishes(m: map<string, Entry>, list: seq<Peripheral>, now: int) {
    AnyExpired(m, now) || (|list| > 0 && AnyNeedsRefresh(list, Sweep(m, now), now))
  }

  /** A preserving rescan is due when both timers are older than the rescan interval. */
  predicate ShouldRescan(lastListUpdate: int, lastScanRequest: int, now: int) {
    now - lastListUpdate > AUTO_RESCAN_INTERVAL_MS && now - lastScanRequest > AUTO_RESCAN_INTERVAL_MS
  }

  /** No rescan is due within the rescan interval of the last scan request. */
  lemma RescanSpacing(lastListUpdate: int, lastScanRequest: int, now: int)
    requires now <= lastScanRequest + AUTO_RESCAN_INTERVAL_MS
    ensures !ShouldRescan(lastListUpdate, lastScanRequest, now)
  {
  }

  class ScanningStep {
    /** The registry, and the enumeration order of its keys. */
    var peripheralMap: map<string, Entry>
    var keyOrder: seq<string>
    /** Time of the last discovery batch, and of the last scan request. */
    var lastListUpdate: int
    var lastScanRequest: int
    /** The published state. */
    var scanning: bool
    var peripheralList: seq<Peripheral>
    /** Number of scan requests sent to the discovery source. */
    var scanRequests: nat
    /** The time of the snapshot the published list was taken at. */
    ghost var publishedAt: int

    ghost predicate Valid()
      reads this`peripheralMap, this`keyOrder
    {
      KeysMatch(keyOrder, peripheralMap)
    }

    /**
     * The published list holds no state of its own: it is the registry's
     * ranked snapshot taken at `publishedAt`.
     */
    ghost predicate ListIsSnapshot()
      reads this`peripheralList, this`peripheralMap, this`keyOrder, this`publishedAt
    {
      Valid() && peripheralList == Publish(keyOrder, peripheralMap, publishedAt)
    }

    constructor ()
      ensures Valid() && ListIsSnapshot()
      ensures scanning && peripheralList == []
      ensures peripheralMap == map[] && keyOrder == []
      ensures lastListUpdate == 0 && lastScanRequest == 0 && scanRequests == 0
    {
      scanning := true;
      peripheralList := [];
      peripheralMap := map[];
      keyOrder := [];
      lastListUpdate := 0;
      lastScanRequest := 0;
      scanRequests := 0;
      publishedAt := 0;
    }

    /** The discovery source gave up: stop scanning and forget every peripheral. */
    method HandlePeripheralScanTimeout()
      requires Valid()
      modifies this`scanning, this`peripheralList, this`peripheralMap, this`keyOrder
      ensures Valid() && ListIsSnapshot()
      ensures !scanning && peripheralList == []
      ensures peripheralMap == map[] && keyOrder == []
    {
      scanning := false;
      peripheralList := [];
      peripheralMap := map[];
      keyOrder := [];
    }

    /** Publishes the ranked snapshots of the registry taken at `now`. */
    method PublishPeripheralList(now: int)
      requires Valid()
      modifies this`peripheralList, this`publishedAt
      ensures peripheralList == Publish(keyOrder, peripheralMap, now)
      ensures publishedAt == now && ListIsSnapshot()
    {
      var snapshots := Snapshots(keyOrder, peripheralMap, now);
      peripheralList := SortPeripherals(snapshots);
      publishedAt := now;
    }

    /**
     * The per-id step of a merge: the incoming properties over the entry
     * held for `id` (or over nothing), stamped with `now`; a new id is
     * enumerated after the existing ones.
     */
    method MergeObservation(id: string, incoming: Observation, now: int)
      requires Valid()
      modifies this`peripheralMap, this`keyOrder
      ensures Valid()
      ensures peripheralMap == old(peripheralMap)[id := MergeEntry(Lookup(old(peripheralMap), id), incoming, now)]
      ensures keyOrder == if id in old(keyOrder) then old(keyOrder) else old(keyOrder) + [id]
    {
      var previous := Lookup(peripheralMap, id);
      if id !in peripheralMap {
        keyOrder := keyOrder + [id];
      }
      peripheralMap := peripheralMap[id := MergeEntry(previous, incoming, now)];
    }

    /** The loop of a merge: every observation of the batch, in batch order. */
    method MergeBatchIntoRegistry(batch: Batch, now: int)
      requires Valid()
      modifies this`peripheralMap, this`keyOrder
      ensures Valid()
      ensures peripheralMap == MergeBatch(old(peripheralMap), batch, now)
      ensures keyOrder == MergeOrder(old(keyOrder), batch)
    {
      var i := 0;
      while i < |batch|
        invariant 0 <= i <= |batch|
        invariant Valid()
        invariant peripheralMap == MergeBatch(old(peripheralMap), batch[..i], now)
        invariant keyOrder == MergeOrder(old(keyOrder), batch[..i])
      {
        MergeBatchStep(old(peripheralMap), batch, i, now);
        MergeOrderStep(old(keyOrder), batch, i);
        MergeObservation(batch[i].0, batch[i].1, now);
        i := i + 1;
      }
      assert batch[..i] == batch;
    }

    /**
     * A discovery batch arrived: merge each observation over the entry
     * already held for its id, stamp it with `now`, then publish. An empty
     * batch still counts as an update of the list.
     */
    method HandlePeripheralListUpdate(batch: Batch, now: int)
      requires Valid()
      modifies this`peripheralMap, this`keyOrder, this`lastListUpdate, this`peripheralList, this`publishedAt
      ensures Valid() && ListIsSnapshot() && publishedAt == now
      ensures peripheralMap == MergeBatch(old(peripheralMap), batch, now)
      ensures keyOrder == MergeOrder(old(keyOrder), batch)
      ensures lastListUpdate == now
      ensures peripheralList == Publish(keyOrder, peripheralMap, now)
    {
      MergeBatchIntoRegistry(batch, now);
      lastListUpdate := now;
      PublishPeripheralList(now);
    }

    /** The caller asked for a fresh scan. */
    method HandleRefresh(now: int)
      requires Valid() && ListIsSnapshot()
      modifies this`scanning, this`lastScanRequest, this`scanRequests, this`peripheralMap, this`keyOrder, this`peripheralList
      ensures Valid() && ListIsSnapshot()
      ensures scanning && peripheralList == [] && peripheralMap == map[] && keyOrder == []
      ensures lastScanRequest == now && scanRequests == old(scanRequests) + 1
    {
      StartScan(false, now);
    }

    /**
     * Sends a scan request. A preserving request keeps the registry and
     * the list; any other request clears both.
     */
    method StartScan(preserveList: bool, now: int)
      requires Valid()
      modifies this`scanning, this`lastScanRequest, this`scanRequests, this`peripheralMap, this`keyOrder, this`peripheralList
      ensures Valid() && (!preserveList ==> ListIsSnapshot())
      ensures scanning && lastScanRequest == now && scanRequests == old(scanRequests) + 1
      ensures preserveList ==> && peripheralMap == old(peripheralMap) && keyOrder == old(keyOrder)
                               && peripheralList == old(peripheralList)
      ensures !preserveList ==> peripheralMap == map[] && keyOrder == [] && peripheralList == []
    {
      if preserveList {
        ResumeScan(now);
        return;
      }
      scanRequests := scanRequests + 1;
      lastScanRequest := now;
      peripheralMap := map[];
      keyOrder := [];
      scanning := true;
      peripheralList := [];
    }

    /**
     * A preserving scan request (`startScan(true)`): sends the request,
     * records its time and sets the scanning flag; the registry and the
     * published list are outside its frame.
     */
    method ResumeScan(now: int)
      modifies this`scanning, this`lastScanRequest, this`scanRequests
      ensures scanning && lastScanRequest == now && scanRequests == old(scanRequests) + 1
    {
      scanRequests := scanRequests + 1;
      lastScanRequest := now;
      if !scanning {
        scanning := true;
      }
    }

    /**
     * The first step of the maintenance tick: delete every entry unseen
     * for longer than the expiration window, visiting the keys in order.
     */
    method SweepExpired(now: int) returns (removed: bool)
      requires Valid()
      modifies this`peripheralMap, this`keyOrder
      ensures unchanged(this`scanning, this`lastScanRequest, this`scanRequests, this`lastListUpdate)
      ensures Valid()
      ensures peripheralMap == Sweep(old(peripheralMap), now)
      ensures keyOrder == SweepOrder(old(keyOrder), old(peripheralMap), now)
      ensures removed <==> AnyExpired(old(peripheralMap), now)
    {
      var kept, swept;
      kept, swept, removed := SweepKeys(keyOrder, peripheralMap, now);
      SweepLoopDone(peripheralMap, keyOrder, now, kept, swept);
      peripheralMap := swept;
      keyOrder := kept;
    }

    /**
     * The tick's decision to publish: always after a deletion, otherwise
     * only when some published item no longer matches the registry.
     */
    method RepublishAfterSweep(removed: bool, now: int)
      requires Valid() && (!removed ==> ListIsSnapshot())
      modifies this`peripheralList, this`publishedAt
      ensures unchanged(this`scanning, this`lastScanRequest, this`scanRequests, this`lastListUpdate)
      ensures ListIsSnapshot()
      ensures var republish := removed || (|old(peripheralList)| > 0 && AnyNeedsRefresh(old(peripheralList), peripheralMap, now));
              && peripheralList == (if republish then Publish(keyOrder, peripheralMap, now) else old(peripheralList))
              && publishedAt == (if republish then now else old(publishedAt))
    {
      if removed {
        PublishPeripheralList(now);
      } else if |peripheralList| > 0 {
        var shouldUpdate := ShouldUpdate(peripheralList, peripheralMap, now);
        if shouldUpdate {
          PublishPeripheralList(now);
        }
      }
    }

    /**
     * The periodic maintenance: sweep out expired entries, republish when
     * something was removed or a published staleness flag is out of date,
     * and request a preserving rescan when discovery has gone quiet. When
     * nothing expired and every display id is a key, the staleness check
     * fires exactly when some entry crossed the stale threshold since the
     * list was published.
     */
    method HandleMaintenanceTick(now: int)
      requires Valid() && ListIsSnapshot()
      modifies this`scanning, this`lastScanRequest, this`scanRequests, this`peripheralMap, this`keyOrder,
               this`peripheralList, this`publishedAt
      ensures Valid() && ListIsSnapshot()
      ensures peripheralMap == Sweep(old(peripheralMap), now)
      ensures keyOrder == SweepOrder(old(keyOrder), old(peripheralMap), now)
      ensures var republish := TickRepublishes(old(peripheralMap), old(peripheralList), now);
              && peripheralList == (if republish then Publish(keyOrder, peripheralMap, now) else old(peripheralList))
              && publishedAt == (if republish then now else old(publishedAt))
      ensures !AnyExpired(old(peripheralMap), now) && IdsAreKeys(old(peripheralMap)) ==>
                (AnyNeedsRefresh(old(peripheralList), peripheralMap, now) <==> StaleFlip(old(peripheralMap), old(publishedAt), now))
      ensures var rescan := ShouldRescan(old(lastListUpdate), old(lastScanRequest), now);
              && lastScanRequest == (if rescan then now else old(lastScanRequest))
              && scanRequests == old(scanRequests) + (if rescan then 1 else 0)
              && scanning == (rescan || old(scanning))
    {
      SweepAndRepublish(now);
      RescanIfDue(now);
    }

    /** The first two steps of the tick: the expiration sweep, then the decision to publish. */
    method SweepAndRepublish(now: int)
      requires Valid() && ListIsSnapshot()
      modifies this`peripheralMap, this`keyOrder, this`peripheralList, this`publishedAt
      ensures unchanged(this`scanning, this`lastScanRequest, this`scanRequests, this`lastListUpdate)
      ensures Valid() && ListIsSnapshot()
      ensures peripheralMap == Sweep(old(peripheralMap), now)
      ensures keyOrder == SweepOrder(old(keyOrder), old(peripheralMap), now)
      ensures var republish := TickRepublishes(old(peripheralMap), old(peripheralList), now);
              && peripheralList == (if republish then Publish(keyOrder, peripheralMap, now) else old(peripheralList))
              && publishedAt == (if republish then now else old(publishedAt))
      ensures !AnyExpired(old(peripheralMap), now) && IdsAreKeys(old(peripheralMap)) ==>
                (AnyNeedsRefresh(old(peripheralList), peripheralMap, now) <==> StaleFlip(old(peripheralMap), old(publishedAt), now))
    {
      ghost var m0, order0, published0 := peripheralMap, keyOrder, publishedAt;
      var removed := SweepExpired(now);
      if !removed {
        QuietSweep(order0, m0, peripheralList, published0, now);
      }
      RepublishAfterSweep(removed, now);
    }

    /**
     * The last step of the tick: a preserving scan request once neither a
     * discovery batch nor a scan request happened within the rescan interval.
     */
    method RescanIfDue(now: int)
      modifies this`scanning, this`lastScanRequest, this`scanRequests
      ensures unchanged(this`peripheralList, this`keyOrder, this`peripheralMap, this`publishedAt, this`lastListUpdate)
      ensures var rescan := ShouldRescan(lastListUpdate, old(lastScanRequest), now);
              && lastScanRequest == (if rescan then now else old(lastScanRequest))
              && scanRequests == old(scanRequests) + (if rescan then 1 else 0)
              && scanning == (rescan || old(scanning))
    {
      var shouldRescan := now - lastListUpdate > AUTO_RESCAN_INTERVAL_MS
                          && now - lastScanRequest > AUTO_RESCAN_INTERVAL_MS;
      if shouldRescan {
        ResumeScan(now);
      }
    }
  }
}
