/**
 * The peripheral registry as values: the entries kept per peripheral id,
 * the shallow merge of a discovery batch into them, the expiration sweep,
 * and the enumeration order of the registry's keys.
 *
 * The registry of the scanning step is a JavaScript object; its contents
 * are modelled by a `map` and its key enumeration order (insertion order)
 * by a duplicate-free `seq` of the same keys.
 */
module PeripheralRegistry {
  import opened Wrappers
  import opened SignalUtils

  /** A published entry is stale once unseen for more than this (ms). */
  const STALE_THRESHOLD_MS: int := 6000
  /** An entry unseen for more than this (ms) is removed. */
  const EXPIRATION_THRESHOLD_MS: int := 15000
  /** A preserving rescan is requested once both timers are older than this (ms). */
  const AUTO_RESCAN_INTERVAL_MS: int := 8000
  /** Period of the maintenance tick (ms); the tick itself is driven from outside. */
  const MAINTENANCE_TICK_MS: int := 2000

  /**
   * One observation of a peripheral in a discovery batch. Each property is
   * None when the observation does not carry it. A `peripheralId` carried
   * with a falsy value (null, undefined, 0) is Some(""): like the original
   * value it overrides the previous id, and the display falls back to the
   * key. An `rssi` carried as null or another non-number is Some(NotANumber).
   */
  datatype Observation = Observation(
    name: Option<string>,
    rssi: Option<Raw>,
    peripheralId: Option<string>)

  /** A registry entry: the merged properties plus the time it was last seen. */
  datatype Entry = Entry(
    name: Option<string>,
    rssi: Option<Raw>,
    peripheralId: Option<string>,
    lastSeen: int)

  /** A discovery batch: peripheral ids with their observations. */
  type Batch = seq<(string, Observation)>

  /** The ids of a batch. */
  function Ids(batch: Batch): set<string> {
    set p | p in batch :: p.0
  }

  /** A batch comes from an object, so no id occurs twice. */
  predicate DistinctIds(batch: Batch) {
    forall i, j :: 0 <= i < j < |batch| ==> batch[i].0 != batch[j].0
  }

  function Lookup(m: map<string, Entry>, id: string): Option<Entry> {
    if id in m then Some(m[id]) else None
  }

  /** A property of the incoming object overrides the previous one. */
  function Override<T>(previous: Option<T>, incoming: Option<T>): (r: Option<T>)
    ensures incoming.Some? ==> r == incoming
    ensures incoming.None? ==> r == previous
  {
    if incoming.Some? then incoming else previous
  }

  /**
   * `{...previous, ...incoming, lastSeen: now}`, where a missing previous
   * entry is the empty object.
   */
  function MergeEntry(previous: Option<Entry>, incoming: Observation, now: int): (e: Entry)
    ensures e.lastSeen == now
    ensures incoming.name.Some? ==> e.name == incoming.name
    ensures incoming.rssi.Some? ==> e.rssi == incoming.rssi
    ensures incoming.peripheralId.Some? ==> e.peripheralId == incoming.peripheralId
    ensures incoming.name.None? ==> e.name == (if previous.Some? then previous.value.name else None)
    ensures incoming.rssi.None? ==> e.rssi == (if previous.Some? then previous.value.rssi else None)
    ensures incoming.peripheralId.None? ==>
              e.peripheralId == (if previous.Some? then previous.value.peripheralId else None)
  {
    match previous
    case None => Entry(incoming.name, incoming.rssi, incoming.peripheralId, now)
    case Some(p) =>
      Entry(Override(p.name, incoming.name), Override(p.rssi, incoming.rssi),
            Override(p.peripheralId, incoming.peripheralId), now)
  }

  /** Merging the same observation twice at the same time is merging it once. */
  lemma MergeEntryIdempotent(previous: Option<Entry>, incoming: Observation, now: int)
    ensures MergeEntry(Some(MergeEntry(previous, incoming, now)), incoming, now)
            == MergeEntry(previous, incoming, now)
  {
  }

  /** The registry after merging the batch one observation at a time, in batch order. */
  function MergeBatch(m: map<string, Entry>, batch: Batch, now: int): (r: map<string, Entry>)
    ensures r.Keys == m.Keys + Ids(batch)
  {
    if batch == [] then m
    else
      var rest := MergeBatch(m, batch[..|batch| - 1], now);
      var (id, incoming) := batch[|batch| - 1];
      assert Ids(batch) == Ids(batch[..|batch| - 1]) + {id} by {
        assert batch == batch[..|batch| - 1] + [batch[|batch| - 1]];
      }
      rest[id := MergeEntry(Lookup(rest, id), incoming, now)]
  }

  /**
   * What a merge does to each id: an id of the batch holds its previous
   * entry (if any) merged with its observation; any other id is untouched.
   */
  lemma {:induction false} MergeBatchAt(m: map<string, Entry>, batch: Batch, now: int)
    requires DistinctIds(batch)
    ensures forall j :: 0 <= j < |batch| ==>
              Lookup(MergeBatch(m, batch, now), batch[j].0)
              == Some(MergeEntry(Lookup(m, batch[j].0), batch[j].1, now))
    ensures forall id :: id !in Ids(batch) ==> Lookup(MergeBatch(m, batch, now), id) == Lookup(m, id)
  {
    if batch != [] {
      var prefix := batch[..|batch| - 1];
      IdsLast(batch);
      MergeBatchAt(m, prefix, now);
      forall j | 0 <= j < |batch| - 1
        ensures Lookup(MergeBatch(m, batch, now), batch[j].0)
                == Some(MergeEntry(Lookup(m, batch[j].0), batch[j].1, now))
      {
        assert prefix[j] == batch[j];
      }
    }
  }

  /** The ids of a batch are those of its prefix plus the last one, which is new in a distinct batch. */
  lemma IdsLast(batch: Batch)
    requires batch != []
    ensures Ids(batch) == Ids(batch[..|batch| - 1]) + {batch[|batch| - 1].0}
    ensures DistinctIds(batch) ==> batch[|batch| - 1].0 !in Ids(batch[..|batch| - 1])
  {
    var prefix := batch[..|batch| - 1];
    assert batch == prefix + [batch[|batch| - 1]];
    if DistinctIds(batch) {
      forall p | p in prefix ensures p.0 != batch[|batch| - 1].0 {
        var i :| 0 <= i < |prefix| && prefix[i] == p;
      }
    }
  }

  /** Merging the same batch twice at the same time gives the registry of one merge. */
  lemma MergeBatchIdempotent(m: map<string, Entry>, batch: Batch, now: int)
    requires DistinctIds(batch)
    ensures MergeBatch(MergeBatch(m, batch, now), batch, now) == MergeBatch(m, batch, now)
  {
    var once := MergeBatch(m, batch, now);
    var twice := MergeBatch(once, batch, now);
    MergeBatchAt(m, batch, now);
    MergeBatchAt(once, batch, now);
    forall id | id in twice ensures id in once && twice[id] == once[id] {
      if id in Ids(batch) {
        var j :| 0 <= j < |batch| && batch[j].0 == id;
        MergeEntryIdempotent(Lookup(m, id), batch[j].1, now);
        assert Lookup(twice, id) == Lookup(once, id);
      } else {
        assert Lookup(twice, id) == Lookup(once, id);
      }
    }
    assert twice.Keys == once.Keys;
  }

  /** Every entry a merge touched was seen at `now`; a batch never removes an entry. */
  lemma MergeBatchSeenNow(m: map<string, Entry>, batch: Batch, now: int)
    requires DistinctIds(batch)
    ensures forall id :: id in Ids(batch) ==> MergeBatch(m, batch, now)[id].lastSeen == now
    ensures m.Keys <= MergeBatch(m, batch, now).Keys
  {
    MergeBatchAt(m, batch, now);
    forall id | id in Ids(batch) ensures MergeBatch(m, batch, now)[id].lastSeen == now {
      var j :| 0 <= j < |batch| && batch[j].0 == id;
    }
  }

  /** One more observation merged: the recursion of MergeBatch read forwards. */
  lemma MergeBatchStep(m: map<string, Entry>, batch: Batch, i: int, now: int)
    requires 0 <= i < |batch|
    ensures var r := MergeBatch(m, batch[..i], now);
            MergeBatch(m, batch[..i + 1], now)
            == r[batch[i].0 := MergeEntry(Lookup(r, batch[i].0), batch[i].1, now)]
  {
    assert batch[..i + 1][..i] == batch[..i];
  }

  /** No key is listed twice. */
  ghost predicate Distinct(order: seq<string>) {
    forall i, j :: 0 <= i < j < |order| ==> order[i] != order[j]
  }

  /**
   * `order` lists exactly the keys of `m`, each once: the same members,
   * and as many listed keys as entries (see ListedSetSize).
   */
  ghost predicate KeysMatch(order: seq<string>, m: map<string, Entry>) {
    && (forall k :: k in order <==> k in m)
    && |order| == |m|
  }

  /**
   * A listing of a set is at least as long as the set, and exactly as long
   * when no member is listed twice.
   */
  lemma {:induction false} ListedSetSize(order: seq<string>, s: set<string>)
    requires forall k :: k in order <==> k in s
    ensures |s| <= |order|
    ensures Distinct(order) <==> |s| == |order|
  {
    if order == [] {
      assert s == {};
    } else {
      var x := order[0];
      var rest := order[1..];
      assert order == [x] + rest;
      if x in rest {
        ListedSetSize(rest, s);
        var j :| 0 <= j < |rest| && rest[j] == x;
        assert order[0] == order[j + 1];
      } else {
        ListedSetSize(rest, s - {x});
        if Distinct(rest) {
          forall i, j | 0 <= i < j < |order| ensures order[i] != order[j] {
            if i == 0 { assert order[j] == rest[j - 1]; }
            else { assert order[i] == rest[i - 1] && order[j] == rest[j - 1]; }
          }
        }
        if Distinct(order) {
          forall i, j | 0 <= i < j < |rest| ensures rest[i] != rest[j] {
            assert rest[i] == order[i + 1] && rest[j] == order[j + 1];
          }
        }
      }
    }
  }

  lemma KeysMatchDistinct(order: seq<string>, m: map<string, Entry>)
    requires KeysMatch(order, m)
    ensures Distinct(order)
  {
    ListedSetSize(order, m.Keys);
  }

  /** Key order after a merge: ids new to the object are appended in batch order. */
  function MergeOrder(order: seq<string>, batch: Batch): (r: seq<string>)
    ensures forall k :: k in r <==> k in order || k in Ids(batch)
  {
    if batch == [] then order
    else
      var rest := MergeOrder(order, batch[..|batch| - 1]);
      var id := batch[|batch| - 1].0;
      assert Ids(batch) == Ids(batch[..|batch| - 1]) + {id} by {
        assert batch == batch[..|batch| - 1] + [batch[|batch| - 1]];
      }
      if id in rest then rest else rest + [id]
  }

  /** A merge keeps every old key in place and appends the new ones, each once. */
  lemma {:induction false} MergeOrderKeeps(order: seq<string>, batch: Batch)
    ensures |order| <= |MergeOrder(order, batch)|
    ensures MergeOrder(order, batch)[..|order|] == order
  {
    if batch != [] {
      MergeOrderKeeps(order, batch[..|batch| - 1]);
    }
  }

  /**
   * The keys a merge appends are batch ids new to `order`, in batch order:
   * the appended key `i` is the id at batch position `pos[i]`, and those
   * positions increase.
   */
  lemma {:induction false} MergeOrderAppendsInBatchOrder(order: seq<string>, batch: Batch) returns (pos: seq<int>)
    ensures |order| + |pos| == |MergeOrder(order, batch)|
    ensures forall i :: 0 <= i < |pos| ==>
              0 <= pos[i] < |batch| && batch[pos[i]].0 == MergeOrder(order, batch)[|order| + i]
              && batch[pos[i]].0 !in order
    ensures forall i, j :: 0 <= i < j < |pos| ==> pos[i] < pos[j]
  {
    if batch == [] {
      pos := [];
    } else {
      var prefix := batch[..|batch| - 1];
      var id := batch[|batch| - 1].0;
      var prev := MergeOrderAppendsInBatchOrder(order, prefix);
      var rest := MergeOrder(order, prefix);
      if id in rest {
        pos := prev;
      } else {
        pos := prev + [|batch| - 1];
      }
    }
  }

  /** One more id enumerated: the recursion of MergeOrder read forwards. */
  lemma MergeOrderStep(order: seq<string>, batch: Batch, i: int)
    requires 0 <= i < |batch|
    ensures var o := MergeOrder(order, batch[..i]);
            MergeOrder(order, batch[..i + 1]) == if batch[i].0 in o then o else o + [batch[i].0]
  {
    assert batch[..i + 1][..i] == batch[..i];
  }

  /** Merging the same batch twice adds no key the first merge did not add. */
  lemma MergeOrderIdempotent(order: seq<string>, batch: Batch)
    ensures MergeOrder(MergeOrder(order, batch), batch) == MergeOrder(order, batch)
  {
    MergeOrderNoNewIds(MergeOrder(order, batch), batch);
  }

  lemma {:induction false} MergeOrderNoNewIds(order: seq<string>, batch: Batch)
    requires forall k :: k in Ids(batch) ==> k in order
    ensures MergeOrder(order, batch) == order
  {
    if batch != [] {
      var prefix := batch[..|batch| - 1];
      forall k | k in Ids(prefix) ensures k in order {
        var p :| p in prefix && p.0 == k;
        assert p in batch;
      }
      MergeOrderNoNewIds(order, prefix);
      assert batch[|batch| - 1] in batch;
    }
  }

  /** A merge keeps the key order and the registry in step. */
  lemma {:induction false} MergeKeepsKeysMatch(order: seq<string>, m: map<string, Entry>, batch: Batch, now: int)
    requires KeysMatch(order, m)
    ensures KeysMatch(MergeOrder(order, batch), MergeBatch(m, batch, now))
  {
    if batch != [] {
      MergeKeepsKeysMatch(order, m, batch[..|batch| - 1], now);
    }
  }

  /** An entry has expired when unseen for strictly more than the expiration window. */
  predicate Expired(e: Entry, now: int) {
    now - e.lastSeen > EXPIRATION_THRESHOLD_MS
  }

  /** The registry after the expiration sweep: the unexpired entries, unchanged. */
  function Sweep(m: map<string, Entry>, now: int): (r: map<string, Entry>)
    ensures forall k :: k in r <==> k in m && !Expired(m[k], now)
    ensures forall k :: k in r ==> r[k] == m[k]
  {
    map k | k in m && !Expired(m[k], now) :: m[k]
  }

  /** The registry part-way through the sweep: the entries of `m` except the expired ones among `done`. */
  function SweepPrefix(m: map<string, Entry>, done: seq<string>, now: int): (r: map<string, Entry>)
    ensures forall k :: k in r <==> k in m && !(k in done && Expired(m[k], now))
    ensures forall k :: k in r ==> r[k] == m[k]
  {
    map k | k in m && !(k in done && Expired(m[k], now)) :: m[k]
  }

  lemma SweepPrefixStep(m: map<string, Entry>, done: seq<string>, id: string, now: int)
    requires id in m
    ensures SweepPrefix(m, done + [id], now)
            == if Expired(m[id], now) then SweepPrefix(m, done, now) - {id} else SweepPrefix(m, done, now)
  {
    var a := SweepPrefix(m, done + [id], now);
    var b := if Expired(m[id], now) then SweepPrefix(m, done, now) - {id} else SweepPrefix(m, done, now);
    forall k ensures k in a <==> k in b {
      assert k in done + [id] <==> k in done || k == id;
    }
  }

  /** One more key visited by the sweep, for a key order that lists the registry's keys. */
  lemma SweepStep(m: map<string, Entry>, order: seq<string>, i: int, now: int)
    requires KeysMatch(order, m) && 0 <= i < |order|
    ensures order[i] in SweepPrefix(m, order[..i], now)
    ensures SweepPrefix(m, order[..i], now)[order[i]] == m[order[i]]
    ensures SweepPrefix(m, order[..i + 1], now)
            == if Expired(m[order[i]], now) then SweepPrefix(m, order[..i], now) - {order[i]}
               else SweepPrefix(m, order[..i], now)
    ensures SweepOrder(order[..i + 1], m, now)
            == SweepOrder(order[..i], m, now) + (if Expired(m[order[i]], now) then [] else [order[i]])
  {
    assert order[..i + 1] == order[..i] + [order[i]];
    KeysMatchDistinct(order, m);
    assert order[i] !in order[..i];
    SweepPrefixStep(m, order[..i], order[i], now);
  }

  /** The sweep drops a key of `order` exactly when one of them has expired. */
  lemma {:induction false} SweepOrderShorter(order: seq<string>, m: map<string, Entry>, now: int)
    requires forall k :: k in order ==> k in m
    ensures |SweepOrder(order, m, now)| < |order| <==> exists k :: k in order && Expired(m[k], now)
  {
    if order != [] {
      var prefix := order[..|order| - 1];
      var id := order[|order| - 1];
      assert order == prefix + [id];
      SweepOrderShorter(prefix, m, now);
      if exists k :: k in order && Expired(m[k], now) {
        var k :| k in order && Expired(m[k], now);
        assert k in prefix || k == id;
      }
    }
  }

  /** Once every key is done, the partial sweep is the sweep. */
  lemma SweepPrefixAll(m: map<string, Entry>, order: seq<string>, now: int)
    requires KeysMatch(order, m)
    ensures SweepPrefix(m, order, now) == Sweep(m, now)
  {
  }

  /** Whether the sweep at `now` deletes anything. */
  predicate AnyExpired(m: map<string, Entry>, now: int) {
    exists k :: k in m && Expired(m[k], now)
  }

  lemma SweepChangesIffExpired(m: map<string, Entry>, now: int)
    ensures Sweep(m, now) == m <==> !AnyExpired(m, now)
  {
    if AnyExpired(m, now) {
      var k :| k in m && Expired(m[k], now);
      assert k !in Sweep(m, now);
    }
  }

  /** Key order after the sweep: the unexpired keys, in their old order. */
  function SweepOrder(order: seq<string>, m: map<string, Entry>, now: int): (r: seq<string>)
    requires forall k :: k in order ==> k in m
    ensures forall k :: k in r <==> k in order && !Expired(m[k], now)
    ensures |r| <= |order|
  {
    if order == [] then []
    else
      var prefix := order[..|order| - 1];
      var id := order[|order| - 1];
      assert order == prefix + [id];
      var rest := SweepOrder(prefix, m, now);
      if Expired(m[id], now) then rest else rest + [id]
  }

  /**
   * The sweep keeps the surviving keys in their old relative order: each
   * survivor sits at a position of `order`, and those positions increase.
   */
  lemma {:induction false} SweepOrderSubsequence(order: seq<string>, m: map<string, Entry>, now: int)
    returns (pos: seq<int>)
    requires forall k :: k in order ==> k in m
    ensures |pos| == |SweepOrder(order, m, now)|
    ensures forall i :: 0 <= i < |pos| ==> 0 <= pos[i] < |order| && order[pos[i]] == SweepOrder(order, m, now)[i]
    ensures forall i, j :: 0 <= i < j < |pos| ==> pos[i] < pos[j]
  {
    if order == [] {
      pos := [];
    } else {
      var prefix := order[..|order| - 1];
      var id := order[|order| - 1];
      assert order == prefix + [id];
      var prev := SweepOrderSubsequence(prefix, m, now);
      if Expired(m[id], now) {
        pos := prev;
      } else {
        pos := prev + [|order| - 1];
      }
    }
  }

  /** When nothing has expired, the sweep keeps the key order as it is. */
  lemma {:induction false} SweepOrderAll(order: seq<string>, m: map<string, Entry>, now: int)
    requires forall k :: k in order ==> k in m
    requires !AnyExpired(m, now)
    ensures SweepOrder(order, m, now) == order
  {
    if order != [] {
      var prefix := order[..|order| - 1];
      assert order == prefix + [order[|order| - 1]];
      SweepOrderAll(prefix, m, now);
    }
  }

  /** The sweep keeps the key order and the registry in step. */
  lemma {:induction false} SweepKeepsKeysMatch(order: seq<string>, m: map<string, Entry>, now: int)
    requires KeysMatch(order, m)
    ensures KeysMatch(SweepOrder(order, m, now), Sweep(m, now))
  {
    KeysMatchDistinct(order, m);
    SweepOrderDistinct(order, m, now);
    ListedSetSize(SweepOrder(order, m, now), Sweep(m, now).Keys);
  }

  lemma {:induction false} SweepOrderDistinct(order: seq<string>, m: map<string, Entry>, now: int)
    requires forall k :: k in order ==> k in m
    requires Distinct(order)
    ensures Distinct(SweepOrder(order, m, now))
  {
    if order != [] {
      var prefix := order[..|order| - 1];
      assert order == prefix + [order[|order| - 1]];
      SweepOrderDistinct(prefix, m, now);
    }
  }

  /** What the sweep loop has built once it has visited every key. */
  lemma SweepLoopDone(m: map<string, Entry>, order: seq<string>, now: int,
                      kept: seq<string>, swept: map<string, Entry>)
    requires KeysMatch(order, m)
    requires kept == SweepOrder(order, m, now) && swept == SweepPrefix(m, order, now)
    ensures swept == Sweep(m, now)
    ensures KeysMatch(kept, swept)
    ensures |kept| < |order| <==> AnyExpired(m, now)
  {
    SweepPrefixAll(m, order, now);
    SweepKeepsKeysMatch(order, m, now);
    SweepOrderShorter(order, m, now);
    if AnyExpired(m, now) {
      var k :| k in m && Expired(m[k], now);
      assert k in order;
    }
  }

  /** An entry merged at `now` survives a sweep at `now`. */
  lemma MergedSurvivesSweep(m: map<string, Entry>, batch: Batch, now: int)
    requires DistinctIds(batch)
    ensures Ids(batch) <= Sweep(MergeBatch(m, batch, now), now).Keys
  {
    MergeBatchSeenNow(m, batch, now);
  }

  /** An entry is gone after a sweep more than the expiration window after it was last seen. */
  lemma ExpiredAfterWindow(m: map<string, Entry>, id: string, now: int)
    requires id in m && now > m[id].lastSeen + EXPIRATION_THRESHOLD_MS
    ensures id !in Sweep(m, now)
  {
  }
}
