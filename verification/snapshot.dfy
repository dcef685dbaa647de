/**
 * The published peripheral list: one snapshot per registry entry, with
 * the staleness flag and the id fallback, sorted by the ranking
 * comparator. The sort is stable (as Array.prototype.sort is), so entries
 * the comparator ties keep the registry's key enumeration order.
 */
module PeripheralSnapshot {
  import opened Wrappers
  import opened SignalUtils
  import opened PeripheralRegistry

  /** A published list item: the entry's properties, the display id and `isStale`. */
  datatype Peripheral = Peripheral(
    peripheralId: string,
    name: Option<string>,
    rssi: Option<Raw>,
    lastSeen: int,
    isStale: bool)

  predicate IsStale(lastSeen: int, now: int) {
    now - lastSeen > STALE_THRESHOLD_MS
  }

  /** `entry.peripheralId || id`: an absent or empty id falls back to the key. */
  function DisplayId(id: string, e: Entry): (r: string)
    ensures e.peripheralId.Some? && e.peripheralId.value != "" ==> r == e.peripheralId.value
    ensures e.peripheralId.None? || e.peripheralId.value == "" ==> r == id
  {
    if e.peripheralId.Some? && e.peripheralId.value != "" then e.peripheralId.value else id
  }

  /**
   * An observation carrying a falsy `peripheralId` replaces the id held so
   * far, and the merged entry is displayed under its key.
   */
  lemma FalsyIdFallsBack(id: string, previous: Option<Entry>, incoming: Observation, now: int)
    requires incoming.peripheralId == Some("")
    ensures DisplayId(id, MergeEntry(previous, incoming, now)) == id
  {
  }

  /** The snapshot of the registry entry stored under `id`, taken at `now`. */
  function Snap(id: string, e: Entry, now: int): (p: Peripheral)
    ensures p.peripheralId == DisplayId(id, e)
    ensures p.name == e.name && p.rssi == e.rssi && p.lastSeen == e.lastSeen
    ensures p.isStale <==> now - e.lastSeen > STALE_THRESHOLD_MS
  {
    Peripheral(DisplayId(id, e), e.name, e.rssi, e.lastSeen, IsStale(e.lastSeen, now))
  }

  /** The reading used for ranking: the sanitized `rssi`, unknown when absent. */
  function RankReading(p: Peripheral): Option<int> {
    if p.rssi.Some? then Sanitize(p.rssi.value) else None
  }

  /**
   * The ranking rule, stated without the comparator: known readings first,
   * then the stronger reading, then the more recently seen.
   */
  predicate RankedBefore(a: Peripheral, b: Peripheral) {
    var ra := RankReading(a);
    var rb := RankReading(b);
    if ra.Some? && rb.Some? then
      ra.value > rb.value || (ra.value == rb.value && a.lastSeen >= b.lastSeen)
    else if ra.Some? then true
    else if rb.Some? then false
    else a.lastSeen >= b.lastSeen
  }

  /**
   * The sort comparator: negative when `a` goes first, positive when `b`
   * goes first, zero on a tie.
   */
  function Compare(a: Peripheral, b: Peripheral): (r: int)
    ensures r <= 0 <==> RankedBefore(a, b)
    ensures r >= 0 <==> RankedBefore(b, a)
  {
    var ra := RankReading(a);
    var rb := RankReading(b);
    if ra.None? && rb.None? then b.lastSeen - a.lastSeen
    else if ra.None? then 1
    else if rb.None? then -1
    else if ra.value != rb.value then rb.value - ra.value
    else b.lastSeen - a.lastSeen
  }

  /** Swapping the arguments negates the comparator. */
  lemma CompareAntisymmetric(a: Peripheral, b: Peripheral)
    ensures Compare(a, b) == -Compare(b, a)
  {
  }

  /** The comparator is a total preorder, so the sort's result is well defined. */
  lemma CompareTotal(a: Peripheral, b: Peripheral)
    ensures Compare(a, b) <= 0 || Compare(b, a) <= 0
  {
  }

  lemma CompareTransitive(a: Peripheral, b: Peripheral, c: Peripheral)
    requires Compare(a, b) <= 0 && Compare(b, c) <= 0
    ensures Compare(a, c) <= 0
  {
  }

  ghost predicate Sorted(s: seq<Peripheral>) {
    forall i, j :: 0 <= i < j < |s| ==> Compare(s[i], s[j]) <= 0
  }

  /**
   * Inserts `x` in front of the first element it does not rank after; on a
   * tie `x` goes first, which keeps the sort below stable.
   */
  function Insert(x: Peripheral, s: seq<Peripheral>): (r: seq<Peripheral>)
    ensures multiset(r) == multiset(s) + multiset{x}
    ensures |r| == |s| + 1
  {
    if s == [] then [x]
    else if Compare(x, s[0]) <= 0 then [x] + s
    else
      assert s == [s[0]] + s[1..];
      [s[0]] + Insert(x, s[1..])
  }

  /** Putting in front an item that ranks no later than every item keeps a list sorted. */
  lemma ConsSorted(h: Peripheral, t: seq<Peripheral>)
    requires Sorted(t)
    requires forall j :: 0 <= j < |t| ==> Compare(h, t[j]) <= 0
    ensures Sorted([h] + t)
  {
    var r := [h] + t;
    forall i, j | 0 <= i < j < |r| ensures Compare(r[i], r[j]) <= 0 {
      assert r[j] == t[j - 1];
      if i > 0 {
        assert r[i] == t[i - 1];
      }
    }
  }

  /** An item ranking no later than `x` and every item of `s` ranks no later than any item of the insertion. */
  lemma InsertBelow(h: Peripheral, x: Peripheral, s: seq<Peripheral>)
    requires Compare(h, x) <= 0
    requires forall j :: 0 <= j < |s| ==> Compare(h, s[j]) <= 0
    ensures forall j :: 0 <= j < |Insert(x, s)| ==> Compare(h, Insert(x, s)[j]) <= 0
  {
    var r := Insert(x, s);
    forall j | 0 <= j < |r| ensures Compare(h, r[j]) <= 0 {
      assert r[j] in multiset(r);
      if r[j] != x {
        assert r[j] in multiset(s);
        var k :| 0 <= k < |s| && s[k] == r[j];
      }
    }
  }

  lemma {:induction false} InsertSorted(x: Peripheral, s: seq<Peripheral>)
    requires Sorted(s)
    ensures Sorted(Insert(x, s))
  {
    if s == [] {
    } else if Compare(x, s[0]) <= 0 {
      forall j | 0 <= j < |s| ensures Compare(x, s[j]) <= 0 {
        if j > 0 { CompareTransitive(x, s[0], s[j]); }
      }
      ConsSorted(x, s);
    } else {
      var rest := s[1..];
      InsertSorted(x, rest);
      CompareTotal(x, s[0]);
      forall j | 0 <= j < |rest| ensures Compare(s[0], rest[j]) <= 0 {
        assert rest[j] == s[j + 1];
      }
      InsertBelow(s[0], x, rest);
      ConsSorted(s[0], Insert(x, rest));
    }
  }

  /** Insertion sort by the comparator. */
  function SortPeripherals(s: seq<Peripheral>): (r: seq<Peripheral>)
    ensures multiset(r) == multiset(s)
    ensures |r| == |s|
  {
    if s == [] then []
    else
      assert s == [s[0]] + s[1..];
      Insert(s[0], SortPeripherals(s[1..]))
  }

  lemma {:induction false} SortPeripheralsSorted(s: seq<Peripheral>)
    ensures Sorted(SortPeripherals(s))
  {
    if s != [] {
      SortPeripheralsSorted(s[1..]);
      InsertSorted(s[0], SortPeripherals(s[1..]));
    }
  }

  /** The items of `s` that tie with `x` under the comparator, in their order in `s`. */
  function Ties(s: seq<Peripheral>, x: Peripheral): (r: seq<Peripheral>)
    ensures |r| <= |s|
    ensures forall p :: p in r ==> p in s && Compare(p, x) == 0
  {
    if s == [] then []
    else (if Compare(s[0], x) == 0 then [s[0]] else []) + Ties(s[1..], x)
  }

  /** Tying is an equivalence: two items tying with a third tie with each other. */
  lemma TieTransitive(a: Peripheral, b: Peripheral, x: Peripheral)
    requires Compare(a, x) == 0 && Compare(b, x) == 0
    ensures Compare(a, b) == 0
  {
  }

  /** No item tying with `y` is passed over when `y` is inserted. */
  lemma {:induction false} InsertTies(y: Peripheral, t: seq<Peripheral>, x: Peripheral)
    ensures Ties(Insert(y, t), x) == (if Compare(y, x) == 0 then [y] else []) + Ties(t, x)
  {
    if t == [] {
    } else if Compare(y, t[0]) <= 0 {
      assert ([y] + t)[1..] == t;
    } else {
      var r := Insert(y, t);
      assert r == [t[0]] + Insert(y, t[1..]);
      assert r[1..] == Insert(y, t[1..]);
      InsertTies(y, t[1..], x);
      if Compare(t[0], x) == 0 && Compare(y, x) == 0 {
        TieTransitive(y, t[0], x);
      }
    }
  }

  /** The sort is stable: the items tying with any `x` keep their relative order. */
  lemma {:induction false} SortPeripheralsStable(s: seq<Peripheral>, x: Peripheral)
    ensures Ties(SortPeripherals(s), x) == Ties(s, x)
  {
    if s != [] {
      SortPeripheralsStable(s[1..], x);
      InsertTies(s[0], SortPeripherals(s[1..]), x);
    }
  }

  /** One snapshot per key, in key order. */
  function Snapshots(order: seq<string>, m: map<string, Entry>, now: int): (r: seq<Peripheral>)
    requires forall k :: k in order ==> k in m
    ensures |r| == |order|
    ensures forall i :: 0 <= i < |order| ==> r[i] == Snap(order[i], m[order[i]], now)
  {
    if order == [] then []
    else [Snap(order[0], m[order[0]], now)] + Snapshots(order[1..], m, now)
  }

  /** publishPeripheralList: the snapshots of the registry, ranked. */
  function Publish(order: seq<string>, m: map<string, Entry>, now: int): (r: seq<Peripheral>)
    requires forall k :: k in order ==> k in m
    ensures |r| == |order|
    ensures multiset(r) == multiset(Snapshots(order, m, now))
  {
    SortPeripherals(Snapshots(order, m, now))
  }

  /** The published list is sorted by the comparator. */
  lemma PublishSorted(order: seq<string>, m: map<string, Entry>, now: int)
    requires forall k :: k in order ==> k in m
    ensures Sorted(Publish(order, m, now))
  {
    SortPeripheralsSorted(Snapshots(order, m, now));
  }

  /**
   * Items the comparator ties (same reading class and value, same
   * `lastSeen`) are published in key enumeration order.
   */
  lemma PublishStable(order: seq<string>, m: map<string, Entry>, now: int, x: Peripheral)
    requires forall k :: k in order ==> k in m
    ensures Ties(Publish(order, m, now), x) == Ties(Snapshots(order, m, now), x)
  {
    SortPeripheralsStable(Snapshots(order, m, now), x);
  }

  /**
   * The published list holds one snapshot per registry key: as many items
   * as keys, each the snapshot of some key's entry, and every key's
   * snapshot present.
   */
  lemma PublishCoversRegistry(order: seq<string>, m: map<string, Entry>, now: int)
    requires KeysMatch(order, m)
    ensures |Publish(order, m, now)| == |m|
    ensures forall p :: p in Publish(order, m, now) ==>
              exists k :: k in m && p == Snap(k, m[k], now)
    ensures forall k :: k in m ==> Snap(k, m[k], now) in Publish(order, m, now)
  {
    var snaps := Snapshots(order, m, now);
    var pub := Publish(order, m, now);
    assert multiset(pub) == multiset(snaps);
    forall p | p in pub ensures exists k :: k in m && p == Snap(k, m[k], now) {
      assert p in multiset(snaps);
      var i :| 0 <= i < |snaps| && snaps[i] == p;
      assert order[i] in m;
    }
    forall k | k in m ensures Snap(k, m[k], now) in pub {
      var i :| 0 <= i < |order| && order[i] == k;
      assert snaps[i] in multiset(pub);
    }
  }

  /**
   * The ranking rule read off the published list: an item with a known
   * reading never follows one without; among known readings the stronger
   * goes first and equal readings go most recent first; items without a
   * reading go most recent first.
   */
  lemma PublishRanked(order: seq<string>, m: map<string, Entry>, now: int, i: int, j: int)
    requires forall k :: k in order ==> k in m
    requires 0 <= i < j < |Publish(order, m, now)|
    ensures var p, q := Publish(order, m, now)[i], Publish(order, m, now)[j];
            && (RankReading(q).Some? ==> RankReading(p).Some?)
            && (RankReading(p).Some? && RankReading(q).Some? ==>
                  RankReading(p).value > RankReading(q).value
                  || (RankReading(p).value == RankReading(q).value && p.lastSeen >= q.lastSeen))
            && (RankReading(p).None? && RankReading(q).None? ==> p.lastSeen >= q.lastSeen)
  {
    PublishSorted(order, m, now);
  }
}
