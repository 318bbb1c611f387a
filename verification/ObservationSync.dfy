/** Query accounting: what the persisted counts say about the queries that were really made. */
module ObservationSync {
  import opened Strings
  import opened TTLQueues
  import opened Observations

  type Statuses = map<string, seq<ObservedDomain>>
  type SyncedCounts = map<string, Synced>

  /** The store and the synced counts live in the process; the statuses live in the API server. */
  datatype World = World(store: StoreState, syncedCounts: SyncedCounts, statuses: Statuses)

  const EMPTY_WORLD := World(EMPTY_STORE, map[], map[])

  function StatusOf(statuses: Statuses, key: string): seq<ObservedDomain> {
    if key in statuses then statuses[key] else []
  }

  function SyncedOf(syncedCounts: SyncedCounts, key: string): Synced {
    if key in syncedCounts then syncedCounts[key] else map[]
  }

  /** One reconcile of one observation object: the synced counts move on even if the status write fails. */
  ghost predicate SyncRel(before: World, key: string, fails: bool, after: World) {
    var live, synced := before.store.domains, SyncedOf(before.syncedCounts, key);
    && after.store == before.store
    && after.syncedCounts == before.syncedCounts[key := NewSynced(live, synced)]
    && if fails then after.statuses == before.statuses
       else
         && key in after.statuses
         && IsMergeOf(StatusOf(before.statuses, key), live, synced, after.statuses[key])
         && after.statuses == before.statuses[key := after.statuses[key]]
  }

  lemma SyncRelHolds(before: World, key: string, fails: bool, merged: seq<ObservedDomain>)
    requires IsMergeOf(StatusOf(before.statuses, key), before.store.domains, SyncedOf(before.syncedCounts, key), merged)
    ensures var synced := NewSynced(before.store.domains, SyncedOf(before.syncedCounts, key));
            SyncRel(before, key, fails, World(before.store, before.syncedCounts[key := synced],
                                              if fails then before.statuses else before.statuses[key := merged]))
  {
    hide IsMergeOf, NewSynced;
  }

  class ObservationReconciler {
    var syncedCounts: SyncedCounts
    var statuses: Statuses

    constructor ()
      ensures syncedCounts == map[] && statuses == map[]
    {
      syncedCounts, statuses := map[], map[];
    }

    method Reconcile(key: string, snoop: ObservationStore, statusFails: bool) returns (ok: bool)
      modifies this
      ensures ok == !statusFails
      ensures SyncRel(World(snoop.State(), old(syncedCounts), old(statuses)), key, statusFails,
                      World(snoop.State(), syncedCounts, statuses))
    {
      hide IsMergeOf, NewSynced, SyncRel;
      if key !in syncedCounts {
        syncedCounts := syncedCounts[key := map[]];
      }
      var lastSynced := syncedCounts[key];
      var live := snoop.AllDomains();
      var merged, synced := MergeObservedDomains(StatusOf(statuses, key), live, lastSynced);
      syncedCounts := syncedCounts[key := synced];
      assert syncedCounts == old(syncedCounts)[key := synced];
      SyncRelHolds(World(snoop.State(), old(syncedCounts), statuses), key, statusFails, merged);
      if statusFails {
        return false;
      }
      statuses := statuses[key := merged];
      return true;
    }
  }

  // ---- runs ----

  datatype Event =
    | Query(hostname: string, now: Time, later: Time)
    | Sync(key: string, fails: bool)
    | Restart
    | Recreated(key: string)  // the object deleted and created again under the same name

  ghost predicate StepRel(before: World, e: Event, after: World) {
    match e
    case Query(hostname, now, later) => after == before.(store := Queried(before.store, hostname, now, later))
    case Sync(key, fails) => SyncRel(before, key, fails, after)
    case Restart => after == World(EMPTY_STORE, map[], before.statuses)
    case Recreated(key) => after == before.(statuses := before.statuses - {key})
  }

  ghost predicate IsRun(worlds: seq<World>, events: seq<Event>) {
    && |worlds| == |events| + 1 && worlds[0] == EMPTY_WORLD
    && forall i | 0 <= i < |events| :: StepRel(worlds[i], events[i], worlds[i + 1])
  }

  /** How often the hostname was really queried. */
  function Queries(events: seq<Event>, hostname: string): nat {
    if events == [] then 0
    else
      var e := events[|events| - 1];
      Queries(events[..|events| - 1], hostname) + if e.Query? && e.hostname == hostname then 1 else 0
  }

  function CountOf(list: seq<ObservedDomain>, hostname: string): int {
    if hostname in ByHostname(list) then ByHostname(list)[hostname].queryCount else 0
  }

  /** The count in the status of one observation object. */
  function Persisted(w: World, key: string, hostname: string): int {
    CountOf(StatusOf(w.statuses, key), hostname)
  }

  function StoredCount(w: World, hostname: string): int {
    if hostname in w.store.domains then w.store.domains[hostname].queryCount else 0
  }

  function LastSynced(w: World, key: string, hostname: string): int {
    SyncedCount(SyncedOf(w.syncedCounts, key), hostname)
  }

  /** What the next sync would add. */
  function Pending(w: World, key: string, hostname: string): int {
    if hostname in w.store.domains then Delta(StoredCount(w, hostname), LastSynced(w, key, hostname)) else 0
  }

  function AfterNoting(w: World, hostname: string, now: Time): World {
    w.(store := w.store.(domains := Noted(w.store.domains, hostname, now)))
  }

  /**
   * The queries an event makes uncountable for ever: those pending at a failed write, a restart or
   * a prune; after a prune, those counted afresh up to the count last synced before it; and those in
   * the status of an object that is recreated, because its synced counts survive it.
   */
  function Loss(w: World, e: Event, key: string, hostname: string): int {
    match e
    case Query(x, now, later) =>
      if x == "" then 0
      else
        var noted := AfterNoting(w, x, now);
        (if x == hostname && StoredCount(w, x) + 1 == LastSynced(w, key, x) then LastSynced(w, key, x) else 0)
        + (if hostname in Expired(noted.store, later) then Pending(noted, key, hostname) else 0)
    case Sync(k, fails) => if k == key && fails then Pending(w, key, hostname) else 0
    case Restart => Pending(w, key, hostname)
    case Recreated(k) => if k == key then Persisted(w, key, hostname) else 0
  }

  function Lost(worlds: seq<World>, events: seq<Event>, key: string, hostname: string): int
    requires |worlds| == |events| + 1
  {
    if events == [] then 0
    else
      var n := |events| - 1;
      Lost(worlds[..n + 1], events[..n], key, hostname) + Loss(worlds[n], events[n], key, hostname)
  }

  /** Counts are positive, synced counts are not negative, and status lists name each hostname once, in order. */
  ghost predicate Sane(w: World) {
    && (forall h | h in w.store.domains :: h != "" && w.store.domains[h].queryCount >= 1)
    && (forall k, h :: LastSynced(w, k, h) >= 0)
    && (forall k :: StrictlySorted(Names(StatusOf(w.statuses, k))))
    && (forall k, h :: Persisted(w, k, h) >= 0)
  }

  // ---- one merge ----

  lemma SortedNamesStrict(existing: seq<ObservedDomain>, live: Domains, synced: Synced, result: seq<ObservedDomain>)
    requires StrictlySorted(Names(existing)) && IsMergeOf(existing, live, synced, result)
    ensures StrictlySorted(Names(result))
    ensures forall h :: h in Names(result) <==> h in Names(existing) || h in live
  {
    hide ByHostname, MergedMap;
    StrictlySortedIsDistinct(Names(existing));
    NoDuplicatesMultiset(Names(existing));
    assert forall x :: multiset(Names(result))[x] <= 1;
    MultisetNoDuplicates(Names(result));
    SortedDistinctIsStrict(Names(result));
    assert forall h :: h in Names(result) <==> multiset(Names(result))[h] > 0;
  }

  /**
   * A merge keeps the list strictly sorted, loses no hostname and adds every live one; an entry's
   * first sighting only moves down, its last only up, and its count never falls.
   */
  lemma MergeMonotone(existing: seq<ObservedDomain>, live: Domains, synced: Synced, result: seq<ObservedDomain>)
    requires StrictlySorted(Names(existing)) && IsMergeOf(existing, live, synced, result)
    requires (forall h | h in live :: live[h].queryCount >= 0) && forall h :: SyncedCount(synced, h) >= 0
    ensures StrictlySorted(Names(result))
    ensures forall h :: h in Names(result) <==> h in Names(existing) || h in live
    ensures forall h | h in Names(existing) ::
              var d, e := ByHostname(existing)[h], ByHostname(result)[h];
              e.hostname == h && e.firstSeen <= d.firstSeen && e.lastSeen >= d.lastSeen && e.queryCount >= d.queryCount
  {
    SortedNamesStrict(existing, live, synced, result);
  }

  /** A merge adds exactly the delta to each count. */
  lemma MergeCount(existing: seq<ObservedDomain>, live: Domains, synced: Synced, result: seq<ObservedDomain>, h: string)
    requires StrictlySorted(Names(existing)) && IsMergeOf(existing, live, synced, result)
    ensures CountOf(result, h) ==
              CountOf(existing, h) + if h in live then Delta(live[h].queryCount, SyncedCount(synced, h)) else 0
  {
    SortedNamesStrict(existing, live, synced, result);
  }

  /**
   * Every entry of a merge, field by field: earlier first sighting, later last sighting, and the count raised
   * by what is new since the last sync, or by the whole count when the store has started over since.
   */
  lemma MergeFields(
    existing: seq<ObservedDomain>, live: Domains, synced: Synced, result: seq<ObservedDomain>, h: string)
    requires StrictlySorted(Names(existing)) && IsMergeOf(existing, live, synced, result) && h in Names(result)
    ensures var e := ByHostname(result)[h];
            && (h !in live ==> h in Names(existing) && e == ByHostname(existing)[h])
            && (h in live && h !in Names(existing) ==>
                  e.firstSeen == live[h].firstSeen && e.lastSeen == live[h].lastSeen)
            && (h in live && h in Names(existing) ==>
                  && var d := ByHostname(existing)[h];
                     && e.firstSeen <= d.firstSeen && e.firstSeen <= live[h].firstSeen
                     && (e.firstSeen == d.firstSeen || e.firstSeen == live[h].firstSeen)
                     && e.lastSeen >= d.lastSeen && e.lastSeen >= live[h].lastSeen
                     && (e.lastSeen == d.lastSeen || e.lastSeen == live[h].lastSeen))
    ensures h in live ==>
              var before := if h in Names(existing) then ByHostname(existing)[h].queryCount else 0;
              var seen := if h in synced then synced[h] else 0;
              ByHostname(result)[h].queryCount
              == before + if live[h].queryCount >= seen then live[h].queryCount - seen else live[h].queryCount
  {
    SortedNamesStrict(existing, live, synced, result);
  }

  // ---- every run ----

  lemma StepKeepsSane(before: World, e: Event, after: World)
    requires Sane(before) && StepRel(before, e, after)
    ensures Sane(after)
  {
    forall k, h ensures LastSynced(after, k, h) >= 0 {
      assert LastSynced(before, k, h) >= 0;
    }
    forall k { StepKeepsList(before, e, after, k); }
    hide LastSynced, StatusOf, IsMergeOf, StrictlySorted, Names, CountOf;
  }

  lemma NoList(h: string)
    ensures StrictlySorted(Names([])) && CountOf([], h) == 0
  {
  }

  ghost predicate SaneList(list: seq<ObservedDomain>) {
    StrictlySorted(Names(list)) && forall h :: CountOf(list, h) >= 0
  }

  lemma SaneListAt(w: World, key: string)
    requires Sane(w)
    ensures SaneList(StatusOf(w.statuses, key))
  {
    forall h ensures CountOf(StatusOf(w.statuses, key), h) >= 0 {
      assert Persisted(w, key, h) >= 0;
    }
  }

  lemma MergedSaneList(existing: seq<ObservedDomain>, live: Domains, synced: Synced, result: seq<ObservedDomain>)
    requires SaneList(existing) && IsMergeOf(existing, live, synced, result)
    requires (forall h | h in live :: live[h].queryCount >= 0) && forall h :: SyncedCount(synced, h) >= 0
    ensures SaneList(result)
  {
    SortedNamesStrict(existing, live, synced, result);
    forall h ensures CountOf(result, h) >= 0 {
      MergeCount(existing, live, synced, result, h);
    }
    hide IsMergeOf, CountOf, StrictlySorted, SyncedCount;
  }

  lemma OtherStatus(before: World, e: Event, after: World, key: string)
    requires StepRel(before, e, after) && e != Sync(key, false)
    ensures StatusOf(after.statuses, key) == if e == Recreated(key) then [] else StatusOf(before.statuses, key)
  {
    hide IsMergeOf, NewSynced;
  }

  /** One event leaves a status list sorted and its counts not negative. */
  lemma StepKeepsList(before: World, e: Event, after: World, key: string)
    requires Sane(before) && StepRel(before, e, after)
    ensures SaneList(StatusOf(after.statuses, key))
  {
    SaneListAt(before, key);
    if e == Sync(key, false) {
      var live, synced := before.store.domains, SyncedOf(before.syncedCounts, key);
      forall h ensures SyncedCount(synced, h) >= 0 {
        assert LastSynced(before, key, h) >= 0;
      }
      hide SaneList, IsMergeOf, NewSynced;
      MergedSaneList(StatusOf(before.statuses, key), live, synced, after.statuses[key]);
    } else {
      forall h { NoList(h); }
      OtherStatus(before, e, after, key);
      hide StepRel, Sane, CountOf, StrictlySorted, Names;
    }
  }

  /** What one event does to the books of one hostname in one object. */
  lemma StepBalances(before: World, e: Event, after: World, key: string, hostname: string)
    requires Sane(before) && StepRel(before, e, after) && hostname != ""
    ensures Persisted(after, key, hostname) + Pending(after, key, hostname) + Loss(before, e, key, hostname)
            == Persisted(before, key, hostname) + Pending(before, key, hostname)
               + if e.Query? && e.hostname == hostname then 1 else 0
    ensures Loss(before, e, key, hostname) >= 0
    ensures e == Sync(key, false) ==> Pending(after, key, hostname) == 0
  {
    hide CountOf, IsMergeOf, StrictlySorted;
    assert LastSynced(before, key, hostname) >= 0 && Persisted(before, key, hostname) >= 0;
    match e
    case Query(x, now, later) => QueryBalances(before, x, now, later, key, hostname);
    case Sync(k, fails) =>
      if k == key && !fails {
        assert StrictlySorted(Names(StatusOf(before.statuses, key)));
        MergeCount(StatusOf(before.statuses, key), before.store.domains, SyncedOf(before.syncedCounts, key),
                   after.statuses[key], hostname);
      }
    case Restart =>
    case Recreated(k) =>
      NoList(hostname);
  }

  lemma QueryBalances(before: World, x: string, now: Time, later: Time, key: string, hostname: string)
    requires Sane(before) && hostname != ""
    ensures var after, e := before.(store := Queried(before.store, x, now, later)), Query(x, now, later);
            && Pending(after, key, hostname) + Loss(before, e, key, hostname)
               == Pending(before, key, hostname) + (if x == hostname then 1 else 0)
            && Loss(before, e, key, hostname) >= 0
  {
    assert LastSynced(before, key, hostname) >= 0;
    if x != "" {
      var noted := AfterNoting(before, x, now);
      var c, s := StoredCount(before, hostname), LastSynced(before, key, hostname);
      assert StoredCount(noted, hostname) == if x == hostname then c + 1 else c;
      assert LastSynced(noted, key, hostname) == s;
    }
  }

  lemma {:induction false} RunsSane(worlds: seq<World>, events: seq<Event>)
    requires IsRun(worlds, events)
    ensures Sane(worlds[|events|])
  {
    if events == [] {
    } else {
      var n := |events| - 1;
      RunsSane(worlds[..n + 1], events[..n]);
      StepKeepsSane(worlds[n], events[n], worlds[n + 1]);
    }
  }

  /** Every hostname of `a` is in `b`, first seen no later, last seen no earlier, counted no less. */
  ghost predicate Below(a: seq<ObservedDomain>, b: seq<ObservedDomain>) {
    forall h | h in Names(a) ::
      && h in Names(b)
      && var d, e := ByHostname(a)[h], ByHostname(b)[h];
         e.hostname == h && e.firstSeen <= d.firstSeen && e.lastSeen >= d.lastSeen && e.queryCount >= d.queryCount
  }

  lemma BelowTransitive(a: seq<ObservedDomain>, b: seq<ObservedDomain>, c: seq<ObservedDomain>)
    requires Below(a, b) && Below(b, c)
    ensures Below(a, c)
  {
    hide ByHostname;
  }

  lemma BelowReflexive(a: seq<ObservedDomain>)
    ensures Below(a, a)
  {
  }

  lemma StepBelow(before: World, e: Event, after: World, key: string)
    requires Sane(before) && StepRel(before, e, after) && e != Recreated(key)
    ensures Below(StatusOf(before.statuses, key), StatusOf(after.statuses, key))
  {
    BelowReflexive(StatusOf(before.statuses, key));
    if e == Sync(key, false) {
      var live, synced := before.store.domains, SyncedOf(before.syncedCounts, key);
      forall h ensures SyncedCount(synced, h) >= 0 {
        assert LastSynced(before, key, h) >= 0;
      }
      MergeMonotone(StatusOf(before.statuses, key), live, synced, after.statuses[key]);
      hide IsMergeOf, ByHostname, NewSynced, StrictlySorted;
    } else {
      hide Below, IsMergeOf, NewSynced;
    }
  }

  /**
   * Over every run, and for every object: whatever its status list held at some point it still holds as
   * long as the object lives, with first sightings only moved down, last sightings and counts only up, in
   * strict order.
   */
  lemma {:induction false} StatusOnlyGrows(worlds: seq<World>, events: seq<Event>, key: string, i: nat)
    requires IsRun(worlds, events) && i <= |events|
    requires forall j | i <= j < |events| :: events[j] != Recreated(key)
    ensures StrictlySorted(Names(StatusOf(worlds[|events|].statuses, key)))
    ensures Below(StatusOf(worlds[i].statuses, key), StatusOf(worlds[|events|].statuses, key))
    decreases |events|
  {
    RunsSane(worlds, events);
    hide StepRel, Sane, Below, StrictlySorted;
    SaneLists(worlds[|events|], key);
    if i == |events| {
      BelowReflexive(StatusOf(worlds[i].statuses, key));
    } else {
      var n := |events| - 1;
      StatusOnlyGrows(worlds[..n + 1], events[..n], key, i);
      RunsSane(worlds[..n + 1], events[..n]);
      StepBelow(worlds[n], events[n], worlds[n + 1], key);
      BelowTransitive(StatusOf(worlds[i].statuses, key), StatusOf(worlds[n].statuses, key),
          StatusOf(worlds[n + 1].statuses, key));
    }
  }

  lemma SaneLists(w: World, key: string)
    requires Sane(w)
    ensures StrictlySorted(Names(StatusOf(w.statuses, key)))
  {
  }

  /**
   * Conservation: after any interleaving of queries, prunes, syncs, failed writes, restarts and
   * recreations, the persisted count, what the next sync will add, and what has been lost add up to the
   * true count.
   */
  lemma {:induction false} QueriesConserved(worlds: seq<World>, events: seq<Event>, key: string, hostname: string)
    requires IsRun(worlds, events) && hostname != ""
    ensures var w := worlds[|events|];
            Persisted(w, key, hostname) + Pending(w, key, hostname) + Lost(worlds, events, key, hostname)
            == Queries(events, hostname)
    ensures Lost(worlds, events, key, hostname) >= 0 && Pending(worlds[|events|], key, hostname) >= 0
  {
    RunsSane(worlds, events);
    assert LastSynced(worlds[|events|], key, hostname) >= 0;
    if events != [] {
      var n := |events| - 1;
      QueriesConserved(worlds[..n + 1], events[..n], key, hostname);
      RunsSane(worlds[..n + 1], events[..n]);
      StepBalances(worlds[n], events[n], worlds[n + 1], key, hostname);
    }
  }

  /** Never double counted; and right after a successful sync the count is exact unless queries were lost. */
  lemma NeverDoubleCounted(worlds: seq<World>, events: seq<Event>, key: string, hostname: string)
    requires IsRun(worlds, events) && hostname != ""
    ensures Persisted(worlds[|events|], key, hostname) <= Queries(events, hostname)
    ensures events != [] && events[|events| - 1] == Sync(key, false) ==>
              (Persisted(worlds[|events|], key, hostname) == Queries(events, hostname)
               <==> Lost(worlds, events, key, hostname) == 0)
  {
    QueriesConserved(worlds, events, key, hostname);
    if events != [] {
      var n := |events| - 1;
      RunsSane(worlds[..n + 1], events[..n]);
      StepBalances(worlds[n], events[n], worlds[n + 1], key, hostname);
    }
  }

  /** The prune at the end of this query removes the hostname. */
  predicate Drops(w: World, e: Event, hostname: string) {
    e.Query? && e.hostname != "" && hostname in Expired(AfterNoting(w, e.hostname, e.now).store, e.later)
  }

  /** No restart, no failed write for this object, no recreation of it, and no prune that drops this hostname. */
  ghost predicate Undisturbed(worlds: seq<World>, events: seq<Event>, key: string, hostname: string)
    requires |worlds| == |events| + 1
  {
    forall i | 0 <= i < |events| ::
      && !events[i].Restart?
      && events[i] != Sync(key, true) && events[i] != Recreated(key)
      && !Drops(worlds[i], events[i], hostname)
  }

  lemma {:induction false} UndisturbedLosesNothing(
    worlds: seq<World>, events: seq<Event>, key: string, hostname: string)
    requires IsRun(worlds, events) && hostname != "" && Undisturbed(worlds, events, key, hostname)
    ensures Lost(worlds, events, key, hostname) == 0
    ensures LastSynced(worlds[|events|], key, hostname) <= StoredCount(worlds[|events|], hostname)
  {
    if events != [] {
      var n := |events| - 1;
      UndisturbedLosesNothing(worlds[..n + 1], events[..n], key, hostname);
      RunsSane(worlds[..n + 1], events[..n]);
      UndisturbedStep(worlds[n], events[n], worlds[n + 1], key, hostname);
    }
  }

  lemma UndisturbedStep(before: World, e: Event, after: World, key: string, hostname: string)
    requires Sane(before) && StepRel(before, e, after) && hostname != ""
    requires !e.Restart? && e != Sync(key, true) && e != Recreated(key)
    requires !Drops(before, e, hostname)
    requires LastSynced(before, key, hostname) <= StoredCount(before, hostname)
    ensures Loss(before, e, key, hostname) == 0
    ensures LastSynced(after, key, hostname) <= StoredCount(after, hostname)
  {
    assert LastSynced(before, key, hostname) >= 0;
  }

  /** Undisturbed runs count exactly: after each successful sync the persisted count is the true one. */
  lemma UndisturbedRunsExact(worlds: seq<World>, events: seq<Event>, key: string, hostname: string)
    requires IsRun(worlds, events) && hostname != "" && Undisturbed(worlds, events, key, hostname)
    requires events != [] && events[|events| - 1] == Sync(key, false)
    ensures Persisted(worlds[|events|], key, hostname) == Queries(events, hostname)
  {
    UndisturbedLosesNothing(worlds, events, key, hostname);
    NeverDoubleCounted(worlds, events, key, hostname);
  }

  // ---- a run that undercounts ----

  const EARLY: Time := 63_800_000_000 * 1_000_000_000
  const LATE: Time := EARLY + OBSERVATION_RETENTION + PRUNE_CHECK_INTERVAL

  /** A query, a sync, a prune that drops the name, the same query again, a sync. */
  function Recount(): (events: seq<Event>)
    ensures |events| == 5
  {
    [Query("a", EARLY, EARLY), Sync("k", false), Query("b", LATE, LATE), Query("a", LATE, LATE), Sync("k", false)]
  }

  function RecountStore(i: nat): StoreState {
    var a, b := FirstLastSeen(EARLY, EARLY, 1), FirstLastSeen(LATE, LATE, 1);
    if i == 0 then EMPTY_STORE
    else if i <= 2 then StoreState(map["a" := a], EARLY)
    else if i == 3 then StoreState(map["b" := b], LATE)
    else StoreState(map["a" := b, "b" := b], LATE)
  }

  const FIRST_LIST: seq<ObservedDomain> := [ObservedDomain("a", EARLY, EARLY, 1)]
  const SECOND_LIST: seq<ObservedDomain> := [ObservedDomain("a", EARLY, LATE, 1), ObservedDomain("b", LATE, LATE, 1)]

  function RecountWorld(i: nat): World {
    if i <= 1 then World(RecountStore(i), map[], map[])
    else if i <= 4 then World(RecountStore(i), map["k" := map["a" := 1]], map["k" := FIRST_LIST])
    else World(RecountStore(i), map["k" := map["a" := 1, "b" := 1]], map["k" := SECOND_LIST])
  }

  lemma RecountQueries()
    ensures StepRel(RecountWorld(0), Recount()[0], RecountWorld(1))
    ensures StepRel(RecountWorld(2), Recount()[2], RecountWorld(3))
    ensures StepRel(RecountWorld(3), Recount()[3], RecountWorld(4))
  {
    var first := EMPTY_STORE.(domains := Noted(EMPTY_STORE.domains, "a", EARLY));
    assert Expired(first, EARLY) == {} && first.domains - {} == RecountStore(1).domains;
    var noted := RecountStore(2).(domains := Noted(RecountStore(2).domains, "b", LATE));
    assert Expired(noted, LATE) == {"a"};
    assert noted.domains - {"a"} == RecountStore(3).domains;
    assert Queried(RecountStore(3), "a", LATE, LATE).domains == RecountStore(4).domains;
  }

  lemma RecountFirstSync()
    ensures StepRel(RecountWorld(1), Recount()[1], RecountWorld(2))
  {
    var live := RecountStore(1).domains;
    assert Names(FIRST_LIST) == ["a"] && Names([]) == [];
    assert NewSynced(live, map[]) == map["a" := 1];
    assert MergedMap(ByHostname([]), live, map[]) == map["a" := FIRST_LIST[0]];
    assert IsMergeOf([], live, map[], FIRST_LIST);
  }

  lemma RecountLists()
    ensures Names(FIRST_LIST) == ["a"] && Names(SECOND_LIST) == ["a", "b"]
    ensures ByHostname(FIRST_LIST) == map["a" := FIRST_LIST[0]]
    ensures Sorted(["a", "b"])
  {
    assert FIRST_LIST[..0] == [];
    assert Leq("a", "b") && ["a", "b"][1..] == ["b"] && ["b"][1..] == [];
    assert Sorted(["b"]);
  }

  lemma RecountMerge()
    ensures IsMergeOf(FIRST_LIST, RecountStore(4).domains, map["a" := 1], SECOND_LIST)
    ensures NewSynced(RecountStore(4).domains, map["a" := 1]) == map["a" := 1, "b" := 1]
  {
    RecountLists();
    hide ByHostname, Names, Sorted;
    var live: Domains, synced: Synced := RecountStore(4).domains, map["a" := 1];
    assert live.Keys == {"a", "b"};
    assert MergedMap(map["a" := FIRST_LIST[0]], live, synced) == map["a" := SECOND_LIST[0], "b" := SECOND_LIST[1]];
    RecountSynced();
    hide MergedMap, RecountStore, NewSynced, Leq;
    assert multiset(["a", "b"]) == multiset{"a", "b"} && multiset(["a"]) == multiset{"a"};
  }

  lemma RecountSynced()
    ensures NewSynced(RecountStore(4).domains, map["a" := 1]) == map["a" := 1, "b" := 1]
  {
  }

  lemma RecountSecondSync()
    ensures StepRel(RecountWorld(4), Recount()[4], RecountWorld(5))
  {
    RecountMerge();
    hide IsMergeOf, NewSynced;
  }

  lemma RecountStep(i: nat)
    requires i < 5
    ensures StepRel(RecountWorld(i), Recount()[i], RecountWorld(i + 1))
  {
    RecountQueries();
    RecountFirstSync();
    RecountSecondSync();
    hide StepRel, RecountWorld, Recount;
  }

  /** After it, two queries were made and one is counted: the recount stops at the count last synced. */
  lemma RecountedQueryLost() returns (worlds: seq<World>)
    ensures IsRun(worlds, Recount())
    ensures Queries(Recount(), "a") == 2 && Persisted(worlds[5], "k", "a") == 1
  {
    worlds := seq(6, i requires 0 <= i < 6 => RecountWorld(i));
    assert worlds[0] == EMPTY_WORLD;
    hide StepRel, RecountWorld, Queries, Persisted, Recount;
    RecountCount();
    RecountPersisted();
    forall i | 0 <= i < 5 ensures StepRel(worlds[i], Recount()[i], worlds[i + 1]) {
      RecountStep(i);
    }
  }

  lemma RecountPersisted()
    ensures Persisted(RecountWorld(5), "k", "a") == 1
  {
    assert SECOND_LIST[..1] == [SECOND_LIST[0]] && SECOND_LIST[..1][..0] == [];
    assert ByHostname(SECOND_LIST[..1]) == map["a" := SECOND_LIST[0]];
  }

  lemma QueriesOf(events: seq<Event>, e: Event)
    ensures Queries(events + [e], "a") == Queries(events, "a") + if e.Query? && e.hostname == "a" then 1 else 0
  {
    assert (events + [e])[..|events|] == events;
  }

  lemma RecountCount()
    ensures Queries(Recount(), "a") == 2
  {
    var e := Recount();
    QueriesOf([], e[0]);
    QueriesOf([e[0]], e[1]);
    QueriesOf([e[0]] + [e[1]], e[2]);
    QueriesOf([e[0]] + [e[1]] + [e[2]], e[3]);
    QueriesOf([e[0]] + [e[1]] + [e[2]] + [e[3]], e[4]);
    assert [] + [e[0]] == [e[0]];
    assert e == [e[0]] + [e[1]] + [e[2]] + [e[3]] + [e[4]];
  }
}
