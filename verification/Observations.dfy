/** The in-memory store of queried hostnames, and merging it into a persisted status list. */
module Observations {
  import opened Strings
  import opened TTLQueues
  import opened ResolutionPass

  const OBSERVATION_RETENTION := 48 * 3600 * SECOND
  const PRUNE_CHECK_INTERVAL := 5 * 60 * SECOND

  datatype FirstLastSeen = FirstLastSeen(firstSeen: Time, lastSeen: Time, queryCount: int)
  type Domains = map<string, FirstLastSeen>

  datatype StoreState = StoreState(domains: Domains, lastPrune: Time)

  const EMPTY_STORE := StoreState(map[], ZERO_TIME)

  function Noted(domains: Domains, hostname: string, now: Time): Domains {
    domains[hostname := if hostname in domains
                        then FirstLastSeen(domains[hostname].firstSeen, now, domains[hostname].queryCount + 1)
                        else FirstLastSeen(now, now, 1)]
  }

  /** Hostnames not seen within the retention, judged at most once per check interval. */
  function Expired(s: StoreState, now: Time): set<string> {
    if now - s.lastPrune < PRUNE_CHECK_INTERVAL then {}
    else set h | h in s.domains && s.domains[h].lastSeen < now - OBSERVATION_RETENTION
  }

  function Pruned(s: StoreState, now: Time): StoreState {
    if now - s.lastPrune < PRUNE_CHECK_INTERVAL then s else StoreState(s.domains - Expired(s, now), now)
  }

  /** One query; `later` is the second clock reading, made while pruning. */
  function Queried(s: StoreState, hostname: string, now: Time, later: Time): StoreState {
    if hostname == "" then s else Pruned(s.(domains := Noted(s.domains, hostname, now)), later)
  }

  class ObservationStore {
    var domains: Domains
    var lastPrune: Time

    function State(): StoreState
      reads this
    {
      StoreState(domains, lastPrune)
    }

    constructor ()
      ensures State() == EMPTY_STORE
    {
      domains, lastPrune := map[], ZERO_TIME;
    }

    method Record(hostname: string, now: Time, later: Time)
      modifies this
      ensures State() == Queried(old(State()), hostname, now, later)
      ensures hostname == "" ==> State() == old(State())
      ensures hostname != "" && hostname in domains ==>
                && domains[hostname].lastSeen == now
                && (hostname in old(domains) ==>
                      && domains[hostname].firstSeen == old(domains)[hostname].firstSeen
                      && domains[hostname].queryCount == old(domains)[hostname].queryCount + 1)
                && (hostname !in old(domains)
                   ==> domains[hostname].firstSeen == now && domains[hostname].queryCount == 1)
      ensures forall h | h in domains && h != hostname :: h in old(domains) && domains[h] == old(domains)[h]
    {
      if hostname == "" {
        return;
      }
      if hostname in domains {
        var obs := domains[hostname];
        domains := domains[hostname := obs.(lastSeen := now, queryCount := obs.queryCount + 1)];
      } else {
        domains := domains[hostname := FirstLastSeen(now, now, 1)];
      }
      PruneLocked(later);
    }

    method AllDomains() returns (result: Domains)
      ensures result == domains
    {
      result := map[];
      var todo := domains.Keys;
      while todo != {}
        invariant todo <= domains.Keys && result.Keys == domains.Keys - todo
        invariant forall h | h in result :: result[h] == domains[h]
        decreases todo
      {
        var h :| h in todo;
        todo := todo - {h};
        result := result[h := domains[h]];
      }
    }

    method PruneLocked(now: Time)
      modifies this
      ensures State() == Pruned(old(State()), now)
      ensures now - old(lastPrune) < 300_000_000_000 ==> State() == old(State())
      ensures now - old(lastPrune) >= 300_000_000_000 ==>
                && lastPrune == now
                && (forall h :: h in domains <==>
                                  h in old(domains) && now - old(domains)[h].lastSeen <= 172_800_000_000_000)
                && forall h | h in domains :: domains[h] == old(domains)[h]
    {
      if now - lastPrune < PRUNE_CHECK_INTERVAL {
        return;
      }
      lastPrune := now;
      var cutoff := now - OBSERVATION_RETENTION;
      var todo := domains.Keys;
      ghost var before := domains;
      ghost var stale := Expired(old(State()), now);
      while todo != {}
        invariant todo <= before.Keys
        invariant domains == before - (stale - todo) && lastPrune == now
        decreases todo
      {
        var h :| h in todo;
        assert domains[h] == before[h];
        todo := todo - {h};
        if domains[h].lastSeen < cutoff {
          domains := domains - {h};
        }
      }
      assert stale - todo == stale;
    }
  }

  // ---- merging into the status list ----

  datatype ObservedDomain = ObservedDomain(hostname: string, firstSeen: Time, lastSeen: Time, queryCount: int)
  type Synced = map<string, int>

  function SyncedCount(synced: Synced, hostname: string): int {
    if hostname in synced then synced[hostname] else 0
  }

  /** The queries not yet synced; a count below the last synced one means the store started over. */
  function Delta(count: int, synced: int): int {
    if count - synced < 0 then count else count - synced
  }

  function Names(list: seq<ObservedDomain>): (r: seq<string>)
    ensures |r| == |list| && forall i | 0 <= i < |list| :: r[i] == list[i].hostname
  {
    seq(|list|, i requires 0 <= i < |list| => list[i].hostname)
  }

  function ByHostname(list: seq<ObservedDomain>): (m: map<string, ObservedDomain>)
    ensures forall h :: h in m <==> h in Names(list)
    ensures forall h | h in m :: m[h].hostname == h && m[h] in list
  {
    if list == [] then map[]
    else
      var d := list[|list| - 1];
      var rest := ByHostname(list[..|list| - 1]);
      assert list == list[..|list| - 1] + [d];
      assert Names(list) == Names(list[..|list| - 1]) + [d.hostname];
      rest[d.hostname := d]
  }

  /** One hostname after the merge: first seen moves down, last seen up, the count by the delta. */
  function MergedOne(
    known: Option<ObservedDomain>, hostname: string, seen: FirstLastSeen, synced: int): ObservedDomain {
    var delta := Delta(seen.queryCount, synced);
    match known
    case None => ObservedDomain(hostname, seen.firstSeen, seen.lastSeen, delta)
    case Some(d) => ObservedDomain(d.hostname,
                                   if seen.firstSeen < d.firstSeen then seen.firstSeen else d.firstSeen,
                                   if seen.lastSeen > d.lastSeen then seen.lastSeen else d.lastSeen,
                                   d.queryCount + delta)
  }

  function Find(m: map<string, ObservedDomain>, h: string): Option<ObservedDomain> {
    if h in m then Some(m[h]) else None
  }

  function MergedMap(m: map<string, ObservedDomain>, live: Domains, synced: Synced): map<string, ObservedDomain> {
    map h | h in m.Keys + live.Keys ::
      if h in live then MergedOne(Find(m, h), h, live[h], SyncedCount(synced, h)) else m[h]
  }

  function NewSynced(live: Domains, synced: Synced): Synced {
    synced + map h | h in live :: live[h].queryCount
  }

  /** The result list: the merged map in hostname order, one entry per listed hostname. */
  ghost predicate IsMergeOf(existing: seq<ObservedDomain>, live: Domains, synced: Synced, result: seq<ObservedDomain>) {
    var m := MergedMap(ByHostname(existing), live, synced);
    && Sorted(Names(result))
    && (forall x :: multiset(Names(result))[x] ==
          multiset(Names(existing))[x] + if x in live && x !in Names(existing) then 1 else 0)
    && (forall d | d in result :: d.hostname in m && d == m[d.hostname])
  }

  method MergeObservedDomains(existing: seq<ObservedDomain>, live: Domains, lastSynced: Synced)
    returns (result: seq<ObservedDomain>, synced: Synced)
    ensures IsMergeOf(existing, live, lastSynced, result)
    ensures synced == NewSynced(live, lastSynced)
  {
    hide ByHostname, MergedMap, NewSynced, Names, Sorted;
    var byHostname, hostnames := IndexExisting(existing);
    byHostname, hostnames, synced := MergeLive(byHostname, hostnames, live, lastSynced);
    result := InOrder(byHostname, Sort(hostnames));
  }

  /** The first loop: index the known list by hostname. */
  method IndexExisting(
    existing: seq<ObservedDomain>) returns (byHostname: map<string, ObservedDomain>, hostnames: seq<string>)
    ensures byHostname == ByHostname(existing) && hostnames == Names(existing)
  {
    byHostname, hostnames := map[], [];
    for i := 0 to |existing|
      invariant byHostname == ByHostname(existing[..i]) && hostnames == Names(existing[..i])
    {
      assert existing[..i + 1][..i] == existing[..i];
      byHostname := byHostname[existing[i].hostname := existing[i]];
      hostnames := hostnames + [existing[i].hostname];
    }
    assert existing[..|existing|] == existing;
  }

  /** The last loop: list the map in the given order of hostnames. */
  method InOrder(byHostname: map<string, ObservedDomain>, hostnames: seq<string>) returns (result: seq<ObservedDomain>)
    requires forall h | h in hostnames :: h in byHostname
    requires forall h | h in byHostname :: byHostname[h].hostname == h
    ensures Names(result) == hostnames
    ensures forall d | d in result :: d.hostname in byHostname && d == byHostname[d.hostname]
  {
    result := [];
    for i := 0 to |hostnames|
      invariant |result| == i && forall k | 0 <= k < i ::
                hostnames[k] in byHostname && result[k] == byHostname[hostnames[k]]
    {
      assert hostnames[i] in hostnames;
      result := result + [byHostname[hostnames[i]]];
    }
    assert Names(result) == hostnames;
  }

  /** The loop over the live hostnames, in any order. */
  method MergeLive(known: map<string, ObservedDomain>, names: seq<string>, live: Domains, lastSynced: Synced)
    returns (byHostname: map<string, ObservedDomain>, hostnames: seq<string>, synced: Synced)
    requires forall h | h in known :: known[h].hostname == h
    requires forall h :: h in known <==> h in names
    ensures byHostname == MergedMap(known, live, lastSynced)
    ensures forall h :: h in byHostname <==> h in hostnames
    ensures forall h | h in byHostname :: byHostname[h].hostname == h
    ensures forall x :: multiset(hostnames)[x] == multiset(names)[x] + if x in live && x !in names then 1 else 0
    ensures synced == NewSynced(live, lastSynced)
  {
    hide MergedOne, MergedMap, NewSynced, SyncedCount;
    byHostname, hostnames, synced := known, names, lastSynced;
    var todo := live.Keys;
    ghost var done: Domains := map[];
    ghost var added: seq<string> := [];
    NothingLive(known, lastSynced);
    while todo != {}
      invariant todo <= live.Keys && done == live - todo
      invariant byHostname == MergedMap(known, done, lastSynced) && synced == NewSynced(done, lastSynced)
      invariant byHostname.Keys == known.Keys + done.Keys
      invariant hostnames == names + added && NoDuplicates(added)
      invariant forall h :: h in added <==> h in done && h !in known
      decreases todo
    {
      var h :| h in todo;
      ghost var before := todo;
      todo := todo - {h};
      assert before == todo + {h};
      var seen := live[h];
      MergeStep(known, done, lastSynced, h, seen);
      OneMore(live, todo, h);
      done := done[h := seen];
      var delta := seen.queryCount - SyncedCount(synced, h);
      if delta < 0 {
        delta := seen.queryCount;
      }
      synced := synced[h := seen.queryCount];
      if h !in byHostname {
        hostnames := hostnames + [h];
        added := added + [h];
      }
      var entry := Advanced(Find(byHostname, h), h, seen, delta);
      byHostname := byHostname[h := entry];
    }
    assert done == live;
    NoDuplicatesMultiset(added);
    MergedHostnames(known, live, lastSynced);
  }

  /** The entry an iteration writes: a new one, or the known one with its fields moved. */
  method Advanced(
    known: Option<ObservedDomain>, hostname: string, seen: FirstLastSeen, delta: int) returns (d: ObservedDomain)
    ensures forall synced | delta == Delta(seen.queryCount, synced) :: d == MergedOne(known, hostname, seen, synced)
  {
    if known.None? {
      return ObservedDomain(hostname, seen.firstSeen, seen.lastSeen, delta);
    }
    d := known.value;
    if seen.firstSeen < d.firstSeen {
      d := d.(firstSeen := seen.firstSeen);
    }
    if seen.lastSeen > d.lastSeen {
      d := d.(lastSeen := seen.lastSeen);
    }
    d := d.(queryCount := d.queryCount + delta);
  }

  lemma MergedHostnames(known: map<string, ObservedDomain>, live: Domains, synced: Synced)
    requires forall h | h in known :: known[h].hostname == h
    ensures forall h | h in MergedMap(known, live, synced) :: MergedMap(known, live, synced)[h].hostname == h
  {
  }

  lemma OneMore(live: Domains, todo: set<string>, h: string)
    requires h in live && h !in todo
    ensures (live - (todo + {h}))[h := live[h]] == live - todo
  {
  }

  lemma NothingLive(known: map<string, ObservedDomain>, synced: Synced)
    ensures MergedMap(known, map[], synced) == known && NewSynced(map[], synced) == synced
  {
  }

  /** One more live hostname changes the merged map and the synced counts at that hostname only. */
  lemma MergeStep(known: map<string, ObservedDomain>, done: Domains, synced: Synced, h: string, seen: FirstLastSeen)
    requires h !in done
    ensures MergedMap(known, done[h := seen], synced) ==
              MergedMap(known, done, synced)[h := MergedOne(Find(known, h), h, seen, SyncedCount(synced, h))]
    ensures NewSynced(done[h := seen], synced) == NewSynced(done, synced)[h := seen.queryCount]
    ensures Find(MergedMap(known, done, synced), h) == Find(known, h)
    ensures h in MergedMap(known, done, synced) <==> h in known
    ensures SyncedCount(NewSynced(done, synced), h) == SyncedCount(synced, h)
  {
    hide MergedOne;
    var more := done[h := seen];
    var a, b := MergedMap(known, more, synced), MergedMap(known, done, synced);
    var entry := MergedOne(Find(known, h), h, seen, SyncedCount(synced, h));
    assert a.Keys == b.Keys + {h};
    forall x | x in a ensures a[x] == b[h := entry][x] {
      if x != h {
        assert x in b;
      }
    }
    SyncedStep(done, synced, h, seen);
  }

  lemma SyncedStep(done: Domains, synced: Synced, h: string, seen: FirstLastSeen)
    requires h !in done
    ensures NewSynced(done[h := seen], synced) == NewSynced(done, synced)[h := seen.queryCount]
  {
    var a, b := NewSynced(done[h := seen], synced), NewSynced(done, synced)[h := seen.queryCount];
    assert a.Keys == b.Keys;
  }
}
