/** What one cluster policy's object in one namespace does over whole runs of everybody's writes and deletions. */
module ClusterStoreRuns {
  import opened Strings
  import opened Addresses
  import opened Policies
  import opened NetPol
  import opened ClusterReconciler
  import opened ClusterRuns
  import R = Reconciler

  /** The object's slot in the store. */
  function Slot(store: Store, key: Key): Option<NetworkPolicy> {
    if key in store then Some(store[key]) else None
  }

  function ObjectKey(name: string, ns: string): Key {
    Key(ns, ObjectName(name))
  }

  // ---- a fan-out, seen from one namespace ----

  ghost predicate Wants(existing: Option<NetworkPolicy>, desired: NetworkPolicy) {
    existing.Some? ==> !SameCIDRs(existing.value.egress, desired.egress)
  }

  ghost function PlacedObject(
    existing: Option<NetworkPolicy>, desired: NetworkPolicy, faults: Faults): Option<NetworkPolicy> {
    if desired.namespace in faults.get || !Wants(existing, desired) || desired.namespace in faults.write then existing
    else Some(R.Overwritten(existing, desired))
  }

  lemma PlacedSlot(store: Store, desired: NetworkPolicy, faults: Faults, key: Key)
    ensures Slot(Placed(store, desired, faults), key) ==
              if key == Key(desired.namespace, desired.name) then PlacedObject(Slot(store, key), desired, faults)
                  else Slot(store, key)
  {
    hide SameCIDRs;
  }

  lemma PlacedTwice(existing: Option<NetworkPolicy>, desired: NetworkPolicy, faults: Faults)
    ensures PlacedObject(PlacedObject(existing, desired, faults), desired, faults)
            == PlacedObject(existing, desired, faults)
  {
    Reflexive(desired.egress);
    hide SameCIDRs;
  }

  /** However often a namespace is listed, its object is placed once; other namespaces do not matter. */
  lemma {:induction false} FannedSlot(
    parse: Parser, store: Store, cp: ClusterPolicy, matched: seq<string>, hosts: seq<ResolvedHost>, faults: Faults,
    n: nat, ns: string)
    requires n <= |matched|
    ensures var key := ObjectKey(cp.name, ns);
            Slot(FannedOut(parse, store, cp, matched, hosts, faults, n), key) ==
              if ns in matched[..n] then PlacedObject(Slot(store, key), Desired(parse, cp, ns, hosts), faults)
                  else Slot(store, key)
  {
    hide Desired, PlacedObject, Placed, Slot;
    if n > 0 {
      var key := ObjectKey(cp.name, ns);
      FannedSlot(parse, store, cp, matched, hosts, faults, n - 1, ns);
      assert matched[..n] == matched[..n - 1] + [matched[n - 1]];
      var desired := Desired(parse, cp, matched[n - 1], hosts);
      PlacedSlot(FannedOut(parse, store, cp, matched, hosts, faults, n - 1), desired, faults, key);
      PlacedTwice(Slot(store, key), Desired(parse, cp, ns, hosts), faults);
    }
  }

  /**
   * A fan-out whose calls for a matched namespace succeed, where the object is missing or has other CIDRs,
   * leaves exactly the desired object there, whatever fails elsewhere.
   */
  lemma WrittenObjectExact(
    parse: Parser, before: Store, after: Store, cp: ClusterPolicy, matched: seq<string>, hosts: seq<ResolvedHost>,
    faults: Faults, ns: string)
    requires Owned(before) && StoreStep(parse, before, after, cp, matched, hosts, faults)
    requires ns in matched && ns !in faults.get && ns !in faults.write
    requires WantsWrite(before, Desired(parse, cp, ns, hosts))
    ensures Slot(after, ObjectKey(cp.name, ns)) == Some(Desired(parse, cp, ns, hosts))
  {
    var key, desired := ObjectKey(cp.name, ns), Desired(parse, cp, ns, hosts);
    FannedSlot(parse, before, cp, matched, hosts, faults, |matched|, ns);
    assert matched[..|matched|] == matched;
    hide FannedOut, SameCIDRs, Built;
    assert PlacedObject(Slot(before, key), desired, faults) == Some(desired);
    assert key !in Stale(FannedOut(parse, before, cp, matched, hosts, faults, |matched|), cp.name, matched);
  }

  /**
   * That object governs the selected pods of its namespace; it allows them DNS and the pooled ports to the
   * recorded addresses, and nothing else (or every destination, when hosts were recorded without any address).
   */
  lemma WrittenObjectAllows(
    parse: Parser, before: Store, after: Store, cp: ClusterPolicy, matched: seq<string>, hosts: seq<ResolvedHost>,
    faults: Faults, ns: string, pod: Pod, t: Traffic)
    requires Owned(before) && StoreStep(parse, before, after, cp, matched, hosts, faults)
    requires ns in matched && ns !in faults.get && ns !in faults.write
    requires WantsWrite(before, Desired(parse, cp, ns, hosts))
    ensures ObjectKey(cp.name, ns) in after
    ensures VerdictOn(parse, after[ObjectKey(cp.name, ns)], pod, t) ==
              if pod.namespace != ns || !Selects(cp.spec.podSelector, pod.labels) then Ungoverned
              else if IsDNS(t) || (hosts != [] && PortMatches(PooledPorts(cp.spec.egress), t)
                                   && (NoAddresses(hosts) || Recorded(parse, hosts, t.dest))) then Allowed
              else NotAllowed
  {
    WrittenObjectExact(parse, before, after, cp, matched, hosts, faults, ns);
    BuildDenotes(parse, SyntheticPolicy(cp, ns, hosts), t);
    hide StoreStep, Owned, WantsWrite, Allows, Selects, NoAddresses, Recorded, PortMatches;
  }

  // ---- the past of one object ----

  /** The policy last written to the object, and the one last applied to it, by writing or by skipping. */
  datatype Past = Past(written: Option<ResolvedPolicy>, applied: Option<ResolvedPolicy>)

  /** The event is a fan-out of this policy that gets through the comparison in this namespace. */
  ghost predicate AppliesTo(parse: Parser, before: Store, e: StoreEvent, name: string, ns: string) {
    && e.FanOutEvent? && e.cp.name == name && ns in e.matched && ns !in e.faults.get
    && (WantsWrite(before, Desired(parse, e.cp, ns, e.hosts)) ==> ns !in e.faults.write)
  }

  ghost function PastAfter(
    parse: Parser, before: Store, e: StoreEvent, after: Store, past: Past, name: string, ns: string): Past {
    if ObjectKey(name, ns) !in after then Past(None, None)
    else if AppliesTo(parse, before, e, name, ns) then
      var snap := SyntheticPolicy(e.cp, ns, e.hosts);
      Past(if WantsWrite(before, Desired(parse, e.cp, ns, e.hosts)) then Some(snap) else past.written, Some(snap))
    else past
  }

  ghost function PastAt(
    parse: Parser, stores: seq<Store>, events: seq<StoreEvent>, name: string, ns: string, i: nat): Past
    requires |stores| == |events| + 1 && i <= |events|
  {
    if i == 0 then Past(None, None)
    else PastAfter(parse, stores[i - 1], events[i - 1], stores[i], PastAt(parse, stores, events, name, ns, i - 1),
        name, ns)
  }

  ghost predicate Belongs(fp: ResolvedPolicy, name: string, ns: string) {
    fp.name == SyntheticName(name) && fp.namespace == ns
  }

  ghost predicate Explains(parse: Parser, slot: Option<NetworkPolicy>, past: Past, name: string, ns: string) {
    && slot.Some? == past.written.Some? == past.applied.Some?
    && (slot.Some? ==>
          && Belongs(past.written.value, name, ns) && Belongs(past.applied.value, name, ns)
          && slot.value == Tagged(Built(parse, past.written.value), name)
          && SameCIDRs(Built(parse, past.written.value).egress, Built(parse, past.applied.value).egress))
  }

  /** The past after the fan-out has placed the object. */
  ghost function PastPlaced(
    parse: Parser, slot: Option<NetworkPolicy>, cp: ClusterPolicy, ns: string, hosts: seq<ResolvedHost>,
    faults: Faults, past: Past
  ): Past {
    var desired, snap := Desired(parse, cp, ns, hosts), SyntheticPolicy(cp, ns, hosts);
    if ns in faults.get || (Wants(slot, desired) && ns in faults.write) then past
    else Past(if Wants(slot, desired) then Some(snap) else past.written, Some(snap))
  }

  lemma PlacedExplains(
    parse: Parser, slot: Option<NetworkPolicy>, cp: ClusterPolicy, ns: string, hosts: seq<ResolvedHost>,
    faults: Faults, past: Past)
    requires Explains(parse, slot, past, cp.name, ns)
    ensures Explains(parse, PlacedObject(slot, Desired(parse, cp, ns, hosts), faults),
                     PastPlaced(parse, slot, cp, ns, hosts, faults, past), cp.name, ns)
  {
    Reflexive(Built(parse, SyntheticPolicy(cp, ns, hosts)).egress);
    hide Built, SameCIDRs;
    assert slot.Some? ==> R.Overwritten(slot, Desired(parse, cp, ns, hosts)) == Desired(parse, cp, ns, hosts);
  }

  lemma PastOfSlot(parse: Parser, before: Store, e: StoreEvent, after: Store, past: Past, ns: string)
    requires e.FanOutEvent? && ObjectKey(e.cp.name, ns) in after
    ensures PastAfter(parse, before, e, after, past, e.cp.name, ns) ==
              if ns in e.matched
              then PastPlaced(parse, Slot(before, ObjectKey(e.cp.name, ns)), e.cp, ns, e.hosts, e.faults, past)
                  else past
  {
    hide SameCIDRs, Built;
  }

  /** A fan-out of the policy itself. */
  lemma OwnFanOut(
    parse: Parser, before: Store, e: StoreEvent, after: Store, past: Past, ns: string)
    requires e.FanOutEvent? && StepRel(parse, before, e, after)
    requires Explains(parse, Slot(before, ObjectKey(e.cp.name, ns)), past, e.cp.name, ns)
    ensures Explains(parse, Slot(after, ObjectKey(e.cp.name, ns)),
            PastAfter(parse, before, e, after, past, e.cp.name, ns), e.cp.name, ns)
  {
    hide StepRel, PlacedObject, PastPlaced, Desired, Built, SameCIDRs, WantsWrite;
    if ObjectKey(e.cp.name, ns) in after {
      FanOutSlot(parse, before, e, after, ns);
      PastOfSlot(parse, before, e, after, past, ns);
      PlacedExplains(parse, Slot(before, ObjectKey(e.cp.name, ns)), e.cp, ns, e.hosts, e.faults, past);
      hide Explains, Slot, PastAfter;
    }
  }

  /** If the object is there after a fan-out and its garbage collection, it is what the fan-out placed. */
  lemma FanOutSlot(parse: Parser, before: Store, e: StoreEvent, after: Store, ns: string)
    requires e.FanOutEvent? && StepRel(parse, before, e, after) && ObjectKey(e.cp.name, ns) in after
    ensures var slot := Slot(before, ObjectKey(e.cp.name, ns));
            Slot(after, ObjectKey(e.cp.name, ns)) ==
              if ns in e.matched then PlacedObject(slot, Desired(parse, e.cp, ns, e.hosts), e.faults) else slot
  {
    hide FannedOut, Stale, PlacedObject, Desired;
    FannedSlot(parse, before, e.cp, e.matched, e.hosts, e.faults, |e.matched|, ns);
    assert e.matched[..|e.matched|] == e.matched;
  }

  lemma StepExplains(parse: Parser, before: Store, e: StoreEvent, after: Store, past: Past, name: string, ns: string)
    requires Owned(before) && StepRel(parse, before, e, after)
    requires Explains(parse, Slot(before, ObjectKey(name, ns)), past, name, ns)
    ensures Explains(parse, Slot(after, ObjectKey(name, ns)), PastAfter(parse, before, e, after, past, name, ns),
            name, ns)
  {
    var key := ObjectKey(name, ns);
    match e
    case FanOutEvent(cp, matched, hosts, faults) =>
      if cp.name == name {
        OwnFanOut(parse, before, e, after, past, ns);
      } else {
        ObjectNameInjective(cp.name, name);
        OthersUntouched(parse, before, after, cp, matched, hosts, faults);
        hide StepRel, Owned, ObjectName, Built, SameCIDRs;
        assert Slot(after, key) == Slot(before, key);
      }
    case NamespacedWrite(policy, np) =>
      NamespacedObjectsSeparate(policy, name);
      hide Owned, Built, SameCIDRs;
      assert Slot(after, key) == Slot(before, key);
    case Removal(k) =>
      hide Owned, Built, SameCIDRs;
  }

  /**
   * At every point of every run, whoever writes or deletes what, the policy's object in a namespace is
   * what `Build` made of the last written fan-out, and has the CIDRs of the last applied one.
   */
  lemma {:induction false} ClusterStoredIsLastWritten(
    parse: Parser, stores: seq<Store>, events: seq<StoreEvent>, name: string, ns: string, i: nat)
    requires IsRun(parse, stores, events) && i <= |events|
    ensures Explains(parse, Slot(stores[i], ObjectKey(name, ns)), PastAt(parse, stores, events, name, ns, i), name, ns)
  {
    hide StepRel, Explains, PastAfter, Owned;
    if i > 0 {
      ClusterStoredIsLastWritten(parse, stores, events, name, ns, i - 1);
      RunsKeepOwned(parse, stores, events, i - 1);
      StepExplains(parse, stores[i - 1], events[i - 1], stores[i], PastAt(parse, stores, events, name, ns, i - 1),
          name, ns);
    } else {
      NothingToExplain(parse, name, ns);
    }
  }

  lemma NothingToExplain(parse: Parser, name: string, ns: string)
    ensures Explains(parse, Slot(map[], ObjectKey(name, ns)), Past(None, None), name, ns)
  {
  }

  /**
   * It governs the pods and allows the traffic that `Build` makes of the last applied fan-out exactly when
   * that one and the last written one select the same pods and, unless that is none, open the same ports.
   */
  lemma ClusterStoredTrafficIff(
    parse: Parser, stores: seq<Store>, events: seq<StoreEvent>, name: string, ns: string, i: nat)
    requires IsRun(parse, stores, events) && i <= |events| && PastAt(parse, stores, events, name, ns, i).applied.Some?
    ensures ObjectKey(name, ns) in stores[i] && PastAt(parse, stores, events, name, ns, i).written.Some?
    ensures var past := PastAt(parse, stores, events, name, ns, i);
            SameEffect(parse, stores[i][ObjectKey(name, ns)], Built(parse, past.applied.value))
            <==> && SameSelection(past.written.value.podSelector, past.applied.value.podSelector)
                 && (Satisfiable(past.written.value.podSelector) ==>
                       GrantBeyondDNS(parse, past.written.value) == GrantBeyondDNS(parse, past.applied.value))
  {
    ClusterStoredIsLastWritten(parse, stores, events, name, ns, i);
    var past := PastAt(parse, stores, events, name, ns, i);
    hide IsRun, PastAt, Built, SameCIDRs, SameSelection, Satisfiable, GrantBeyondDNS;
    var f, g := past.written.value, past.applied.value;
    SkippedWriteHarmlessIff(parse, f, g);
    TagsDoNothing(parse, Built(parse, f), Built(parse, g), name);
  }

  lemma TagsDoNothing(parse: Parser, a: NetworkPolicy, b: NetworkPolicy, name: string)
    ensures SameEffect(parse, Tagged(a, name), b) <==> SameEffect(parse, a, b)
  {
    hide Allows, Selects;
    forall pod, t ensures VerdictOn(parse, Tagged(a, name), pod, t) == VerdictOn(parse, a, pod, t) {
    }
  }
}
