/** Convergence of the cluster controller's fan-out, from any store that ordinary operation can reach. */
module ClusterRuns {
  import opened Addresses
  import opened Policies
  import opened NetPol
  import opened ClusterReconciler

  const NO_FAULTS := Faults({}, {}, false, {})

  /** Objects are filed under their own identity, and exactly those named for a cluster policy carry its label. */
  ghost predicate Owned(store: Store) {
    && (forall k | k in store :: store[k].name == k.name && store[k].namespace == k.namespace)
    && (forall k, c: string | k in store :: LabelledBy(store[k], c) <==> k.name == ObjectName(c))
  }

  lemma ObjectNameInjective(c: string, d: string)
    ensures ObjectName(c) == ObjectName(d) ==> c == d
  {
    assert |"fqdnnp-" + "cfqdnnp-"| == 15;
    assert ObjectName(c)[15..] == c && ObjectName(d)[15..] == d;
  }

  /** A namespaced policy's object shares a name with a cluster policy's only if the policy is named for it. */
  lemma NamespacedObjectsSeparate(policy: string, c: string)
    ensures OwnerName(policy) == ObjectName(c) <==> policy == SyntheticName(c)
  {
    assert OwnerName(policy)[7..] == policy && ObjectName(c)[7..] == SyntheticName(c);
  }

  /** How a cluster policy's objects are named and labelled; garbage collection goes by the first label. */
  lemma DesiredIdentity(parse: Parser, cp: ClusterPolicy, namespace: string, hosts: seq<ResolvedHost>)
    ensures var np := Desired(parse, cp, namespace, hosts);
            && np.name == "fqdnnp-cfqdnnp-" + cp.name && np.namespace == namespace
            && np.podSelector == cp.spec.podSelector
            && np.labels == map["netsec.kunal.dev/cluster-policy" := cp.name,
                                "netsec.kunal.dev/managed-by" := "fqdn-network-policy",
                                "netsec.kunal.dev/fqdnnetworkpolicy" := "cfqdnnp-" + cp.name]
  {
    assert "fqdnnp-" + ("cfqdnnp-" + cp.name) == "fqdnnp-cfqdnnp-" + cp.name;
    var a, b, c := "netsec.kunal.dev/cluster-policy", "netsec.kunal.dev/managed-by",
        "netsec.kunal.dev/fqdnnetworkpolicy";
    assert a != b && a != c by { assert |a| == 31 && |b| == 27 && |c| == 34; }
  }

  lemma DesiredLabels(parse: Parser, cp: ClusterPolicy, namespace: string, hosts: seq<ResolvedHost>, c: string)
    ensures LabelledBy(Desired(parse, cp, namespace, hosts), c) <==> ObjectName(cp.name) == ObjectName(c)
  {
    ObjectNameInjective(cp.name, c);
  }

  /** Placing one namespace's object changes that key at most, and only to the desired object. */
  lemma PlacedPointwise(
    parse: Parser, store: Store, cp: ClusterPolicy, namespace: string, hosts: seq<ResolvedHost>, faults: Faults)
    requires Owned(store)
    ensures var desired, after := Desired(parse, cp, namespace, hosts),
            Placed(store, Desired(parse, cp, namespace, hosts), faults);
            var key := Key(namespace, ObjectName(cp.name));
            && Owned(after)
            && (forall k | k != key :: (k in after <==> k in store) && (k in store ==> after[k] == store[k]))
            && (faults == NO_FAULTS ==> key in after && SameCIDRs(after[key].egress, desired.egress))
  {
    hide SameCIDRs, Built;
    var desired := Desired(parse, cp, namespace, hosts);
    var after := Placed(store, desired, faults);
    var key := Key(namespace, ObjectName(cp.name));
    Reflexive(desired.egress);
    forall k, c: string | k in after ensures LabelledBy(after[k], c) <==> k.name == ObjectName(c) {
      if k == key && after != store {
        DesiredLabels(parse, cp, namespace, hosts, c);
        assert after[k].labels == desired.labels;
      }
    }
  }

  lemma Reflexive(egress: seq<EgressRule>)
    ensures SameCIDRs(egress, egress)
  {
  }

  /** The keys of this cluster policy's objects in the first `n` matched namespaces. */
  ghost predicate InFirst(k: Key, cp: ClusterPolicy, matched: seq<string>, n: nat)
    requires n <= |matched|
  {
    k.name == ObjectName(cp.name) && k.namespace in matched[..n]
  }

  lemma {:induction false} FannedOutPointwise(
    parse: Parser, store: Store, cp: ClusterPolicy, matched: seq<string>, hosts: seq<ResolvedHost>, faults: Faults,
    n: nat)
    requires Owned(store) && n <= |matched|
    ensures var after := FannedOut(parse, store, cp, matched, hosts, faults, n);
            && Owned(after)
            && (forall k | !InFirst(k, cp, matched, n) ::
               (k in after <==> k in store) && (k in store ==> after[k] == store[k]))
            && (faults == NO_FAULTS ==> forall k | InFirst(k, cp, matched, n) ::
                  k in after && SameCIDRs(after[k].egress, Desired(parse, cp, k.namespace, hosts).egress))
  {
    hide Owned, Placed, Desired, SameCIDRs;
    if n > 0 {
      FannedOutPointwise(parse, store, cp, matched, hosts, faults, n - 1);
      PlacedPointwise(parse, FannedOut(parse, store, cp, matched, hosts, faults, n - 1), cp, matched[n - 1], hosts,
          faults);
      InFirstStep(cp, matched, n);
      hide InFirst;
    }
  }

  lemma InFirstStep(cp: ClusterPolicy, matched: seq<string>, n: nat)
    requires 0 < n <= |matched|
    ensures forall k :: InFirst(k, cp, matched, n)
                        <==> InFirst(k, cp, matched, n - 1) || k == Key(matched[n - 1], ObjectName(cp.name))
  {
    assert matched[..n] == matched[..n - 1] + [matched[n - 1]];
  }

  // ---- every run keeps ownership ----

  datatype StoreEvent =
    | FanOutEvent(cp: ClusterPolicy, matched: seq<string>, hosts: seq<ResolvedHost>, faults: Faults)
    | NamespacedWrite(policy: string, np: NetworkPolicy)
    | Removal(key: Key)

  /** One step by anybody; namespaced policies are not named for a cluster policy and set no cluster label. */
  ghost predicate StepRel(parse: Parser, before: Store, e: StoreEvent, after: Store) {
    match e
    case FanOutEvent(cp, matched, hosts, faults) => StoreStep(parse, before, after, cp, matched, hosts, faults)
    case NamespacedWrite(policy, np) =>
      && (forall c :: policy != SyntheticName(c))
      && np.name == OwnerName(policy) && CLUSTER_LABEL !in np.labels
      && after == before[Key(np.namespace, np.name) := np]
    case Removal(key) => after == before - {key}
  }

  ghost predicate IsRun(parse: Parser, stores: seq<Store>, events: seq<StoreEvent>) {
    && |stores| == |events| + 1 && stores[0] == map[]
    && forall i | 0 <= i < |events| :: StepRel(parse, stores[i], events[i], stores[i + 1])
  }

  lemma StepKeepsOwned(parse: Parser, before: Store, e: StoreEvent, after: Store)
    requires Owned(before) && StepRel(parse, before, e, after)
    ensures Owned(after)
  {
    match e
    case FanOutEvent(cp, matched, hosts, faults) =>
      FannedOutPointwise(parse, before, cp, matched, hosts, faults, |matched|);
      SubstoreOwned(FannedOut(parse, before, cp, matched, hosts, faults, |matched|), after);
    case NamespacedWrite(policy, np) =>
      forall c { NamespacedObjectsSeparate(policy, c); }
    case Removal(key) =>
  }

  lemma SubstoreOwned(store: Store, sub: Store)
    requires Owned(store) && sub.Keys <= store.Keys && forall k | k in sub :: sub[k] == store[k]
    ensures Owned(sub)
  {
  }

  /** From an empty store, whatever cluster policies, namespaced policies, faults and deletions do. */
  lemma {:induction false} RunsKeepOwned(parse: Parser, stores: seq<Store>, events: seq<StoreEvent>, i: nat)
    requires IsRun(parse, stores, events) && i <= |events|
    ensures Owned(stores[i])
  {
    hide StepRel, Owned;
    if i == 0 {
      EmptyOwned();
    } else {
      RunsKeepOwned(parse, stores, events, i - 1);
      StepKeepsOwned(parse, stores[i - 1], events[i - 1], stores[i]);
    }
  }

  lemma EmptyOwned()
    ensures Owned(map[])
  {
  }

  // ---- convergence ----

  /** This policy's objects are in exactly the matched namespaces, with the CIDRs built from these hosts. */
  ghost predicate Converged(
    parse: Parser, store: Store, cp: ClusterPolicy, matched: seq<string>, hosts: seq<ResolvedHost>) {
    && (forall k | k in store && LabelledBy(store[k], cp.name) ::
          k.name == ObjectName(cp.name) && k.namespace in matched)
    && (forall ns | ns in matched ::
          var key := Key(ns, ObjectName(cp.name));
          && key in store && LabelledBy(store[key], cp.name) && store[key].namespace == ns
          && SameCIDRs(store[key].egress, Desired(parse, cp, ns, hosts).egress))
  }

  /**
   * One reconcile without faults converges, from any store reachable in a run.
   */
  lemma OneReconcileConverges(
    parse: Parser, before: Store, after: Store, cp: ClusterPolicy, matched: seq<string>, hosts: seq<ResolvedHost>)
    requires Owned(before) && StoreStep(parse, before, after, cp, matched, hosts, NO_FAULTS)
    ensures Converged(parse, after, cp, matched, hosts)
  {
    FannedOutPointwise(parse, before, cp, matched, hosts, NO_FAULTS, |matched|);
    assert matched[..|matched|] == matched;
    var fanned := FannedOut(parse, before, cp, matched, hosts, NO_FAULTS, |matched|);
    StaleKeys(fanned, cp, matched);
    hide FannedOut, Desired, SameCIDRs, LabelledBy, Stale;
    forall k | k in fanned && k.name == ObjectName(cp.name) && k.namespace in matched
      ensures k in after && after[k] == fanned[k] && LabelledBy(after[k], cp.name) && after[k].namespace == k.namespace
      ensures SameCIDRs(after[k].egress, Desired(parse, cp, k.namespace, hosts).egress)
    {
      assert InFirst(k, cp, matched, |matched|);
    }
    forall ns | ns in matched ensures Key(ns, ObjectName(cp.name)) in fanned {
      assert InFirst(Key(ns, ObjectName(cp.name)), cp, matched, |matched|);
    }
  }

  /** Whatever fails, a reconcile leaves every object of every other policy as it was. */
  lemma OthersUntouched(
    parse: Parser, before: Store, after: Store, cp: ClusterPolicy, matched: seq<string>, hosts: seq<ResolvedHost>,
    faults: Faults)
    requires Owned(before) && StoreStep(parse, before, after, cp, matched, hosts, faults)
    ensures forall k: Key | k.name != ObjectName(cp.name) ::
            (k in after <==> k in before) && (k in before ==> after[k] == before[k])
  {
    FannedOutPointwise(parse, before, cp, matched, hosts, faults, |matched|);
    StaleKeys(FannedOut(parse, before, cp, matched, hosts, faults, |matched|), cp, matched);
    hide FannedOut, Owned, Stale;
  }

  lemma StaleKeys(store: Store, cp: ClusterPolicy, matched: seq<string>)
    requires Owned(store)
    ensures forall k :: k in Stale(store, cp.name, matched)
                        <==> k in store && k.name == ObjectName(cp.name) && k.namespace !in matched
  {
  }

  /** With hosts of the same CIDRs a converged store wants no create, no update and no delete. */
  lemma ConvergedIsQuiet(
    parse: Parser, store: Store, cp: ClusterPolicy, matched: seq<string>, hosts: seq<ResolvedHost>,
    again: seq<ResolvedHost>)
    requires Converged(parse, store, cp, matched, hosts)
    requires multiset(Peers(parse, hosts)) == multiset(Peers(parse, again))
    ensures forall ns | ns in matched :: !WantsWrite(store, Desired(parse, cp, ns, again))
    ensures Stale(store, cp.name, matched) == {}
  {
    hide Built;
    forall ns | ns in matched ensures !WantsWrite(store, Desired(parse, cp, ns, again)) {
      BuiltPeers(parse, SyntheticPolicy(cp, ns, hosts));
      BuiltPeers(parse, SyntheticPolicy(cp, ns, again));
    }
    forall k | k in store && LabelledBy(store[k], cp.name) ensures store[k].namespace in matched {
      assert k == Key(k.namespace, ObjectName(cp.name));
    }
  }

  /** Hence the second reconcile leaves the whole store as it is, whatever faults occur. */
  lemma SecondReconcileChangesNothing(
    parse: Parser, store: Store, after: Store, cp: ClusterPolicy, matched: seq<string>, hosts: seq<ResolvedHost>,
    again: seq<ResolvedHost>, faults: Faults)
    requires Converged(parse, store, cp, matched, hosts)
    requires multiset(Peers(parse, hosts)) == multiset(Peers(parse, again))
    requires StoreStep(parse, store, after, cp, matched, again, faults)
    ensures after == store
  {
    hide WantsWrite, Stale, Desired, Converged, FannedOut, Peers;
    ConvergedIsQuiet(parse, store, cp, matched, hosts, again);
    NothingPlaced(parse, store, cp, matched, again, faults, |matched|);
    NothingRemoved(store, after);
  }

  lemma NothingRemoved(store: Store, after: Store)
    requires after.Keys <= store.Keys && (forall k | k in after :: after[k] == store[k])
             && store.Keys - after.Keys <= {}
    ensures after == store
  {
    forall k | k in store ensures k in after {
      assert k in store.Keys - after.Keys || k in after.Keys;
    }
  }

  lemma {:induction false} NothingPlaced(
    parse: Parser, store: Store, cp: ClusterPolicy, matched: seq<string>, hosts: seq<ResolvedHost>, faults: Faults,
    n: nat)
    requires n <= |matched|
    requires forall ns | ns in matched :: !WantsWrite(store, Desired(parse, cp, ns, hosts))
    ensures FannedOut(parse, store, cp, matched, hosts, faults, n) == store
  {
    hide WantsWrite, Desired;
    if n > 0 {
      NothingPlaced(parse, store, cp, matched, hosts, faults, n - 1);
      assert matched[n - 1] in matched;
    }
  }
}
