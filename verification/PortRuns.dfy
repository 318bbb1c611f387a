/** The ports of generated objects against the intent of the rules, in every reachable state. */
module PortRuns {
  import opened NetPol
  import opened ResolutionPass
  import opened Reconciler
  import opened ReconcilerRuns
  import opened PortIntent

  /** A pass over the rules records hosts under the patterns of its rules only. */
  lemma {:induction false} PassFromRules(k: Controller, p: Pass, n: nat)
    requires p.Complete() && n <= |p.egress|
    ensures forall h | h in p.Hosts(k.parse, n) :: exists rule | rule in p.egress :: rule.pattern == h.hostname
  {
    hide RuleEffect;
    if n > 0 {
      PassFromRules(k, p, n - 1);
      k.EffectPattern(p, n - 1);
      HostsStep(k.parse, p, n - 1);
      hide Pass.Hosts, Pass.At;
      assert p.egress[n - 1] in p.egress;
    }
  }

  lemma SnapFromRules(k: Controller, w: World, c: Cycle)
    requires c.Complete()
    ensures HostsFromRules(k.Snap(w, c))
  {
    hide Pass.Hosts;
    PassFromRules(k, PassOf(c, w.status), |c.spec.egress|);
  }

  /** What is written or applied in a run has its hosts from its own rules. */
  lemma {:induction false} RunFromRules(k: Controller, events: seq<Event>)
    requires Complete(events)
    ensures var t := k.Run(events);
            && (t.written.Some? ==> HostsFromRules(t.written.value))
            && (t.applied.Some? ==> HostsFromRules(t.applied.value))
  {
    hide HostsFromRules, Next, NeedsWrite, Controller.AppliesCycle, Controller.Snap;
    if events != [] {
      var before, e := events[..|events| - 1], events[|events| - 1];
      RunFromRules(k, before);
      if e.Reconciled? {
        SnapFromRules(k, k.Run(before).world, e.c);
      }
    }
  }

  /**
   * At every point of every run the stored object opens nothing but DNS beyond what the rules of the last
   * written cycle ask for exactly when that cycle recorded no host, or some address and every pooled port
   * is asked for by a rule of each recorded address, or no address and pooled no port beyond DNS.
   */
  lemma StoredOnlyDNSAddedIff(k: Controller, events: seq<Event>)
    requires Complete(events) && k.Run(events).written.Some?
    ensures k.Run(events).world.stored.Some?
    ensures var t, fp := k.Run(events), k.Run(events).written.value;
            (forall x | Allows(k.parse, t.world.stored.value.egress, x) && !IsDNS(x) :: Intended(k.parse, fp, x))
            <==> || fp.hosts == []
                 || (!NoAddresses(fp.hosts) && EveryPortListed(k.parse, fp))
                 || (NoAddresses(fp.hosts) && PortGrant(PooledPorts(fp.egress)) == NoPorts)
  {
    k.StoredIsLastWritten(events);
    RunFromRules(k, events);
    hide Controller.Run, Built, Intended, EveryPortListed, NoAddresses, HostsFromRules;
    OnlyDNSAddedIff(k.parse, k.Run(events).written.value);
  }
}
