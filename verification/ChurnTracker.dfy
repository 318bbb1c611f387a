/** Per-hostname rings of the last ten address sets, and the number of distinct addresses in them. */
module ChurnTrackers {
  const CHURN_RING_SIZE := 10

  /** The last ten sets of a history, or all of them when there are fewer. */
  function Window(history: seq<set<string>>): seq<set<string>> {
    if |history| <= CHURN_RING_SIZE then history else history[|history| - CHURN_RING_SIZE..]
  }

  /** The window is the last ten sets, in order, or all of them when there are fewer. */
  lemma WindowIsLastTen(history: seq<set<string>>)
    ensures |Window(history)| == if |history| < 10 then |history| else 10
    ensures forall k | 0 <= k < |Window(history)| :: Window(history)[k] == history[|history| - |Window(history)| + k]
  {
  }

  function Union(sets: seq<set<string>>): (u: set<string>)
    ensures forall x :: x in u <==> exists i | 0 <= i < |sets| :: x in sets[i]
  {
    if sets == [] then {}
    else
      var rest := Union(sets[..|sets| - 1]);
      assert forall i | 0 <= i < |sets| - 1 :: sets[..|sets| - 1][i] == sets[i];
      rest + sets[|sets| - 1]
  }

  class ChurnRing {
    var slots: seq<set<string>>
    var head: nat
    ghost var history: seq<set<string>>  // every set written so far

    /** Slot `k % 10` holds set `k` of the window; slots never written are empty. */
    ghost predicate Valid()
      reads this
    {
      && |slots| == CHURN_RING_SIZE && head == |history| % CHURN_RING_SIZE
      && (forall k | 0 <= k < |history| && |history| - CHURN_RING_SIZE <= k :: slots[k % CHURN_RING_SIZE] == history[k])
      && (forall i | |history| <= i < CHURN_RING_SIZE :: slots[i] == {})
    }

    constructor ()
      ensures Valid() && history == []
    {
      slots := seq(CHURN_RING_SIZE, _ => {});
      head := 0;
      history := [];
    }

    method Write(slot: set<string>)
      requires Valid()
      modifies this
      ensures Valid() && history == old(history) + [slot]
    {
      slots := slots[head := slot];
      head := (head + 1) % CHURN_RING_SIZE;
      history := history + [slot];
    }

    /** The slots together hold exactly what the window holds. */
    lemma SlotsHoldWindow()
      requires Valid()
      ensures Union(slots) == Union(Window(history))
    {
      var n, w := |history|, Window(history);
      var from := n - |w|;
      forall x ensures x in Union(slots) <==> x in Union(w) {
        if i :| 0 <= i < |slots| && x in slots[i] {
          var k := LatestIn(n, i);
          assert w[k - from] == history[k];
        }
        if j :| 0 <= j < |w| && x in w[j] {
          assert w[j] == history[from + j] && slots[(from + j) % CHURN_RING_SIZE] == history[from + j];
        }
      }
    }
  }

  /** The latest position below `n` that falls into slot `i`. */
  function LatestIn(n: nat, i: nat): (k: nat)
    requires i < CHURN_RING_SIZE && i < n
    ensures n - CHURN_RING_SIZE <= k < n && k % CHURN_RING_SIZE == i
  {
    i + (n - 1 - i) / CHURN_RING_SIZE * CHURN_RING_SIZE
  }

  /** The sets recorded for one hostname, oldest first. */
  function SetsOf(log: seq<(string, set<string>)>, hostname: string): seq<set<string>> {
    if log == [] then []
    else
      var rest := SetsOf(log[..|log| - 1], hostname);
      if log[|log| - 1].0 == hostname then rest + [log[|log| - 1].1] else rest
  }

  class ChurnTracker {
    var history: map<string, ChurnRing>
    ghost var log: seq<(string, set<string>)>  // every call so far

    ghost predicate Valid()
      reads this, history.Values
    {
      && (forall h, k | h in history && k in history && h != k :: history[h] != history[k])
      && (forall h | h in history :: history[h].Valid() && history[h].history == SetsOf(log, h))
      && (forall h | h !in history :: SetsOf(log, h) == [])
    }

    constructor ()
      ensures Valid() && log == [] && history == map[]
    {
      history := map[];
      log := [];
    }

    /** Records one address set and returns the number of distinct addresses in this hostname's window. */
    method Record(hostname: string, ips: seq<string>) returns (churn: nat)
      requires Valid()
      modifies this, history.Values
      ensures Valid() && fresh(history.Values - old(history.Values))
      ensures log == old(log) + [(hostname, set ip | ip in ips)]
      ensures churn == |Union(Window(SetsOf(log, hostname)))|
    {
      hide ChurnRing.Valid, Union, Window;
      var slot := SlotOf(ips);
      var r := RingOf(hostname);
      r.Write(slot);
      log := log + [(hostname, slot)];
      LogStep(old(log), hostname, slot);
      hide SetsOf;
      churn := CountDistinct(r);
    }

    /** The ring of this hostname, created on first use. */
    method RingOf(hostname: string) returns (r: ChurnRing)
      requires Valid()
      modifies this`history
      ensures Valid() && hostname in history && history[hostname] == r
      ensures fresh(history.Values - old(history.Values)) && log == old(log)
    {
      if hostname in history {
        return history[hostname];
      }
      r := new ChurnRing();
      history := history[hostname := r];
    }
  }

  lemma LogStep(log: seq<(string, set<string>)>, hostname: string, slot: set<string>)
    ensures forall h :: SetsOf(log + [(hostname, slot)], h) == SetsOf(log, h) + if h == hostname then [slot] else []
  {
    assert (log + [(hostname, slot)])[..|log|] == log;
  }

  method SlotOf(ips: seq<string>) returns (slot: set<string>)
    ensures slot == set ip | ip in ips
  {
    slot := {};
    for i := 0 to |ips|
      invariant slot == set ip | ip in ips[..i]
    {
      assert ips[..i + 1] == ips[..i] + [ips[i]];
      slot := slot + {ips[i]};
    }
    assert ips[..|ips|] == ips;
  }

  method CountDistinct(r: ChurnRing) returns (count: nat)
    requires r.Valid()
    ensures count == |Union(Window(r.history))|
  {
    var seen: set<string> := {};
    for i := 0 to |r.slots|
      invariant seen == Union(r.slots[..i])
    {
      assert r.slots[..i + 1][..i] == r.slots[..i];
      seen := seen + r.slots[i];
    }
    assert r.slots[..|r.slots|] == r.slots;
    r.SlotsHoldWindow();
    count := |seen|;
  }

  /** Only this hostname's last ten sets matter: other hostnames and older sets never change the answer. */
  lemma {:induction false} OtherHostnamesIrrelevant(
    log: seq<(string, set<string>)>, other: seq<(string, set<string>)>, hostname: string)
    requires forall e | e in other :: e.0 != hostname
    ensures SetsOf(log + other, hostname) == SetsOf(log, hostname)
  {
    if other == [] {
      assert log + other == log;
    } else {
      var n := |other| - 1;
      assert (log + other)[..|log| + n] == log + other[..n];
      OtherHostnamesIrrelevant(log, other[..n], hostname);
    }
  }
}
