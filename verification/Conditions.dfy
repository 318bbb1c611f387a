/** Status conditions: an upsert that keeps the transition time while the status stays the same. */
module Conditions {
  import opened Strings
  import opened TTLQueues

  datatype Condition<M> = Condition(
    kind: string, status: bool, reason: string, message: M, observedGeneration: int, lastTransition: Time)

  /** One call of `setCondition`, with the clock reading it makes. */
  datatype Call<M> = Call(kind: string, status: bool, reason: string, message: M, generation: int, now: Time)

  function Fresh<M>(c: Call<M>): Condition<M> {
    Condition(c.kind, c.status, c.reason, c.message, c.generation, c.now)
  }

  function Upserted<M>(conditions: seq<Condition<M>>, c: Call<M>): seq<Condition<M>> {
    if conditions == [] then [Fresh(c)]
    else if conditions[0].kind == c.kind then
      [if conditions[0].status == c.status then Fresh(c).(lastTransition := conditions[0].lastTransition) else Fresh(c)]
      + conditions[1..]
    else [conditions[0]] + Upserted(conditions[1..], c)
  }

  /** The upsert overwrites the first slot of that kind. */
  lemma {:induction false} UpsertedAt<M>(conditions: seq<Condition<M>>, i: nat, c: Call<M>)
    requires i < |conditions| && conditions[i].kind == c.kind
    requires forall k | 0 <= k < i :: conditions[k].kind != c.kind
    ensures Upserted(conditions, c) ==
              conditions[i := if conditions[i].status == c.status
                              then Fresh(c).(lastTransition := conditions[i].lastTransition) else Fresh(c)]
  {
    if i > 0 {
      UpsertedAt(conditions[1..], i - 1, c);
    }
  }

  lemma {:induction false} UpsertedAppends<M>(conditions: seq<Condition<M>>, c: Call<M>)
    requires forall k | 0 <= k < |conditions| :: conditions[k].kind != c.kind
    ensures Upserted(conditions, c) == conditions + [Fresh(c)]
  {
    if conditions != [] {
      UpsertedAppends(conditions[1..], c);
    }
  }

  /** `setCondition`: overwrites the first slot of that kind, or appends. */
  method SetCondition<M>(conditions: seq<Condition<M>>, c: Call<M>) returns (updated: seq<Condition<M>>)
    ensures updated == Upserted(conditions, c)
  {
    var cond := Fresh(c);
    for i := 0 to |conditions|
      invariant forall k | 0 <= k < i :: conditions[k].kind != c.kind
    {
      if conditions[i].kind == c.kind {
        if conditions[i].status == c.status {
          cond := cond.(lastTransition := conditions[i].lastTransition);
        }
        UpsertedAt(conditions, i, c);
        return conditions[i := cond];
      }
    }
    UpsertedAppends(conditions, c);
    return conditions + [cond];
  }

  // ---- the list as a summary of the calls that made it ----

  function After<M>(log: seq<Call<M>>): seq<Condition<M>> {
    if log == [] then [] else Upserted(After(log[..|log| - 1]), log[|log| - 1])
  }

  function OfKind<M>(log: seq<Call<M>>, kind: string): (r: seq<Call<M>>)
    ensures forall c | c in r :: c.kind == kind
  {
    if log == [] then []
    else
      var rest := OfKind(log[..|log| - 1], kind);
      if log[|log| - 1].kind == kind then rest + [log[|log| - 1]] else rest
  }

  /** Where the trailing block of calls with the current status begins. */
  function TrailStart<M>(calls: seq<Call<M>>): (k: nat)
    requires calls != []
    ensures k < |calls|
    ensures forall i | k <= i < |calls| :: calls[i].status == calls[|calls| - 1].status
    ensures k > 0 ==> calls[k - 1].status != calls[|calls| - 1].status
  {
    var n := |calls| - 1;
    if n == 0 || calls[n - 1].status != calls[n].status then n else TrailStart(calls[..n])
  }

  /** The condition that a history of calls of one kind leaves behind. */
  function Summary<M>(calls: seq<Call<M>>): Condition<M>
    requires calls != []
  {
    Fresh(calls[|calls| - 1]).(lastTransition := calls[TrailStart(calls)].now)
  }

  ghost predicate DistinctKinds<M>(conditions: seq<Condition<M>>) {
    forall i, j | 0 <= i < j < |conditions| :: conditions[i].kind != conditions[j].kind
  }

  /** The list holds, for this kind, exactly the given condition. */
  ghost predicate Holds<M>(conditions: seq<Condition<M>>, kind: string, c: Option<Condition<M>>) {
    && (forall x | x in conditions && x.kind == kind :: c == Some(x))
    && (c.Some? ==> c.value in conditions && c.value.kind == kind)
  }

  lemma {:induction false} UpsertKeepsKinds<M>(conditions: seq<Condition<M>>, c: Call<M>)
    ensures forall x | x in Upserted(conditions, c) :: x.kind == c.kind || x in conditions
    ensures forall x | x in conditions && x.kind != c.kind :: x in Upserted(conditions, c)
    ensures DistinctKinds(conditions) ==> DistinctKinds(Upserted(conditions, c))
  {
    if conditions != [] {
      assert conditions == [conditions[0]] + conditions[1..];
      var u := Upserted(conditions, c);
      if conditions[0].kind != c.kind {
        UpsertKeepsKinds(conditions[1..], c);
        assert u == [conditions[0]] + Upserted(conditions[1..], c);
        if DistinctKinds(conditions) {
          forall i, j | 0 <= i < j < |u| ensures u[i].kind != u[j].kind {
            assert i == 0 ==> u[j] in u[1..] && (u[j].kind == c.kind || u[j] in conditions[1..]);
            assert i > 0 ==> u[i] == u[1..][i - 1] && u[j] == u[1..][j - 1];
          }
        }
      }
    }
  }

  lemma {:induction false} UpsertSets<M>(conditions: seq<Condition<M>>, c: Call<M>, was: Option<Condition<M>>)
    requires DistinctKinds(conditions) && Holds(conditions, c.kind, was)
    ensures Holds(Upserted(conditions, c), c.kind,
                  Some(if was.Some? && was.value.status == c.status
                       then Fresh(c).(lastTransition := was.value.lastTransition) else Fresh(c)))
  {
    if conditions != [] {
      assert conditions == [conditions[0]] + conditions[1..];
      if conditions[0].kind != c.kind {
        UpsertSets(conditions[1..], c, was);
      }
    }
  }

  /**
   * After any history there is at most one condition per kind; it carries the latest call's reason
   * and message, and the time of the first call of the trailing block with the current status.
   */
  lemma {:induction false} ConditionsSummarizeHistory<M>(log: seq<Call<M>>, kind: string)
    ensures DistinctKinds(After(log))
    ensures var calls := OfKind(log, kind);
            Holds(After(log), kind, if calls == [] then None else Some(Summary(calls)))
  {
    if log != [] {
      var n := |log| - 1;
      var c := log[n];
      ConditionsSummarizeHistory(log[..n], kind);
      UpsertKeepsKinds(After(log[..n]), c);
      if c.kind == kind {
        var calls := OfKind(log[..n], kind);
        assert OfKind(log, kind)[..|calls|] == calls;
        UpsertSets(After(log[..n]), c, if calls == [] then None else Some(Summary(calls)));
      }
    }
  }
}
