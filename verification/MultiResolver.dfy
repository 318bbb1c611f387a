/** Merging the answers of several upstream resolvers, which arrive in any order. */
module MultiResolver {
  import opened Strings
  import opened IPFilter
  import opened ResolutionPass

  /** One answer taken from the channel. */
  datatype Answer = Answer(upstream: string, ips: seq<string>, cnameChain: seq<string>, ttl: int, dnssec: bool)

  function ClampTTL(d: int): int {
    if d < TTL_FLOOR then TTL_FLOOR else if d > TTL_CEILING then TTL_CEILING else d
  }

  // ---- what the merge means, without reference to order ----

  ghost function AllIPs(answers: seq<Answer>): set<string> {
    set a, ip | a in answers && ip in a.ips :: ip
  }

  /** The upstreams that returned at least one address. */
  ghost function Responders(answers: seq<Answer>): set<string> {
    set a | a in answers && a.ips != [] :: a.upstream
  }

  ghost function IPsOf(answers: seq<Answer>, upstream: string): set<string> {
    set a, ip | a in answers && a.upstream == upstream && ip in a.ips :: ip
  }

  /** The addresses that some responding upstream did not return. */
  ghost function Disputed(answers: seq<Answer>): set<string> {
    set ip | ip in AllIPs(answers) && exists u | u in Responders(answers) :: ip !in IPsOf(answers, u)
  }

  /** The least positive TTL, or the ceiling when none is below it. */
  ghost predicate IsMinTTL(answers: seq<Answer>, ttl: int) {
    && (forall a | a in answers && a.ttl > 0 :: ttl <= a.ttl)
    && ttl <= TTL_CEILING
    && (ttl == TTL_CEILING || exists a | a in answers :: a.ttl == ttl > 0)
  }

  ghost predicate Lists(list: seq<string>, elements: set<string>) {
    NoDuplicates(list) && forall x :: x in list <==> x in elements
  }

  ghost predicate IsMerge(answers: seq<Answer>, r: Resolution) {
    && Lists(r.ips, AllIPs(answers))
    && r.resolverResults.Keys == Responders(answers)
    && (forall u | u in r.resolverResults :: Lists(r.resolverResults[u], IPsOf(answers, u)))
    && r.resolverDivergence == |Disputed(answers)|
    && (r.dnssecValidated <==> exists a | a in answers :: a.dnssec)
    && (exists ttl :: IsMinTTL(answers, ttl) && r.ttl == ClampTTL(ttl))
  }

  // ---- the merge ----

  type Sets = map<string, set<string>>

  ghost predicate Collected(answers: seq<Answer>, n: nat, ipSet: set<string>, upstreamIPs: Sets)
    requires n <= |answers|
  {
    && ipSet == AllIPs(answers[..n])
    && upstreamIPs.Keys == Responders(answers[..n])
    && forall u | u in upstreamIPs :: upstreamIPs[u] == IPsOf(answers[..n], u)
  }

  function Elements(s: seq<string>): set<string> {
    set x | x in s
  }

  /** One received answer: add its addresses overall and under its upstream. */
  method Collect(
    answers: seq<Answer>, i: nat, ipSet: set<string>, upstreamIPs: Sets) returns (all: set<string>, per: Sets)
    requires i < |answers| && Collected(answers, i, ipSet, upstreamIPs)
    ensures Collected(answers, i + 1, all, per)
  {
    hide AllIPs, Responders, IPsOf, Elements;
    var r := answers[i];
    all, per := ipSet, upstreamIPs;
    NoElements(r.ips);
    for j := 0 to |r.ips|
      invariant all == ipSet + Elements(r.ips[..j])
      invariant per == if j == 0 then upstreamIPs
                else upstreamIPs[r.upstream := Under(upstreamIPs, r.upstream) + Elements(r.ips[..j])]
    {
      var ip := r.ips[j];
      ElementsStep(r.ips, j);
      all := all + {ip};
      if r.upstream !in per {
        per := per[r.upstream := {}];
      }
      per := per[r.upstream := per[r.upstream] + {ip}];
      assert per[r.upstream] == Under(upstreamIPs, r.upstream) + Elements(r.ips[..j + 1]);
    }
    assert r.ips[..|r.ips|] == r.ips && answers[..i + 1] == answers[..i] + [r];
    CollectOne(answers[..i], r, upstreamIPs);
  }

  function Under(upstreamIPs: Sets, u: string): set<string> {
    if u in upstreamIPs then upstreamIPs[u] else {}
  }

  lemma NoElements(s: seq<string>)
    ensures Elements(s[..0]) == {}
  {
  }

  lemma ElementsStep(s: seq<string>, j: nat)
    requires j < |s|
    ensures Elements(s[..j + 1]) == Elements(s[..j]) + {s[j]}
  {
    assert s[..j + 1] == s[..j] + [s[j]];
  }

  lemma NoAnswers(answers: seq<Answer>, u: string)
    requires u !in Responders(answers)
    ensures IPsOf(answers, u) == {}
  {
  }

  lemma CollectOne(answers: seq<Answer>, r: Answer, upstreamIPs: Sets)
    requires upstreamIPs.Keys == Responders(answers) && forall u | u in upstreamIPs ::
             upstreamIPs[u] == IPsOf(answers, u)
    ensures AllIPs(answers + [r]) == AllIPs(answers) + Elements(r.ips)
    ensures Responders(answers + [r]) == Responders(answers) + (if r.ips != [] then {r.upstream} else {})
    ensures IPsOf(answers + [r], r.upstream) == Under(upstreamIPs, r.upstream) + Elements(r.ips)
    ensures forall u | u != r.upstream || r.ips == [] :: IPsOf(answers + [r], u) == IPsOf(answers, u)
  {
    var more := answers + [r];
    assert forall a :: a in more <==> a in answers || a == r;
    assert AllIPs(more) == AllIPs(answers) + Elements(r.ips);
    if r.upstream !in upstreamIPs {
      NoAnswers(answers, r.upstream);
    }
    assert IPsOf(more, r.upstream) == IPsOf(answers, r.upstream) + Elements(r.ips);
  }

  /** The elements of a Go set, in whatever order the map yields them. */
  method Listing(elements: set<string>) returns (list: seq<string>)
    ensures Lists(list, elements)
  {
    list := [];
    var todo := elements;
    while todo != {}
      invariant todo <= elements && Lists(list, elements - todo)
      decreases todo
    {
      var x :| x in todo;
      todo := todo - {x};
      list := list + [x];
    }
  }

  ghost function Contested(ipSet: set<string>, upstreamIPs: Sets): set<string> {
    set ip | ip in ipSet && exists u | u in upstreamIPs :: ip !in upstreamIPs[u]
  }

  /** Counts, over addresses and upstreams in any order, the addresses fewer than all upstreams returned. */
  method CountDivergence(ipSet: set<string>, upstreamIPs: Sets) returns (divergence: nat)
    ensures divergence == |Contested(ipSet, upstreamIPs)|
  {
    divergence := 0;
    var todo := ipSet;
    ghost var found: set<string> := {};
    while todo != {}
      invariant todo <= ipSet && divergence == |found|
      invariant found == Contested(ipSet - todo, upstreamIPs)
      decreases todo
    {
      var ip :| ip in todo;
      todo := todo - {ip};
      var count := CountUpstreams(upstreamIPs, ip);
      if count < |upstreamIPs| {
        divergence := divergence + 1;
        found := found + {ip};
      }
    }
    assert found == Contested(ipSet, upstreamIPs);
  }

  method CountUpstreams(upstreamIPs: Sets, ip: string) returns (count: nat)
    ensures count <= |upstreamIPs|
    ensures count < |upstreamIPs| <==> exists u | u in upstreamIPs :: ip !in upstreamIPs[u]
  {
    count := 0;
    var todo := upstreamIPs.Keys;
    ghost var missed: set<string> := {};
    while todo != {}
      invariant todo <= upstreamIPs.Keys && count + |missed| + |todo| == |upstreamIPs.Keys|
      invariant missed == set u | u in upstreamIPs && u !in todo && ip !in upstreamIPs[u]
      decreases todo
    {
      var u :| u in todo;
      todo := todo - {u};
      if ip in upstreamIPs[u] {
        count := count + 1;
      } else {
        missed := missed + {u};
      }
    }
    assert |upstreamIPs| == |upstreamIPs.Keys|;
    if u :| u in upstreamIPs && ip !in upstreamIPs[u] {
      assert u in missed;
    } else {
      assert missed == {};
    }
  }

  method ListPerUpstream(upstreamIPs: Sets) returns (results: map<string, seq<string>>)
    ensures results.Keys == upstreamIPs.Keys && forall u | u in results :: Lists(results[u], upstreamIPs[u])
  {
    results := map[];
    var todo := upstreamIPs.Keys;
    while todo != {}
      invariant todo <= upstreamIPs.Keys && results.Keys == upstreamIPs.Keys - todo
      invariant forall u | u in results :: Lists(results[u], upstreamIPs[u])
      decreases todo
    {
      var u :| u in todo;
      todo := todo - {u};
      var list := Listing(upstreamIPs[u]);
      results := results[u := list];
    }
  }

  /** The first CNAME chain that is not empty, in arrival order. */
  function FirstChain(answers: seq<Answer>): seq<string> {
    if answers == [] then []
    else
      var before := FirstChain(answers[..|answers| - 1]);
      if before != [] then before else answers[|answers| - 1].cnameChain
  }

  /** The receive loop and the summary; `None` means every query failed and the fallback resolver is used. */
  method Merge(answers: seq<Answer>) returns (r: Option<Resolution>)
    ensures r.None? <==> AllIPs(answers) == {}
    ensures r.Some? ==> IsMerge(answers, r.value) && r.value.cnameChain == FirstChain(answers)
  {
    var ipSet: set<string>, upstreamIPs: Sets := {}, map[];
    var dnssecValidated, cnameChain, minTTL := false, [], TTL_CEILING;
    for i := 0 to |answers|
      invariant Collected(answers, i, ipSet, upstreamIPs)
      invariant dnssecValidated <==> exists k | 0 <= k < i :: answers[k].dnssec
      invariant forall k | 0 <= k < i && answers[k].ttl > 0 :: minTTL <= answers[k].ttl
      invariant minTTL <= TTL_CEILING
                && (minTTL == TTL_CEILING || exists k | 0 <= k < i :: answers[k].ttl == minTTL > 0)
      invariant cnameChain == FirstChain(answers[..i])
    {
      hide Collected;
      assert answers[..i + 1][..i] == answers[..i];
      ipSet, upstreamIPs := Collect(answers, i, ipSet, upstreamIPs);
      var a := answers[i];
      if a.dnssec {
        dnssecValidated := true;
      }
      if a.ttl > 0 && a.ttl < minTTL {
        minTTL := a.ttl;
      }
      if |cnameChain| == 0 {
        cnameChain := a.cnameChain;
      }
    }
    assert answers[..|answers|] == answers;
    assert IsMinTTL(answers, minTTL);
    if ipSet == {} {
      return None;
    }
    var divergence := CountDivergence(ipSet, upstreamIPs);
    assert Disputed(answers) == Contested(ipSet, upstreamIPs);
    var ips := Listing(ipSet);
    var results := ListPerUpstream(upstreamIPs);
    r := Some(Resolution(ips, cnameChain, ClampTTL(minTTL), dnssecValidated, divergence, results));
  }

  // ---- properties of every merge ----

  /**
   * The merged TTL lies between five seconds and five minutes, is no longer than any positive TTL answered
   * from five seconds up, and is one of those answered unless it is an end of that interval.
   */
  lemma MergedTTL(answers: seq<Answer>, r: Resolution)
    requires IsMerge(answers, r)
    ensures 5_000_000_000 <= r.ttl <= 300_000_000_000
    ensures forall a | a in answers && a.ttl >= 5_000_000_000 :: r.ttl <= a.ttl
    ensures r.ttl == 5_000_000_000 <==> exists a | a in answers :: 0 < a.ttl <= 5_000_000_000
    ensures r.ttl == 300_000_000_000 || r.ttl == 5_000_000_000 || exists a | a in answers :: a.ttl == r.ttl
  {
    var ttl :| IsMinTTL(answers, ttl) && r.ttl == ClampTTL(ttl);
  }

  /** The merged chain is the first one in arrival order that is not empty. */
  lemma {:induction false} FirstChainMeaning(answers: seq<Answer>)
    ensures FirstChain(answers) == [] <==> forall a | a in answers :: a.cnameChain == []
    ensures FirstChain(answers) != [] ==>
              exists i | 0 <= i < |answers| ::
                answers[i].cnameChain == FirstChain(answers) && forall j | 0 <= j < i :: answers[j].cnameChain == []
  {
    if answers != [] {
      var n := |answers| - 1;
      FirstChainMeaning(answers[..n]);
      assert answers == answers[..n] + [answers[n]];
      assert FirstChain(answers[..n]) == [] ==> forall j | 0 <= j < n :: answers[j] in answers[..n];
    }
  }

  lemma MinTTLUnique(answers: seq<Answer>, s: int, t: int)
    requires IsMinTTL(answers, s) && IsMinTTL(answers, t)
    ensures s == t
  {
  }

  /** Arrival order does not matter, except for the CNAME chain and the order within the lists. */
  lemma ArrivalOrderIrrelevant(a: seq<Answer>, b: seq<Answer>, r: Resolution, s: Resolution)
    requires multiset(a) == multiset(b) && IsMerge(a, r) && IsMerge(b, s)
    ensures multiset(r.ips) == multiset(s.ips)
    ensures r.resolverResults.Keys == s.resolverResults.Keys
    ensures forall u | u in r.resolverResults :: multiset(r.resolverResults[u]) == multiset(s.resolverResults[u])
    ensures r.ttl == s.ttl && r.dnssecValidated == s.dnssecValidated && r.resolverDivergence == s.resolverDivergence
  {
    PermutationElements(a, b);
    SameMerge(a, b);
    SameElementsSameMultiset(r.ips, s.ips);
    forall u | u in r.resolverResults ensures multiset(r.resolverResults[u]) == multiset(s.resolverResults[u]) {
      SameElementsSameMultiset(r.resolverResults[u], s.resolverResults[u]);
    }
    var x :| IsMinTTL(a, x) && r.ttl == ClampTTL(x);
    var y :| IsMinTTL(b, y) && s.ttl == ClampTTL(y);
    MinTTLUnique(a, x, y);
  }

  /** The chain does depend on arrival order, as soon as two answers carry different chains. */
  lemma ChainDependsOnOrder(a: Answer, b: Answer)
    ensures FirstChain([a, b]) == FirstChain([b, a]) <==>
              a.cnameChain == b.cnameChain || a.cnameChain == [] || b.cnameChain == []
  {
    assert [a, b][..1] == [a] && [b, a][..1] == [b] && [a][..0] == [] && [b][..0] == [];
    assert FirstChain([a]) == a.cnameChain && FirstChain([b]) == b.cnameChain;
  }

  lemma SameMerge(a: seq<Answer>, b: seq<Answer>)
    requires forall x :: x in a <==> x in b
    ensures AllIPs(a) == AllIPs(b) && Responders(a) == Responders(b) && Disputed(a) == Disputed(b)
    ensures forall u :: IPsOf(a, u) == IPsOf(b, u)
  {
  }

  /** Divergence is zero exactly when all responding upstreams returned the same addresses. */
  lemma NoDivergenceIffUnanimous(answers: seq<Answer>, r: Resolution)
    requires IsMerge(answers, r)
    ensures r.resolverDivergence == 0 <==>
              forall u, v | u in Responders(answers) && v in Responders(answers) ::
                  IPsOf(answers, u) == IPsOf(answers, v)
  {
    var disputed := Disputed(answers);
    assert |disputed| == 0 <==> disputed == {};
    if disputed == {} {
      forall u, v | u in Responders(answers) && v in Responders(answers)
        ensures IPsOf(answers, u) == IPsOf(answers, v)
      {
        forall ip | ip in IPsOf(answers, u) ensures ip in IPsOf(answers, v) { assert ip !in disputed; }
        forall ip | ip in IPsOf(answers, v) ensures ip in IPsOf(answers, u) { assert ip !in disputed; }
      }
    } else {
      var ip :| ip in disputed;
      var u :| u in Responders(answers) && ip !in IPsOf(answers, u);
      var a :| a in answers && ip in a.ips;
      assert a.upstream in Responders(answers) && ip in IPsOf(answers, a.upstream);
    }
  }

  /** With at least two responders, demanding them all rejects exactly the disputed addresses. */
  lemma FullConsensusRejectsDisputed(answers: seq<Answer>, r: Resolution)
    requires IsMerge(answers, r) && |Responders(answers)| >= 2
    ensures var rejected := Filter(r.ips, ip => !Agreed(r.resolverResults, |Responders(answers)|, ip));
            |rejected| == r.resolverDivergence && forall ip :: ip in rejected <==> ip in Disputed(answers)
    ensures forall ip :: ip in ConsensusKept(r.ips, r.resolverResults, |Responders(answers)|)
                         <==> ip in AllIPs(answers) && ip !in Disputed(answers)
  {
    var n := |Responders(answers)|;
    var rejected := Filter(r.ips, ip => !Agreed(r.resolverResults, n, ip));
    forall ip ensures Agreed(r.resolverResults, n, ip)
        <==> forall u | u in Responders(answers) :: ip in IPsOf(answers, u) {
      AgreementCountsResolvers(r.resolverResults, ip);
      AllWitness(answers, r, ip);
    }
    FilterNoDuplicates(r.ips, ip => !Agreed(r.resolverResults, n, ip));
    ListSize(rejected, Disputed(answers));
    assert r.resolverResults != map[] by { assert r.resolverResults.Keys != {}; }
  }

  lemma AllWitness(answers: seq<Answer>, r: Resolution, ip: string)
    requires IsMerge(answers, r)
    ensures |Witnesses(r.resolverResults, ip)| >= |Responders(answers)|
            <==> forall u | u in Responders(answers) :: ip in IPsOf(answers, u)
  {
    var w, all := Witnesses(r.resolverResults, ip), Responders(answers);
    assert w <= all;
    if w == all {
      assert forall u | u in all :: u in w;
    } else {
      var u :| u in all && u !in w;
      SubsetSize(w, all - {u});
      assert ip !in IPsOf(answers, u);
    }
  }

  lemma {:induction false} SubsetSize<T>(a: set<T>, b: set<T>)
    requires a <= b
    ensures |a| <= |b|
  {
    if a != {} {
      var x :| x in a;
      SubsetSize(a - {x}, b - {x});
    }
  }

  lemma FilterNoDuplicates(s: seq<string>, p: string -> bool)
    requires NoDuplicates(s)
    ensures NoDuplicates(Filter(s, p))
  {
    NoDuplicatesMultiset(s);
    forall x ensures multiset(Filter(s, p))[x] <= 1 {
      FilterOccurrences(s, p, x);
    }
    MultisetNoDuplicates(Filter(s, p));
  }

  lemma {:induction false} ListSize(list: seq<string>, elements: set<string>)
    requires Lists(list, elements)
    ensures |list| == |elements|
  {
    if list != [] {
      var n := |list| - 1;
      ListSize(list[..n], elements - {list[n]});
    } else {
      assert elements == {};
    }
  }
}
