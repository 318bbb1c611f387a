/** The cache of observed addresses: expiring entries that agree with a log of every `Record` call. */
module IPCaches {
  import opened Strings
  import opened TTLQueues
  import opened ResolutionPass

  datatype ObservedIP = ObservedIP(ip: string, expires: Time)

  /** One `Record` call; its clock readings lie between `begin` and `end`, the first being `begin`. */
  datatype RecordCall = RecordCall(hostname: string, ips: seq<string>, ttl: int, begin: Time, end: Time)

  function Expiry(ttl: int, begin: Time): Time {
    begin + if ttl <= 0 then 60 * SECOND else ttl
  }

  /** The most recent call for this hostname that named this address has not expired at `t`. */
  predicate LiveInLog(log: seq<RecordCall>, hostname: string, ip: string, t: Time) {
    if log == [] then false
    else
      var last := log[|log| - 1];
      if last.hostname == hostname && ip in last.ips then t < Expiry(last.ttl, last.begin)
      else LiveInLog(log[..|log| - 1], hostname, ip, t)
  }

  /** Call `i` is the last one for this hostname that named this address. */
  ghost predicate LastNamed(log: seq<RecordCall>, hostname: string, ip: string, i: nat) {
    && i < |log| && log[i].hostname == hostname && ip in log[i].ips
    && forall j | i < j < |log| :: !(log[j].hostname == hostname && ip in log[j].ips)
  }

  /** The TTL of the call counts from its beginning; a TTL of zero or below stands for one minute. */
  predicate WithinTTL(c: RecordCall, t: Time) {
    && (c.ttl > 0 ==> t < c.begin + c.ttl)
    && (c.ttl <= 0 ==> t < c.begin + 60_000_000_000)
  }

  /** An address is live exactly while the last call that named it is within its TTL. */
  lemma {:induction false} LiveMeaning(log: seq<RecordCall>, hostname: string, ip: string, t: Time)
    ensures LiveInLog(log, hostname, ip, t)
            <==> exists i: nat :: LastNamed(log, hostname, ip, i) && WithinTTL(log[i], t)
  {
    if log != [] {
      var n := |log| - 1;
      LiveMeaning(log[..n], hostname, ip, t);
      if log[n].hostname == hostname && ip in log[n].ips {
        assert LastNamed(log, hostname, ip, n);
      } else {
        forall i: nat ensures LastNamed(log, hostname, ip, i) <==> LastNamed(log[..n], hostname, ip, i) {
        }
      }
    }
  }

  ghost function LiveHosts(log: seq<RecordCall>, t: Time): set<string> {
    set c | c in log && exists ip :: LiveInLog(log, c.hostname, ip, t) :: c.hostname
  }

  predicate LiveIn(entries: seq<ObservedIP>, ip: string, t: Time) {
    exists e | e in entries :: e.ip == ip && t < e.expires
  }

  /** At most one entry per address. */
  predicate OneEntryEach(entries: seq<ObservedIP>) {
    forall i, j | 0 <= i < j < |entries| :: entries[i].ip != entries[j].ip
  }

  lemma {:induction false} LiveHostLogged(log: seq<RecordCall>, hostname: string, ip: string, t: Time)
    requires LiveInLog(log, hostname, ip, t)
    ensures hostname in LiveHosts(log, t)
  {
    LiveLogged(log, hostname, ip, t);
  }

  lemma {:induction false} LiveLogged(log: seq<RecordCall>, hostname: string, ip: string, t: Time)
    requires LiveInLog(log, hostname, ip, t)
    ensures exists c | c in log :: c.hostname == hostname
  {
    var last := log[|log| - 1];
    if !(last.hostname == hostname && ip in last.ips) {
      LiveLogged(log[..|log| - 1], hostname, ip, t);
    }
  }

  lemma LiveHostsMeaning(log: seq<RecordCall>, t: Time)
    ensures forall h :: h in LiveHosts(log, t) <==>
              exists ip, i: nat :: LastNamed(log, h, ip, i) && WithinTTL(log[i], t)
  {
    forall h, ip { LiveMeaning(log, h, ip, t); }
    forall h, ip, i: nat | LastNamed(log, h, ip, i) && WithinTTL(log[i], t) ensures h in LiveHosts(log, t) {
      LiveHostLogged(log, h, ip, t);
    }
  }

  class IPCache {
    var entries: map<string, seq<ObservedIP>>
    ghost var log: seq<RecordCall>  // every call so far
    ghost var clock: Time           // the latest clock reading so far

    function EntriesOf(hostname: string): seq<ObservedIP>
      reads this
    {
      if hostname in entries then entries[hostname] else []
    }

    /** From the latest clock reading on, the entries and the log tell the same story. */
    ghost predicate Valid()
      reads this
    {
      && (forall h | h in entries :: OneEntryEach(entries[h]))
      && forall h, ip, t | t >= clock :: LiveIn(EntriesOf(h), ip, t) <==> LiveInLog(log, h, ip, t)
    }

    constructor ()
      ensures Valid() && log == []
    {
      entries := map[];
      log, clock := [], 0;
    }

    /** Adds addresses; on the way it drops entries that have expired at the moment they are looked at. */
    method Record(hostname: string, ips: seq<string>, ttl: int, begin: Time, end: Time)
      requires Valid() && clock <= begin <= end
      modifies this
      ensures Valid() && log == old(log) + [RecordCall(hostname, ips, ttl, begin, end)] && clock == end
    {
      var expires := Expiry(ttl, begin);
      var was := EntriesOf(hostname);
      var merged := Merged(was, ips, expires, begin, end);
      var result := Listed(merged);
      log := log + [RecordCall(hostname, ips, ttl, begin, end)];
      assert log[..|log| - 1] == old(log);
      clock := end;
      entries := entries[hostname := result];
      forall ip, t | t >= end ensures LiveIn(result, ip, t) <==> if ip in ips then t < expires else LiveIn(was, ip, t) {
        ListedLive(result, merged, ip, t);
        var before := LiveIn(was, ip, t);
        assert (ip in merged && t < merged[ip].expires) <==> if ip in ips then t < expires else before;
      }
      forall h, ip, t | t >= clock ensures LiveIn(EntriesOf(h), ip, t) <==> LiveInLog(log, h, ip, t) {
        assert LiveIn(old(EntriesOf(h)), ip, t) <==> LiveInLog(old(log), h, ip, t);
      }
    }

    /** The current addresses of hostname, in cache order. */
    method Get(hostname: string, now: Time) returns (live: seq<string>)
      requires Valid() && clock <= now
      ensures NoDuplicates(live) && forall ip :: ip in live <==> LiveInLog(log, hostname, ip, now)
      ensures forall ip :: ip in live <==> exists i: nat :: LastNamed(log, hostname, ip, i) && WithinTTL(log[i], now)
    {
      forall ip { LiveMeaning(log, hostname, ip, now); }
      hide LastNamed, WithinTTL;
      live := [];
      var es := EntriesOf(hostname);
      assert OneEntryEach(es);
      for i := 0 to |es|
        invariant NoDuplicates(live)
        invariant forall ip :: ip in live <==> LiveIn(es[..i], ip, now)
      {
        assert es[..i + 1] == es[..i] + [es[i]];
        if now < es[i].expires {
          assert !LiveIn(es[..i], es[i].ip, now);
          live := live + [es[i].ip];
        }
      }
      assert es[..|es|] == es;
    }

    /** The number of hostnames with a live address. */
    method Len(now: Time) returns (count: nat)
      requires Valid() && clock <= now
      ensures count == |LiveHosts(log, now)|
      ensures forall h :: h in LiveHosts(log, now) <==>
                exists ip, i: nat :: LastNamed(log, h, ip, i) && WithinTTL(log[i], now)
    {
      LiveHostsMeaning(log, now);
      hide LastNamed, WithinTTL;
      count := 0;
      var todo := entries.Keys;
      ghost var found: set<string> := {};
      while todo != {}
        invariant todo <= entries.Keys && count == |found|
        invariant found == set h | h in entries && h !in todo && exists ip :: LiveIn(entries[h], ip, now)
        decreases todo
      {
        var h :| h in todo;
        todo := todo - {h};
        var live := HasLive(entries[h], now);
        if live {
          count := count + 1;
          found := found + {h};
        }
      }
      forall h ensures h in found <==> h in LiveHosts(log, now) {
        if h in found {
          var ip :| LiveIn(entries[h], ip, now);
          assert EntriesOf(h) == entries[h] && LiveIn(EntriesOf(h), ip, now);
          LiveHostLogged(log, h, ip, now);
        }
        if h in LiveHosts(log, now) {
          var ip :| LiveInLog(log, h, ip, now);
          assert LiveIn(EntriesOf(h), ip, now);
          assert h in entries && LiveIn(entries[h], ip, now);
        }
      }
      assert found == LiveHosts(log, now);
    }
  }

  method HasLive(es: seq<ObservedIP>, now: Time) returns (live: bool)
    ensures live <==> exists ip :: LiveIn(es, ip, now)
  {
    for i := 0 to |es|
      invariant forall k | 0 <= k < i :: es[k].expires <= now
    {
      if now < es[i].expires {
        assert LiveIn(es, es[i].ip, now);
        return true;
      }
    }
    return false;
  }

  /** The merge by address: surviving entries first, then the new addresses over them. */
  method Merged(existing: seq<ObservedIP>, ips: seq<string>, expires: Time, begin: Time, end: Time)
    returns (merged: map<string, ObservedIP>)
    requires OneEntryEach(existing) && begin <= end
    ensures forall ip | ip in merged :: merged[ip].ip == ip
    ensures forall ip, t | t >= end ::
              (ip in merged && t < merged[ip].expires) <==> if ip in ips then t < expires else LiveIn(existing, ip, t)
  {
    merged := map[];
    for i := 0 to |existing|
      invariant forall ip | ip in merged :: merged[ip].ip == ip && merged[ip] in existing[..i]
      invariant forall k | 0 <= k < i ::
                existing[k].expires <= end || (existing[k].ip in merged && merged[existing[k].ip] == existing[k])
    {
      assert existing[..i + 1] == existing[..i] + [existing[i]];
      var now :| begin <= now <= end;
      if now < existing[i].expires {
        merged := merged[existing[i].ip := existing[i]];
      }
    }
    assert existing[..|existing|] == existing;
    ghost var survivors := merged;
    forall ip, t | t >= end ensures (ip in survivors && t < survivors[ip].expires) <==> LiveIn(existing, ip, t) {
    }
    for i := 0 to |ips|
      invariant forall ip | ip in merged :: merged[ip].ip == ip
      invariant forall ip | ip in ips[..i] :: ip in merged && merged[ip].expires == expires
      invariant forall ip | ip !in ips[..i] ::
                (ip in merged <==> ip in survivors) && (ip in survivors ==> merged[ip] == survivors[ip])
    {
      assert ips[..i + 1] == ips[..i] + [ips[i]];
      merged := merged[ips[i] := ObservedIP(ips[i], expires)];
    }
    assert ips[..|ips|] == ips;
  }

  /** The values of the merge in whatever order the map yields them. */
  method Listed(merged: map<string, ObservedIP>) returns (result: seq<ObservedIP>)
    requires forall ip | ip in merged :: merged[ip].ip == ip
    ensures OneEntryEach(result) && forall e :: e in result <==> e.ip in merged && merged[e.ip] == e
  {
    result := [];
    var todo := merged.Keys;
    while todo != {}
      invariant todo <= merged.Keys && OneEntryEach(result)
      invariant forall e :: e in result <==> e.ip in merged && e.ip !in todo && merged[e.ip] == e
      decreases todo
    {
      var ip :| ip in todo;
      todo := todo - {ip};
      result := result + [merged[ip]];
    }
  }

  lemma ListedLive(result: seq<ObservedIP>, merged: map<string, ObservedIP>, ip: string, t: Time)
    requires forall ip | ip in merged :: merged[ip].ip == ip
    requires forall e :: e in result <==> e.ip in merged && merged[e.ip] == e
    ensures LiveIn(result, ip, t) <==> ip in merged && t < merged[ip].expires
  {
    if ip in merged {
      assert merged[ip] in result;
    }
  }
}
