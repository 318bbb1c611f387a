/**
 * The refresh queue: a binary min-heap of per-hostname deadlines whose entries carry their own
 * index, plus a map from hostname to entry. The sift operations are those of Go's `container/heap`.
 * The whole structure refines a plain map from hostname to deadline.
 */
module TTLQueues {

  /** Nanoseconds since Go's zero `time.Time`; 0 is that zero value. */
  type Time = int
  const ZERO_TIME: Time := 0

  class TTLEntry {
    const hostname: string
    var nextRefresh: Time
    var index: nat

    constructor (hostname: string, nextRefresh: Time)
      ensures this.hostname == hostname && this.nextRefresh == nextRefresh
    {
      this.hostname := hostname;
      this.nextRefresh := nextRefresh;
      this.index := 0;
    }
  }

  /** Position `j` is a child of position `i` in the array layout of a binary heap. */
  predicate Edge(i: int, j: int) {
    0 <= i && (j == 2 * i + 1 || j == 2 * i + 2)
  }

  /** Heap order among the first `n` deadlines, exempting edges out of `from` and into `to` (-1: none). */
  ghost predicate Order(p: seq<Time>, n: nat, from: int, to: int)
    requires n <= |p|
  {
    forall i, j | Edge(i, j) && j < n && i != from && j != to :: p[i] <= p[j]
  }

  /** The parent of `c` does not exceed the children of `c`. */
  ghost predicate Bridge(p: seq<Time>, n: nat, c: int)
    requires n <= |p|
  {
    forall g, j | Edge(g, c) && Edge(c, j) && j < n :: p[g] <= p[j]
  }

  ghost predicate IsHeap(p: seq<Time>) {
    Order(p, |p|, -1, -1)
  }

  /** In a heap no deadline is below the root's. */
  lemma {:induction false} RootIsLeast(p: seq<Time>, k: nat)
    requires k < |p| && IsHeap(p)
    ensures p[0] <= p[k]
    decreases k
  {
    if k > 0 {
      RootIsLeast(p, (k - 1) / 2);
      assert Edge((k - 1) / 2, k);
    }
  }

  function Swapped<T>(s: seq<T>, i: nat, j: nat): seq<T>
    requires i < |s| && j < |s|
  {
    s[i := s[j]][j := s[i]]
  }

  /** Changing one deadline of a heap leaves only the edges at that position in doubt. */
  lemma MovedDeadline(p: seq<Time>, was: seq<Time>, i: nat)
    requires |p| == |was| && i < |p| && IsHeap(was) && p == was[i := p[i]]
    ensures Order(p, |p|, i, i) && Bridge(p, |p|, i)
  {
    forall g, j | Edge(g, i) && Edge(i, j) && j < |p| ensures p[g] <= p[j] {
      assert was[g] <= was[i] <= was[j];
    }
  }

  /** Exchanging the root and the last deadline leaves only the edges out of the root in doubt. */
  lemma SwappedOutRoot(was: seq<Time>, p: seq<Time>, n: nat)
    requires IsHeap(was) && n < |was| && 0 < n && p == Swapped(was, 0, n)
    ensures Order(p, n, 0, 0) && Bridge(p, n, 0)
  {
  }

  lemma RootHasNoParent(p: seq<Time>, n: nat, moved: bool)
    requires n <= |p| && Order(p, n, -1, if moved then -1 else 0)
    ensures Order(p, n, -1, -1)
  {
  }

  lemma TruncatedHeap(p: seq<Time>, n: nat)
    requires n <= |p| && (0 < n ==> Order(p, n, -1, -1))
    ensures IsHeap(p[..n])
  {
  }

  lemma SwapKeepsTail<T>(s: seq<T>, i: nat, j: nat, n: nat)
    requires i < n && j < n && n <= |s|
    ensures Swapped(s, i, j)[n..] == s[n..]
  {
  }

  /** One step of sifting down: the out-of-order position moves from `i` to its lesser child `j`. */
  lemma SiftDownStep(p: seq<Time>, n: nat, i: nat, left: nat, j: nat, to: int)
    requires n <= |p| && left == 2 * i + 1 && left <= j <= left + 1 && j < n && p[j] < p[i]
    requires p[j] <= p[left] && (left + 1 < n ==> p[j] <= p[left + 1])
    requires Order(p, n, i, to) && Bridge(p, n, i) && (to == i || to == -1)
    ensures Order(Swapped(p, i, j), n, j, -1) && Bridge(Swapped(p, i, j), n, j)
  {
  }

  /** Sifting down stops at a leaf or where both children are no earlier. */
  lemma SiftDownDone(p: seq<Time>, n: nat, i: nat, left: nat, to: int)
    requires n <= |p| && Order(p, n, i, to)
    requires left == 2 * i + 1 && (left < n ==> p[i] <= p[left]) && (left + 1 < n ==> p[i] <= p[left + 1])
    ensures Order(p, n, -1, to)
  {
  }

  /** One step of sifting up: the out-of-order edge moves from above `j` to above its parent `i`. */
  lemma SiftUpStep(p: seq<Time>, i: nat, j: nat)
    requires Edge(i, j) && j < |p| && p[j] < p[i]
    requires Order(p, |p|, -1, j) && Bridge(p, |p|, j)
    ensures Order(Swapped(p, i, j), |p|, -1, i) && Bridge(Swapped(p, i, j), |p|, i)
  {
    var q := Swapped(p, i, j);
    forall g, k | Edge(g, i) && Edge(i, k) && k < |p| ensures q[g] <= q[k] {
      assert p[g] <= p[i];
      assert k != j ==> p[i] <= p[k];
    }
  }

  /** Sifting up stops at the root or below a parent that is no later. */
  lemma SiftUpDone(p: seq<Time>, i: nat, j: nat)
    requires i <= j < |p| && (j == 0 || Edge(i, j)) && (i == j || p[i] <= p[j])
    requires Order(p, |p|, -1, j)
    ensures IsHeap(p)
  {
  }

  /** `t` is the least deadline of `m`. */
  ghost predicate IsEarliest(m: map<string, Time>, t: Time) {
    (exists h :: h in m && m[h] == t) && forall h | h in m :: t <= m[h]
  }

  function Max(a: int, b: int): int {
    if a < b then b else a
  }

  /** The delay until the earliest deadline, but at least `floor`; `floor` when nothing is tracked. */
  ghost predicate IsMinDelay(m: map<string, Time>, now: Time, floor: int, d: int) {
    if m == map[] then d == floor
    else exists t :: IsEarliest(m, t) && d == if t == ZERO_TIME then floor else Max(floor, t - now)
  }

  /** A sequence of pops: each removes a hostname whose deadline is earliest, as `HeapPop` does. */
  ghost predicate IsDrain(m: map<string, Time>, popped: seq<string>) {
    if popped == [] then m == map[]
    else
      && popped[0] in m
      && IsEarliest(m, m[popped[0]])
      && IsDrain(m - {popped[0]}, popped[1..])
  }

  lemma {:induction false} DrainListsAll(m: map<string, Time>, popped: seq<string>)
    requires IsDrain(m, popped)
    ensures (forall h :: h in m <==> h in popped) && |popped| == |m|
  {
    if popped != [] {
      var rest := m - {popped[0]};
      DrainListsAll(rest, popped[1..]);
      assert popped == [popped[0]] + popped[1..];
      assert m.Keys == rest.Keys + {popped[0]} && |m.Keys| == |m| && |rest.Keys| == |rest|;
    }
  }

  /** Draining the queue yields every hostname exactly once, in non-decreasing deadline order. */
  lemma {:induction false} DrainIsSorted(m: map<string, Time>, popped: seq<string>, i: nat, j: nat)
    requires IsDrain(m, popped) && i < j < |popped|
    ensures (forall h :: h in m <==> h in popped) && |popped| == |m|
    ensures popped[i] in m && popped[j] in m
    ensures popped[i] != popped[j] && m[popped[i]] <= m[popped[j]]
  {
    DrainListsAll(m, popped);
    var rest := m - {popped[0]};
    if i == 0 {
      DrainListsAll(rest, popped[1..]);
      assert popped[j] == popped[1..][j - 1];
    } else {
      DrainIsSorted(rest, popped[1..], i - 1, j - 1);
    }
  }

  class TTLQueue {
    var items: seq<TTLEntry>
    var byKey: map<string, TTLEntry>
    ghost var entries: set<TTLEntry>        // the objects in `items`
    ghost var order: seq<Time>              // their deadlines, position by position
    ghost var deadlines: map<string, Time>  // the abstract value: hostname to deadline

    /** `items` lists exactly `entries`, and every entry's back-index names its own position. */
    ghost predicate Indexed()
      reads this, entries
    {
      && |order| == |items|
      && (forall i | 0 <= i < |items| :: items[i] in entries && items[i].index == i && items[i].nextRefresh == order[i])
      && (forall e | e in entries :: e.index < |items| && items[e.index] == e)
    }

    /** The same entries are filed in `byKey`, each under its own hostname with its own deadline. */
    ghost predicate Keyed()
      reads this, entries
    {
      && (forall e | e in entries :: e.hostname in byKey && byKey[e.hostname] == e)
      && (forall h | h in byKey :: byKey[h] in entries && byKey[h].hostname == h)
      && deadlines.Keys == byKey.Keys
      && (forall e | e in entries :: deadlines[e.hostname] == e.nextRefresh)
    }

    ghost predicate Valid()
      reads this, entries
    {
      Indexed() && Keyed() && IsHeap(order)
    }

    constructor ()
      ensures Valid() && deadlines == map[] && entries == {}
    {
      items, order := [], [];
      byKey, deadlines := map[], map[];
      entries := {};
    }

    /** Reordering the items leaves the key index alone. */
    twostate lemma KeyedKept()
      requires old(Keyed()) && byKey == old(byKey) && deadlines == old(deadlines) && entries == old(entries)
      requires forall e | e in old(entries) :: e.nextRefresh == old(e.nextRefresh)
      ensures Keyed()
    {
    }

    /** A further entry, filed under its hostname, keeps the key index complete. */
    twostate lemma KeyedPlus(e: TTLEntry)
      requires old(Keyed()) && e !in old(entries) && entries == old(entries) + {e}
      requires e.hostname !in old(deadlines) && byKey == old(byKey)[e.hostname := e]
      requires deadlines == old(deadlines)[e.hostname := e.nextRefresh]
      requires forall x | x in old(entries) :: x.nextRefresh == old(x.nextRefresh)
      ensures Keyed()
    {
    }

    /** The root entry holds the earliest deadline. */
    lemma RootIsEarliest()
      requires Valid() && |items| > 0
      ensures deadlines != map[] && IsEarliest(deadlines, items[0].nextRefresh)
    {
      assert items[0] in entries;
      forall h | h in deadlines ensures items[0].nextRefresh <= deadlines[h] {
        RootIsLeast(order, byKey[h].index);
      }
    }

    /** Adds hostname with a deadline `ttl` from `now`, or moves the deadline it already has. */
    method Upsert(hostname: string, ttl: int, now: Time)
      requires Valid()
      modifies this, entries
      ensures Valid() && deadlines == old(deadlines)[hostname := now + ttl]
      ensures fresh(entries - old(entries))
    {
      hide IsHeap, Indexed, Keyed;
      var next := now + ttl;
      if Has(hostname) {
        Move(hostname, next);
      } else {
        Add(hostname, next);
      }
    }

    predicate Has(hostname: string): (b: bool)
      reads this, entries
      ensures Keyed() ==> (b <==> hostname in deadlines)
    {
      hostname in byKey
    }

    /** The known-hostname case of `Upsert`. */
    method Move(hostname: string, next: Time)
      requires Valid() && hostname in deadlines
      modifies this, entries
      ensures Valid() && deadlines == old(deadlines)[hostname := next] && entries == old(entries)
    {
      hide Order, Bridge, IsHeap;
      var e := byKey[hostname];
      e.nextRefresh := next;
      deadlines := deadlines[hostname := next];
      order := order[e.index := next];
      MovedDeadline(order, old(order), e.index);
      hide Keyed;
      label moved:
      Fix(e.index);
      KeyedKept@moved();
    }

    /** The new-hostname case of `Upsert`. */
    method Add(hostname: string, next: Time)
      requires Valid() && hostname !in deadlines
      modifies this, entries
      ensures Valid() && deadlines == old(deadlines)[hostname := next]
      ensures fresh(entries - old(entries))
    {
      hide Order, Bridge, IsHeap;
      hide Keyed;
      var e := new TTLEntry(hostname, next);
      label before:
      HeapPush(e);
      byKey := byKey[hostname := e];
      deadlines := deadlines[hostname := next];
      KeyedPlus@before(e);
    }

    /** The earliest deadline of all tracked hostnames; the zero time when there is none. */
    method PeekNext() returns (t: Time)
      requires Valid()
      ensures if deadlines == map[] then t == ZERO_TIME else IsEarliest(deadlines, t)
    {
      if |items| == 0 {
        assert entries == {};
        return ZERO_TIME;
      }
      RootIsEarliest();
      t := items[0].nextRefresh;
    }

    method MinDelay(floor: int, now: Time) returns (d: int)
      requires Valid()
      ensures IsMinDelay(deadlines, now, floor, d)
    {
      var next := PeekNext();
      if next == ZERO_TIME {
        return floor;
      }
      d := next - now;
      if d < floor {
        return floor;
      }
    }

    // ---- heap.Interface ----

    predicate Less(i: nat, j: nat): (less: bool)
      requires i < |items| && j < |items| && Indexed()
      reads this, entries
      ensures less <==> order[i] < order[j]
    {
      items[i].nextRefresh < items[j].nextRefresh
    }

    /** The child of lesser deadline, given that `left` is a child among the first `n` items. */
    function LesserChild(left: nat, n: nat): (j: nat)
      requires left < n <= |items| && Indexed()
      reads this, entries
      ensures left <= j <= left + 1 && j < n
      ensures order[j] <= order[left] && (left + 1 < n ==> order[j] <= order[left + 1])
    {
      if left + 1 < n && Less(left + 1, left) then left + 1 else left
    }

    method Swap(i: nat, j: nat)
      requires i < |items| && j < |items| && Indexed()
      modifies this`items, this`order, entries`index
      ensures byKey == old(byKey) && deadlines == old(deadlines) && entries == old(entries)
      ensures forall e | e in old(entries) :: e.nextRefresh == old(e.nextRefresh)
      ensures Indexed() && items == Swapped(old(items), i, j) && order == Swapped(old(order), i, j)
    {
      items := items[i := items[j]][j := items[i]];
      order := order[i := order[j]][j := order[i]];
      items[i].index := i;
      items[j].index := j;
    }

    method Push(e: TTLEntry)
      requires Indexed() && e !in entries
      modifies this`items, this`order, this`entries, e`index
      ensures Indexed() && items == old(items) + [e]
      ensures order == old(order) + [e.nextRefresh] && entries == old(entries) + {e}
    {
      e.index := |items|;
      items := items + [e];
      order, entries := order + [e.nextRefresh], entries + {e};
    }

    method Pop() returns (e: TTLEntry)
      requires |items| > 0 && Indexed() && Keyed()
      modifies this
      ensures e == old(items)[|old(items)| - 1] && deadlines == old(deadlines) - {e.hostname}
      ensures Indexed() && Keyed()
      ensures order == old(order)[..|old(order)| - 1] && entries == old(entries) - {e}
    {
      var n := |items|;
      e := items[n - 1];
      items := items[..n - 1];
      byKey := byKey - {e.hostname};
      order, entries, deadlines := order[..n - 1], entries - {e}, deadlines - {e.hostname};
    }

    // ---- container/heap ----

    /** `heap.up`: restores order when only the edge into `start` is out of order. */
    method Up(start: nat)
      requires start < |items| && Indexed() && Order(order, |items|, -1, start) && Bridge(order, |items|, start)
      modifies this`items, this`order, entries`index
      ensures byKey == old(byKey) && deadlines == old(deadlines) && entries == old(entries)
      ensures forall e | e in old(entries) :: e.nextRefresh == old(e.nextRefresh)
      ensures Indexed() && |items| == |old(items)| && IsHeap(order)
    {
      hide Order, Bridge, IsHeap;
      var j := start;
      while true
        invariant 0 <= j < |items| == |old(items)| && Indexed()
        invariant byKey == old(byKey) && deadlines == old(deadlines) && entries == old(entries)
                  && (forall e | e in old(entries) :: e.nextRefresh == old(e.nextRefresh))
        invariant Order(order, |items|, -1, j) && Bridge(order, |items|, j)
        decreases j
      {
        // Go's (j - 1) / 2 truncates, so the root is its own parent.
        var i := if j == 0 then 0 else (j - 1) / 2;
        if i == j || !Less(j, i) {
          SiftUpDone(order, i, j);
          break;
        }
        SiftUpStep(order, i, j);
        Swap(i, j);
        j := i;
      }
    }

    /** `heap.down` over the first `n` items: sifts `start` towards the leaves. */
    method Down(start: nat, n: nat) returns (moved: bool)
      requires start < n <= |items| && Indexed()
      requires Order(order, n, start, start) && Bridge(order, n, start)
      modifies this`items, this`order, entries`index
      ensures byKey == old(byKey) && deadlines == old(deadlines) && entries == old(entries)
      ensures forall e | e in old(entries) :: e.nextRefresh == old(e.nextRefresh)
      ensures Indexed() && |items| == |old(items)|
      ensures items[n..] == old(items)[n..]
      ensures if moved then Order(order, n, -1, -1) else order == old(order) && Order(order, n, -1, start)
    {
      hide Order, Bridge;
      var i := start;
      ghost var to := start as int;
      while true
        invariant start <= i < n <= |items| == |old(items)| && Indexed()
        invariant byKey == old(byKey) && deadlines == old(deadlines) && entries == old(entries)
                  && (forall e | e in old(entries) :: e.nextRefresh == old(e.nextRefresh))
        invariant items[n..] == old(items)[n..]
        invariant Order(order, n, i, to) && Bridge(order, n, i)
        invariant if i == start then to == start && order == old(order) else to == -1
        decreases n - i
      {
        var left := 2 * i + 1;
        if left >= n {
          SiftDownDone(order, n, i, left, to);
          break;
        }
        var j := LesserChild(left, n);
        if !Less(j, i) {
          SiftDownDone(order, n, i, left, to);
          break;
        }
        SiftDownStep(order, n, i, left, j, to);
        SwapKeepsTail(items, i, j, n);
        Swap(i, j);
        i, to := j, -1;
      }
      moved := i > start;
    }

    /** `heap.Fix`: re-establishes order after the deadline at `i` moved in either direction. */
    method Fix(i: nat)
      requires i < |items| && Indexed() && Order(order, |items|, i, i) && Bridge(order, |items|, i)
      modifies this`items, this`order, entries`index
      ensures byKey == old(byKey) && deadlines == old(deadlines) && entries == old(entries)
      ensures forall e | e in old(entries) :: e.nextRefresh == old(e.nextRefresh)
      ensures Indexed() && |items| == |old(items)| && IsHeap(order)
    {
      var moved := Down(i, |items|);
      if !moved {
        Up(i);
      }
    }

    /** `heap.Push`. The caller files the entry in `byKey` afterwards. */
    method HeapPush(e: TTLEntry)
      requires Indexed() && IsHeap(order) && e !in entries
      modifies this`items, this`order, this`entries, e`index, entries`index
      ensures byKey == old(byKey) && deadlines == old(deadlines)
              && (forall e | e in old(entries) :: e.nextRefresh == old(e.nextRefresh))
      ensures Indexed() && IsHeap(order) && entries == old(entries) + {e}
    {
      Push(e);
      Up(|items| - 1);
    }

    /** `heap.Pop`: removes an entry with the earliest deadline. */
    method HeapPop() returns (e: TTLEntry)
      requires Valid() && |items| > 0
      modifies this, entries
      ensures Valid() && entries == old(entries) - {e}
      ensures e.hostname in old(deadlines) && old(deadlines)[e.hostname] == e.nextRefresh
      ensures IsEarliest(old(deadlines), e.nextRefresh)
      ensures deadlines == old(deadlines) - {e.hostname}
    {
      hide Order, Bridge, IsHeap, IsEarliest;
      RootIsEarliest();
      SinkRoot();
      e := Pop();
    }

    /** The first half of `heap.Pop`: the root changes places with the last entry, which sifts down. */
    method SinkRoot()
      requires Valid() && |items| > 0
      modifies this`items, this`order, entries`index
      ensures Indexed() && |items| == |old(items)|
      ensures forall e | e in old(entries) :: e.nextRefresh == old(e.nextRefresh)
      ensures byKey == old(byKey) && deadlines == old(deadlines) && entries == old(entries)
      ensures items[|items| - 1] == old(items[0])
      ensures IsHeap(order[..|order| - 1])
    {
      hide Order, Bridge, IsHeap, Keyed;
      var n := |items| - 1;
      Swap(0, n);
      if n > 0 {
        SwappedOutRoot(old(order), order, n);
        ghost var root := items[n..];
        var moved := Down(0, n);
        assert items[n] == root[0];
        RootHasNoParent(order, n, moved);
      }
      TruncatedHeap(order, n);
    }
  }

  /** Pops until the queue is empty. */
  method Drain(q: TTLQueue) returns (popped: seq<string>)
    requires q.Valid()
    modifies q, q.entries
    ensures q.Valid() && q.deadlines == map[]
    ensures IsDrain(old(q.deadlines), popped)
    decreases q.deadlines.Keys
  {
    if |q.items| == 0 {
      assert q.entries == {};
      return [];
    }
    var e := q.HeapPop();
    var rest := Drain(q);
    popped := [e.hostname] + rest;
  }
}
