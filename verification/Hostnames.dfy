/** Hostname text: trimming, lower-casing, splitting on dots, and the registrable base domain. */
module Hostnames {
  // ---- strings package, on ASCII ----

  predicate IsSpace(c: char) {
    c == ' ' || c == '\t' || c == '\n' || c == '\r' || c == '\U{000B}' || c == '\U{000C}'
  }

  function LowerChar(c: char): char {
    if 'A' <= c <= 'Z' then c - 'A' + 'a' else c
  }

  function ToLower(s: string): (r: string)
    ensures |r| == |s| && forall i | 0 <= i < |s| :: r[i] == LowerChar(s[i])
  {
    seq(|s|, i requires 0 <= i < |s| => LowerChar(s[i]))
  }

  function TrimLeft(s: string): (r: string)
    ensures r == [] || !IsSpace(r[0])
    ensures s != [] && !IsSpace(s[0]) ==> r == s
  {
    if s != [] && IsSpace(s[0]) then TrimLeft(s[1..]) else s
  }

  function TrimRight(s: string): (r: string)
    ensures r <= s && (r == [] || !IsSpace(r[|r| - 1]))
    ensures s != [] && !IsSpace(s[|s| - 1]) ==> r == s
  {
    if s != [] && IsSpace(s[|s| - 1]) then TrimRight(s[..|s| - 1]) else s
  }

  function TrimSpace(s: string): string {
    TrimRight(TrimLeft(s))
  }

  predicate HasSuffix(s: string, suffix: string) {
    |suffix| <= |s| && s[|s| - |suffix|..] == suffix
  }

  predicate HasPrefix(s: string, prefix: string) {
    prefix <= s
  }

  function TrimDot(s: string): string {
    if s != [] && s[|s| - 1] == '.' then s[..|s| - 1] else s
  }

  /** The normalisation every component applies: trim, lower-case, drop one trailing dot. */
  function Norm(s: string): string {
    TrimDot(ToLower(TrimSpace(s)))
  }

  // ---- when normalising again changes nothing ----

  predicate Lower(s: string) {
    forall c | c in s :: LowerChar(c) == c
  }

  /** Lower case, no space at either end, no trailing dot. */
  predicate Normal(s: string) {
    Lower(s) && (s != [] ==> !IsSpace(s[0]) && !IsSpace(s[|s| - 1]) && s[|s| - 1] != '.')
  }

  /** One normalisation is enough for this name. */
  predicate Stable(s: string) {
    Norm(Norm(s)) == Norm(s)
  }

  lemma NormShape(s: string)
    ensures Lower(Norm(s)) && (Norm(s) != [] ==> !IsSpace(Norm(s)[0]))
  {
    var l, t := TrimLeft(s), TrimSpace(s);
    assert t != [] ==> t[0] == l[0];
    forall c | c in Norm(s) ensures LowerChar(c) == c {
      var i :| 0 <= i < |Norm(s)| && Norm(s)[i] == c;
      assert c == LowerChar(t[i]);
    }
  }

  lemma NormalIsFixed(s: string)
    ensures Normal(s) ==> Norm(s) == s
  {
    if Normal(s) && s != [] {
      assert TrimSpace(s) == s;
      assert forall i | 0 <= i < |s| :: s[i] in s;
      assert ToLower(s) == s;
    }
  }

  lemma FixedIsNormal(s: string)
    requires Norm(s) == s
    ensures Normal(s)
  {
    NormShape(s);
    var l := ToLower(TrimSpace(s));
    if s != [] {
      assert |TrimSpace(s)| <= |s|;
      assert l == s;
      assert s[|s| - 1] == LowerChar(TrimSpace(s)[|s| - 1]);
    }
  }

  /** A name is stable exactly when its normal form ends in neither a space nor a dot. */
  lemma StableIff(s: string)
    ensures Stable(s) <==> Normal(Norm(s))
    ensures Stable(s) <==> Norm(s) == [] || (!IsSpace(Norm(s)[|Norm(s)| - 1]) && Norm(s)[|Norm(s)| - 1] != '.')
  {
    NormShape(s);
    NormalIsFixed(Norm(s));
    if Stable(s) {
      FixedIsNormal(Norm(s));
    }
  }

  /** Normalising a lower-case name without leading space only cuts at its end. */
  lemma NormIsPrefix(n: string)
    requires Lower(n) && (n != "" ==> !IsSpace(n[0]))
    ensures Norm(n) <= n
  {
    assert TrimLeft(n) == n;
    var t := TrimSpace(n);
    assert ToLower(t) == t by {
      forall i | 0 <= i < |t| ensures LowerChar(t[i]) == t[i] {
        assert t[i] == n[i] && n[i] in n;
      }
    }
  }

  // ---- splitting on dots ----

  function Split(s: string): (parts: seq<string>)
    ensures |parts| >= 1 && forall p | p in parts :: '.' !in p
  {
    if s == [] then [""]
    else
      var rest := Split(s[1..]);
      if s[0] == '.' then [""] + rest else [[s[0]] + rest[0]] + rest[1..]
  }

  function Join(parts: seq<string>): string
    requires parts != []
  {
    if |parts| == 1 then parts[0] else parts[0] + "." + Join(parts[1..])
  }

  lemma {:induction false} JoinSplit(s: string)
    ensures Join(Split(s)) == s
  {
    if s != [] {
      JoinSplit(s[1..]);
      var rest := Split(s[1..]);
      if s[0] == '.' {
        assert Split(s)[1..] == rest;
      } else {
        assert Split(s)[1..] == rest[1..];
      }
    }
  }

  lemma SplitCons(c: char, s: string)
    ensures Split([c] + s) == if c == '.' then [""] + Split(s) else [[c] + Split(s)[0]] + Split(s)[1..]
  {
    assert ([c] + s)[1..] == s;
  }

  lemma {:induction false} SplitConcat(a: string, b: string)
    ensures Split(a + "." + b) == Split(a) + Split(b)
  {
    hide Split;
    if a == [] {
      assert a + "." + b == ['.'] + b;
      SplitCons('.', b);
      SplitPlain(a);
    } else {
      var rest := a[1..] + "." + b;
      assert a + "." + b == [a[0]] + rest && a == [a[0]] + a[1..];
      SplitConcat(a[1..], b);
      SplitCons(a[0], rest);
      SplitCons(a[0], a[1..]);
    }
  }

  lemma {:induction false} JoinConcat(a: seq<string>, b: seq<string>)
    requires a != [] && b != []
    ensures Join(a + b) == Join(a) + "." + Join(b)
  {
    if |a| == 1 {
      assert (a + b)[1..] == b;
    } else {
      assert (a + b)[1..] == a[1..] + b;
      JoinConcat(a[1..], b);
    }
  }

  lemma {:induction false} SplitDots(s: string)
    ensures |Split(s)| >= 2 <==> '.' in s
  {
    if s != [] {
      SplitDots(s[1..]);
      assert s == [s[0]] + s[1..];
    }
  }

  lemma {:induction false} SplitJoin(parts: seq<string>)
    requires parts != [] && forall p | p in parts :: '.' !in p
    ensures Split(Join(parts)) == parts
  {
    if |parts| == 1 {
      SplitPlain(parts[0]);
    } else {
      SplitConcat(parts[0], Join(parts[1..]));
      SplitPlain(parts[0]);
      SplitJoin(parts[1..]);
    }
  }

  lemma {:induction false} SplitPlain(s: string)
    requires '.' !in s
    ensures Split(s) == [s]
  {
    if s != [] {
      SplitPlain(s[1..]);
      assert s == [s[0]] + s[1..];
    }
  }

  // ---- base domains ----

  const MULTI_PART_TLDS: set<string> := {
    "co.uk", "org.uk", "gov.uk", "ac.uk", "co.jp", "ne.jp", "com.au", "net.au", "org.au", "co.nz",
    "co.in", "net.in", "org.in", "gen.in", "ind.in"}

  /** How many trailing labels make up the base domain. */
  function BaseLabels(parts: seq<string>): (k: nat)
    requires parts != []
    ensures 1 <= k <= |parts|
  {
    if |parts| <= 2 then |parts|
    else if parts[|parts| - 2] + "." + parts[|parts| - 1] in MULTI_PART_TLDS then 3
    else 2
  }

  /** The base domain of a name in normal form, with the source's branches. */
  function BaseOf(h: string): string {
    var parts := Split(h);
    if |parts| <= 2 then h
    else
      var lastTwo := parts[|parts| - 2] + "." + parts[|parts| - 1];
      if lastTwo in MULTI_PART_TLDS then parts[|parts| - 3] + "." + lastTwo else lastTwo
  }

  function BaseDomain(hostname: string): string {
    BaseOf(Norm(hostname))
  }

  /** The name is the domain itself or a subdomain of it, on a label boundary. */
  predicate Under(h: string, domain: string) {
    h == domain || HasSuffix(h, "." + domain)
  }

  lemma JoinLastTwo(parts: seq<string>)
    requires |parts| >= 2
    ensures Join(parts[|parts| - 2..]) == parts[|parts| - 2] + "." + parts[|parts| - 1]
  {
    var two := parts[|parts| - 2..];
    assert two[1..] == [parts[|parts| - 1]];
    assert Join(two[1..]) == parts[|parts| - 1];
  }

  lemma JoinLastThree(parts: seq<string>)
    requires |parts| >= 3
    ensures Join(parts[|parts| - 3..]) == parts[|parts| - 3] + "." + (parts[|parts| - 2] + "." + parts[|parts| - 1])
  {
    var n := |parts|;
    var three := parts[n - 3..];
    JoinLastTwo(parts);
    assert Join(three) == three[0] + "." + Join(three[1..]);
    hide Join;
    assert three[1..] == parts[n - 2..];
  }

  /** The base domain is the join of the last one to three labels. */
  lemma BaseIsTail(hostname: string)
    ensures var parts := Split(Norm(hostname));
            BaseDomain(hostname) == Join(parts[|parts| - BaseLabels(parts)..])
  {
    hide Norm, Split, Join;
    var parts := Split(Norm(hostname));
    JoinSplit(Norm(hostname));
    var n := |parts|;
    if n <= 2 {
      assert parts[0..] == parts;
    } else if parts[n - 2] + "." + parts[n - 1] in MULTI_PART_TLDS {
      JoinLastThree(parts);
    } else {
      JoinLastTwo(parts);
    }
  }

  /** Every name lies under its base domain. */
  lemma NameUnderBase(hostname: string)
    ensures Under(Norm(hostname), BaseDomain(hostname))
  {
    hide Split, Join, BaseDomain, HasSuffix, Norm;
    var h := Norm(hostname);
    var parts := Split(h);
    var k := |parts| - BaseLabels(parts);
    BaseIsTail(hostname);
    JoinSplit(h);
    if k > 0 {
      assert parts == parts[..k] + parts[k..];
      JoinConcat(parts[..k], parts[k..]);
      SuffixOfConcat(Join(parts[..k]), "." + BaseDomain(hostname));
      assert h == Join(parts[..k]) + ("." + BaseDomain(hostname));
    } else {
      assert parts[0..] == parts;
    }
  }

  lemma SuffixOfConcat(a: string, b: string)
    ensures HasSuffix(a + b, b)
  {
  }

  /** A base domain that some longer name can have: not itself a listed suffix, or one label above it. */
  predicate ProperBase(base: string) {
    var parts := Split(base);
    (|parts| == 2 && base !in MULTI_PART_TLDS) || (|parts| == 3 && parts[1] + "." + parts[2] in MULTI_PART_TLDS)
  }

  /** The base domain of a name longer than it is proper. */
  lemma LongerNameHasProperBase(hostname: string)
    requires Norm(hostname) != BaseDomain(hostname)
    ensures ProperBase(BaseDomain(hostname))
  {
    hide Norm, Split, Join, BaseDomain, BaseLabels, ProperBase;
    var parts := Split(Norm(hostname));
    BaseIsTail(hostname);
    JoinSplit(Norm(hostname));
    assert parts[0..] == parts;
    TailIsProper(parts, BaseLabels(parts));
  }

  lemma TailIsProper(parts: seq<string>, k: nat)
    requires parts != [] && k == BaseLabels(parts) < |parts| && forall p | p in parts :: '.' !in p
    ensures ProperBase(Join(parts[|parts| - k..]))
  {
    var n := |parts|;
    var tail := parts[n - k..];
    forall p | p in tail ensures '.' !in p {
      assert p in parts;
    }
    SplitJoin(tail);
    hide Split;
    if k == 2 {
      assert tail[1..] == [parts[n - 1]];
      assert Join(tail) == parts[n - 2] + "." + parts[n - 1];
    } else {
      assert tail[1] == parts[n - 2] && tail[2] == parts[n - 1];
    }
  }

  /** Everything under a proper base domain has that base domain. */
  lemma UnderProperBase(hostname: string, base: string)
    requires ProperBase(base) && Under(Norm(hostname), base)
    ensures BaseDomain(hostname) == base
  {
    var h := Norm(hostname);
    hide Norm, Split;
    var tail := Split(base);
    TailTexts(base);
    if h != base {
      var front := h[..|h| - |base| - 1];
      assert h == front + ("." + base) && h == front + "." + base;
      SplitConcat(front, base);
      var parts := Split(h);
      assert parts[|parts| - 1] == tail[|tail| - 1] && parts[|parts| - 2] == tail[|tail| - 2];
      assert |tail| == 3 ==> parts[|parts| - 3] == tail[0];
    }
  }

  lemma TailTexts(base: string)
    requires ProperBase(base)
    ensures var t := Split(base);
            if |t| == 2 then base == t[0] + "." + t[1] else base == t[0] + "." + (t[1] + "." + t[2])
  {
    JoinSplit(base);
    var t := Split(base);
    if |t| == 2 {
      assert t[1..] == [t[1]];
    } else {
      assert t[1..] == [t[1], t[2]] && t[1..][1..] == [t[2]];
    }
  }
}
