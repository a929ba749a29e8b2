/** Clock-domain crossing suspects (`cdc_suspects` in src/hdl_kgraph/graph/clocks.py).
    Nets are alias roots: every use of a net in the analysis goes through `find`. */
module Cdc {
  import opened Schema

  /** A CLOCKED_BY, READS or DRIVES edge from `src` to (the alias root of) a net. */
  datatype Link = Link(src: string, net: string, conf: real)

  datatype Netlist = Netlist(processes: set<string>, clocks: seq<Link>, readers: seq<Link>, drivers: seq<Link>)

  /** The unique domain of a clocked process. */
  datatype Domain = Domain(root: string, conf: real)

  /** Evidence that a net is driven from a domain: confidence and driving process. */
  datatype Evidence = Evidence(conf: real, driver: string)

  /** A domain root reaching a signal. */
  datatype Reach = Reach(sig: string, root: string)

  datatype Suspect = Suspect(
    sig: string, driver: string, driverRoot: string, reader: string, readerRoot: string, conf: real, declaredSafe: bool)

  /** SDC-declared safe crossings: asynchronous pairs, directed false paths, false-path nets. */
  datatype SafeCrossings = SafeCrossings(
    asyncPairs: set<(string, string)>, falsePaths: set<(string, string)>, falseNets: set<string>)

  // -- what the analysis means --------------------------------------------------------------

  /** The CLOCKED_BY edges of `p` among the first `n`. */
  predicate IsClock(d: Netlist, p: string, i: nat) {
    i < |d.clocks| && d.clocks[i].src == p && p in d.processes
  }

  predicate FirstClock(d: Netlist, p: string, i: nat) {
    IsClock(d, p, i) && forall j :: 0 <= j < i ==> !IsClock(d, p, j)
  }

  /** A process is in a domain when all its clock edges name one net; its confidence is the first edge's. */
  ghost predicate InDomain(d: Netlist, p: string, root: string, conf: real) {
    && (exists i: nat :: FirstClock(d, p, i) && d.clocks[i].conf == conf)
    && (forall i: nat :: IsClock(d, p, i) ==> d.clocks[i].net == root)
  }

  ghost predicate Undomained(d: Netlist, p: string) {
    forall root, conf :: !InDomain(d, p, root, conf)
  }

  predicate Has(links: seq<Link>, p: string, net: string, conf: real) {
    Link(p, net, conf) in links
  }

  /** One combinational process on a path: it reads `from` and drives the next net. */
  datatype Hop = Hop(proc: string, from: string, readConf: real, driveConf: real)

  /** A path from a clocked driver in domain `root` through undomained processes to `sig`,
      whose weakest evidence is `conf`. */
  ghost predicate Path(d: Netlist, sig: string, root: string, driver: string, conf: real, hops: seq<Hop>)
    decreases |hops|
  {
    if hops == [] then
      exists clock, drive ::
        && driver in d.processes && InDomain(d, driver, root, clock)
        && Has(d.drivers, driver, sig, drive) && conf == Min(clock, drive)
    else
      var h := hops[|hops| - 1];
      && h.proc in d.processes && Undomained(d, h.proc)
      && Has(d.readers, h.proc, h.from, h.readConf) && Has(d.drivers, h.proc, sig, h.driveConf)
      && exists before :: Path(d, h.from, root, driver, before, hops[..|hops| - 1]) &&
                          conf == Min(Min(before, h.readConf), h.driveConf)
  }

  /** The path with the confidence of every edge on it, the driver's clock edge first. */
  ghost predicate Carries(d: Netlist, sig: string, root: string, driver: string, hops: seq<Hop>, evidence: seq<real>)
    decreases |hops|
  {
    if hops == [] then
      && |evidence| == 2 && driver in d.processes
      && InDomain(d, driver, root, evidence[0]) && Link(driver, sig, evidence[1]) in d.drivers
    else
      var h := hops[|hops| - 1];
      && h.proc in d.processes && Undomained(d, h.proc)
      && Link(h.proc, h.from, h.readConf) in d.readers && Link(h.proc, sig, h.driveConf) in d.drivers
      && |evidence| == 2 + 2 * |hops| && evidence[2 * |hops|..] == [h.readConf, h.driveConf]
      && Carries(d, h.from, root, driver, hops[..|hops| - 1], evidence[..2 * |hops|])
  }

  /** The least of the evidence: no edge is weaker, and some edge is as weak. */
  ghost predicate Weakest(conf: real, evidence: seq<real>) {
    conf in evidence && forall c :: c in evidence ==> conf <= c
  }

  ghost predicate NoStronger(conf: real, evidence: seq<real>) {
    forall c :: c in evidence ==> conf <= c
  }

  lemma WeakestOfTwo(a: real, b: real)
    ensures Weakest(Min(a, b), [a, b])
  {
    assert [a, b][0] == a && [a, b][1] == b;
  }

  lemma WeakestMore(before: real, evidence: seq<real>, a: real, b: real)
    requires Weakest(before, evidence)
    ensures Weakest(Min(Min(before, a), b), evidence + [a, b])
  {
    assert (evidence + [a, b])[|evidence|..] == [a, b];
    assert forall c :: c in evidence + [a, b] <==> c in evidence || c == a || c == b;
  }

  lemma WeakestBounds(conf: real, bound: real, evidence: seq<real>)
    requires Weakest(conf, evidence)
    ensures NoStronger(bound, evidence) <==> bound <= conf
  {
  }

  /** A path's confidence is the least of its edges'. */
  lemma {:induction false} PathEvidence(d: Netlist, sig: string, root: string, driver: string, conf: real,
                                        hops: seq<Hop>) returns (evidence: seq<real>)
    requires Path(d, sig, root, driver, conf, hops)
    ensures Carries(d, sig, root, driver, hops, evidence) && Weakest(conf, evidence)
    decreases |hops|
  {
    if hops == [] {
      var clock, drive :|
        InDomain(d, driver, root, clock) && Has(d.drivers, driver, sig, drive) && conf == Min(clock, drive);
      evidence := [clock, drive];
      WeakestOfTwo(clock, drive);
    } else {
      var h := hops[|hops| - 1];
      var before :| Path(d, h.from, root, driver, before, hops[..|hops| - 1]) &&
                    conf == Min(Min(before, h.readConf), h.driveConf);
      var inner := PathEvidence(d, h.from, root, driver, before, hops[..|hops| - 1]);
      CarriesLength(d, h.from, root, driver, hops[..|hops| - 1], inner);
      evidence := inner + [h.readConf, h.driveConf];
      assert evidence[..2 * |hops|] == inner;
      WeakestMore(before, inner, h.readConf, h.driveConf);
    }
  }

  lemma CarriesLength(d: Netlist, sig: string, root: string, driver: string, hops: seq<Hop>, evidence: seq<real>)
    requires Carries(d, sig, root, driver, hops, evidence)
    ensures |evidence| == 2 + 2 * |hops|
  {
  }

  /** Every path with evidence has its least as its confidence. */
  lemma {:induction false} EvidencePath(d: Netlist, sig: string, root: string, driver: string, hops: seq<Hop>,
                                        evidence: seq<real>) returns (conf: real)
    requires Carries(d, sig, root, driver, hops, evidence)
    ensures Path(d, sig, root, driver, conf, hops) && Weakest(conf, evidence)
    decreases |hops|
  {
    if hops == [] {
      assert Has(d.drivers, driver, sig, evidence[1]);
      conf := Min(evidence[0], evidence[1]);
      WeakestOfTwo(evidence[0], evidence[1]);
      assert evidence == [evidence[0], evidence[1]];
    } else {
      var h := hops[|hops| - 1];
      var before := EvidencePath(d, h.from, root, driver, hops[..|hops| - 1], evidence[..2 * |hops|]);
      WeakestMore(before, evidence[..2 * |hops|], h.readConf, h.driveConf);
      assert evidence == evidence[..2 * |hops|] + [h.readConf, h.driveConf];
      conf := Min(Min(before, h.readConf), h.driveConf);
    }
  }

  // -- the order of the sweep ---------------------------------------------------------------------

  /** The first DRIVES edge of `p`, in edge order; past the last when it drives nothing. */
  function Turn(d: Netlist, p: string, from: nat): (i: nat)
    requires from <= |d.drivers|
    ensures from <= i <= |d.drivers|
    decreases |d.drivers| - from
  {
    if from == |d.drivers| || d.drivers[from].src == p then from else Turn(d, p, from + 1)
  }

  /** The processes of the hops first drive something in the order of the path, the last of them
      before the `n`-th DRIVES edge. */
  ghost predicate InSweepOrder(d: Netlist, hops: seq<Hop>, n: nat) {
    && (forall x, y :: 0 <= x < y < |hops| ==> Turn(d, hops[x].proc, 0) < Turn(d, hops[y].proc, 0))
    && (forall x :: 0 <= x < |hops| ==> Turn(d, hops[x].proc, 0) < n)
  }

  lemma {:induction false} TurnIs(d: Netlist, p: string, from: nat, i: nat)
    requires from <= i < |d.drivers| && d.drivers[i].src == p && forall j :: from <= j < i ==> d.drivers[j].src != p
    ensures Turn(d, p, from) == i
    decreases i - from
  {
    if from < i { TurnIs(d, p, from + 1, i); }
  }

  lemma {:induction false} TurnDrives(d: Netlist, p: string, from: nat, drive: Link)
    requires from <= |d.drivers| && drive in d.drivers[from..] && drive.src == p
    ensures Turn(d, p, from) < |d.drivers| && d.drivers[Turn(d, p, from)].src == p
    ensures forall j :: from <= j < Turn(d, p, from) ==> d.drivers[j].src != p
    decreases |d.drivers| - from
  {
    if d.drivers[from].src != p {
      assert d.drivers[from..] == [d.drivers[from]] + d.drivers[from + 1..];
      TurnDrives(d, p, from + 1, drive);
    }
  }

  ghost predicate IsClockNet(d: Netlist, net: string) {
    exists i: nat :: i < |d.clocks| && d.clocks[i].src in d.processes && d.clocks[i].net == net
  }

  // -- the best evidence per (signal, domain) ---------------------------------------------------

  type Reached = map<Reach, Evidence>

  /** Keep the stronger evidence; a tie keeps the older. */
  function Raise<K>(m: map<K, Evidence>, k: K, e: Evidence): map<K, Evidence> {
    if k !in m || m[k].conf < e.conf then m[k := e] else m
  }

  ghost predicate AtLeast<K(!new)>(m: map<K, Evidence>, k: K, conf: real) {
    k in m && m[k].conf >= conf
  }

  /** Evidence gives way to stronger evidence only. */
  ghost predicate Grown<K(!new)>(m: map<K, Evidence>, n: map<K, Evidence>) {
    forall k :: k in m ==> k in n && (n[k] == m[k] || n[k].conf > m[k].conf)
  }

  lemma RaiseGrows<K(!new)>(m: map<K, Evidence>, k: K, e: Evidence)
    ensures Grown(m, Raise(m, k, e)) && AtLeast(Raise(m, k, e), k, e.conf)
    ensures forall l :: l in Raise(m, k, e) ==>
      (l in m && Raise(m, k, e)[l] == m[l]) || (l == k && Raise(m, k, e)[l] == e)
  {
  }

  ghost predicate Backed(d: Netlist, n: nat, r: Reach, e: Evidence) {
    exists hops :: Path(d, r.sig, r.root, e.driver, e.conf, hops) && InSweepOrder(d, hops, n)
  }

  /** Every recorded reach has a path behind it, in the order of the sweep up to the `n`-th DRIVES edge. */
  ghost predicate Witnessed(d: Netlist, n: nat, m: Reached) {
    forall r :: r in m ==> Backed(d, n, r, m[r])
  }

  /** Every such path is recorded with at least its weakest evidence. */
  ghost predicate Complete(d: Netlist, n: nat, m: Reached) {
    forall sig, root, driver, conf, hops :: Path(d, sig, root, driver, conf, hops) && InSweepOrder(d, hops, n) ==>
      AtLeast(m, Reach(sig, root), conf)
  }

  /** Evidence that may be recorded. */
  type Allowed = iset<(Reach, Evidence)>

  ghost predicate AllIn(m: Reached, allowed: Allowed) {
    forall r :: r in m ==> (r, m[r]) in allowed
  }

  ghost function BackedAt(d: Netlist, n: nat): Allowed {
    iset r: Reach, e: Evidence | Backed(d, n, r, e) :: (r, e)
  }

  lemma AllBacked(d: Netlist, n: nat, m: Reached)
    ensures AllIn(m, BackedAt(d, n)) <==> Witnessed(d, n, m)
  {
    forall r | r in m ensures (r, m[r]) in BackedAt(d, n) <==> Backed(d, n, r, m[r]) {
    }
  }

  // -- phase 1: process domains -------------------------------------------------------------------

  datatype Held = Unique(domain: Domain) | Ambiguous

  predicate PrefixClock(d: Netlist, p: string, n: nat, i: nat) {
    i < n && IsClock(d, p, i)
  }

  ghost predicate HeldAfter(d: Netlist, n: nat, p: string, held: map<string, Held>) {
    && (p in held <==> exists i: nat :: PrefixClock(d, p, n, i))
    && (p in held && held[p].Unique? ==>
          && (exists i: nat :: i < n && FirstClock(d, p, i) && d.clocks[i].conf == held[p].domain.conf)
          && forall i: nat :: PrefixClock(d, p, n, i) ==> d.clocks[i].net == held[p].domain.root)
    && (p in held && held[p].Ambiguous? ==>
          exists i: nat, j: nat ::
            PrefixClock(d, p, n, i) && PrefixClock(d, p, n, j) && d.clocks[i].net != d.clocks[j].net)
  }

  method ProcessDomains(d: Netlist) returns (domains: map<string, Domain>, clockNets: set<string>)
    ensures forall p, root, conf :: InDomain(d, p, root, conf) <==> p in domains && domains[p] == Domain(root, conf)
    ensures forall net :: net in clockNets <==> IsClockNet(d, net)
  {
    var held: map<string, Held> := map[];
    clockNets := {};
    for n := 0 to |d.clocks|
      invariant forall p :: HeldAfter(d, n, p, held)
      invariant forall net :: net in clockNets <==>
        exists i: nat :: i < n && d.clocks[i].src in d.processes && d.clocks[i].net == net
    {
      var c := d.clocks[n];
      ghost var before := held;
      if c.src in d.processes {
        clockNets := clockNets + {c.net};
        if c.src !in held {
          held := held[c.src := Unique(Domain(c.net, c.conf))];
        } else if held[c.src].Unique? && held[c.src].domain.root != c.net {
          held := held[c.src := Ambiguous];
        }
      }
      ghost var next: nat := n + 1;
      forall p ensures HeldAfter(d, next, p, held) {
        HeldStep(d, n, next, p, before, held);
      }
    }
    domains := map p | p in held && held[p].Unique? :: held[p].domain;
    forall p, root, conf ensures InDomain(d, p, root, conf) <==> p in domains && domains[p] == Domain(root, conf) {
      HeldIsDomain(d, p, root, conf, held);
    }
  }

  lemma HeldStep(d: Netlist, n: nat, m: nat, p: string, before: map<string, Held>, after: map<string, Held>)
    requires n < |d.clocks| && m == n + 1 && HeldAfter(d, n, p, before)
    requires var c := d.clocks[n];
             after == if c.src !in d.processes then before
                      else if c.src !in before then before[c.src := Unique(Domain(c.net, c.conf))]
                      else if before[c.src].Unique? && before[c.src].domain.root != c.net then
                        before[c.src := Ambiguous]
                      else before
    ensures HeldAfter(d, m, p, after)
  {
    forall i: nat ensures PrefixClock(d, p, m, i) <==> PrefixClock(d, p, n, i) || (i == n && IsClock(d, p, n)) {}
    if IsClock(d, p, n) { assert PrefixClock(d, p, m, n); }
    if p !in before {
      assert forall i: nat :: !PrefixClock(d, p, n, i);
      if IsClock(d, p, n) {
        forall j: nat | j < n ensures !IsClock(d, p, j) { assert !PrefixClock(d, p, n, j); }
        assert n < m && FirstClock(d, p, n);
      }
    } else {
      var i: nat :| PrefixClock(d, p, n, i);
      assert PrefixClock(d, p, m, i);
      if before[p].Ambiguous? {
        var k: nat, l: nat :| PrefixClock(d, p, n, k) && PrefixClock(d, p, n, l) && d.clocks[k].net != d.clocks[l].net;
        assert PrefixClock(d, p, m, k) && PrefixClock(d, p, m, l);
      } else {
        var k: nat :| k < n && FirstClock(d, p, k) && d.clocks[k].conf == before[p].domain.conf;
        assert k < m && PrefixClock(d, p, m, k) && PrefixClock(d, p, n, k);
      }
    }
  }

  lemma HeldIsDomain(d: Netlist, p: string, root: string, conf: real, held: map<string, Held>)
    requires HeldAfter(d, |d.clocks|, p, held)
    ensures InDomain(d, p, root, conf) <==> p in held && held[p] == Unique(Domain(root, conf))
  {
    forall i: nat ensures PrefixClock(d, p, |d.clocks|, i) <==> IsClock(d, p, i) {}
    if InDomain(d, p, root, conf) {
      var i: nat :| FirstClock(d, p, i) && d.clocks[i].conf == conf;
      assert PrefixClock(d, p, |d.clocks|, i);
      if held[p].Unique? {
        var j: nat :| FirstClock(d, p, j) && d.clocks[j].conf == held[p].domain.conf;
        assert IsClock(d, p, i) && IsClock(d, p, j);
        assert i == j;
      }
    }
    if p in held && held[p] == Unique(Domain(root, conf)) {
      forall i: nat | IsClock(d, p, i) ensures d.clocks[i].net == root {
        assert PrefixClock(d, p, |d.clocks|, i);
      }
    }
  }

  // -- phase 2: signals driven by clocked processes -------------------------------------------------

  ghost predicate IsDomains(d: Netlist, domains: map<string, Domain>) {
    forall p, root, conf :: InDomain(d, p, root, conf) <==> p in domains && domains[p] == Domain(root, conf)
  }

  /** The reaches of the direct paths through the first `n` DRIVES edges. */
  ghost predicate DirectDone(d: Netlist, domains: map<string, Domain>, n: nat, m: Reached) {
    forall i: nat :: i < n <= |d.drivers| && d.drivers[i].src in d.processes && d.drivers[i].src in domains ==>
      DirectAt(d, domains, i, m)
  }

  ghost predicate DirectAt(d: Netlist, domains: map<string, Domain>, i: nat, m: Reached)
    requires i < |d.drivers| && d.drivers[i].src in domains
  {
    var l := d.drivers[i];
    AtLeast(m, Reach(l.net, domains[l.src].root), Min(domains[l.src].conf, l.conf))
  }

  ghost predicate DirectFrom(d: Netlist, domains: map<string, Domain>, i: nat, r: Reach) {
    && i < |d.drivers| && d.drivers[i].src in d.processes && d.drivers[i].src in domains
    && r == Reach(d.drivers[i].net, domains[d.drivers[i].src].root)
  }

  function DirectEvidence(d: Netlist, domains: map<string, Domain>, i: nat): Evidence
    requires i < |d.drivers| && d.drivers[i].src in domains
  {
    Evidence(Min(domains[d.drivers[i].src].conf, d.drivers[i].conf), d.drivers[i].src)
  }

  /** The `i`-th DRIVES edge is the first of the strongest direct ones for `r`. */
  ghost predicate FirstStrongest(d: Netlist, domains: map<string, Domain>, n: nat, r: Reach, e: Evidence) {
    exists i: nat :: i < n && DirectFrom(d, domains, i, r) && e == DirectEvidence(d, domains, i) &&
      forall j: nat :: j < i && DirectFrom(d, domains, j, r) ==> DirectEvidence(d, domains, j).conf < e.conf
  }

  method DirectDrives(d: Netlist, domains: map<string, Domain>) returns (m: Reached)
    requires IsDomains(d, domains)
    ensures Witnessed(d, 0, m) && Complete(d, 0, m)
    ensures forall r :: r in m ==> FirstStrongest(d, domains, |d.drivers|, r, m[r])
  {
    forall i: nat | i < |d.drivers| && d.drivers[i].src in d.processes && d.drivers[i].src in domains
      ensures Backed(d, 0, Reach(d.drivers[i].net, domains[d.drivers[i].src].root), DirectEvidence(d, domains, i))
    {
      DirectPath(d, domains, i);
    }
    m := CollectDirect(d, domains, BackedAt(d, 0));
    AllBacked(d, 0, m);
    DirectComplete(d, domains, m);
  }

  method CollectDirect(d: Netlist, domains: map<string, Domain>, ghost allowed: Allowed) returns (m: Reached)
    requires forall i: nat, r :: DirectFrom(d, domains, i, r) ==> (r, DirectEvidence(d, domains, i)) in allowed
    ensures AllIn(m, allowed) && DirectDone(d, domains, |d.drivers|, m)
    ensures forall r :: r in m ==> FirstStrongest(d, domains, |d.drivers|, r, m[r])
  {
    m := map[];
    for n := 0 to |d.drivers|
      invariant AllIn(m, allowed) && DirectDone(d, domains, n, m)
      invariant forall r :: r in m ==> FirstStrongest(d, domains, n, r, m[r])
    {
      var l := d.drivers[n];
      if l.src in d.processes && l.src in domains {
        var k, e := Reach(l.net, domains[l.src].root), Evidence(Min(domains[l.src].conf, l.conf), l.src);
        assert DirectFrom(d, domains, n, k) && e == DirectEvidence(d, domains, n);
        RaiseGrows(m, k, e);
        GrownDirect(d, domains, n, m, Raise(m, k, e));
        RaiseStrongest(d, domains, n, m, k, e);
        m := Raise(m, k, e);
      } else {
        StrongestLater(d, domains, n, m);
      }
    }
  }

  lemma StrongestLater(d: Netlist, domains: map<string, Domain>, n: nat, m: Reached)
    requires forall r :: r in m ==> FirstStrongest(d, domains, n, r, m[r])
    ensures forall r :: r in m ==> FirstStrongest(d, domains, n + 1, r, m[r])
  {
    forall r | r in m ensures FirstStrongest(d, domains, n + 1, r, m[r]) {
      assert FirstStrongest(d, domains, n, r, m[r]);
    }
  }

  lemma RaiseStrongest(d: Netlist, domains: map<string, Domain>, n: nat, m: Reached, k: Reach, e: Evidence)
    requires DirectFrom(d, domains, n, k) && e == DirectEvidence(d, domains, n) && DirectDone(d, domains, n, m)
    requires forall r :: r in m ==> FirstStrongest(d, domains, n, r, m[r])
    ensures forall r :: r in Raise(m, k, e) ==> FirstStrongest(d, domains, n + 1, r, Raise(m, k, e)[r])
  {
    StrongestLater(d, domains, n, m);
    if k !in m || m[k].conf < e.conf {
      forall j: nat | j < n && DirectFrom(d, domains, j, k) ensures DirectEvidence(d, domains, j).conf < e.conf {
        assert DirectAt(d, domains, j, m);
      }
      assert n < n + 1 && FirstStrongest(d, domains, n + 1, k, e);
    }
  }

  lemma DirectPath(d: Netlist, domains: map<string, Domain>, n: nat)
    requires IsDomains(d, domains) && n < |d.drivers| && d.drivers[n].src in d.processes && d.drivers[n].src in domains
    ensures var l := d.drivers[n];
            Backed(d, 0, Reach(l.net, domains[l.src].root), Evidence(Min(domains[l.src].conf, l.conf), l.src))
  {
    var l := d.drivers[n];
    var dom := domains[l.src];
    assert InDomain(d, l.src, dom.root, dom.conf);
    assert Has(d.drivers, l.src, l.net, l.conf);
    assert Path(d, l.net, dom.root, l.src, Min(dom.conf, l.conf), []) && InSweepOrder(d, [], 0);
  }

  lemma GrownDirect(d: Netlist, domains: map<string, Domain>, n: nat, m: Reached, next: Reached)
    requires DirectDone(d, domains, n, m) && Grown(m, next)
    ensures DirectDone(d, domains, n, next)
  {
    forall i: nat | i < n <= |d.drivers| && d.drivers[i].src in d.processes && d.drivers[i].src in domains
      ensures DirectAt(d, domains, i, next)
    {
      assert DirectAt(d, domains, i, m);
    }
  }

  lemma DirectReached(d: Netlist, domains: map<string, Domain>, m: Reached, sig: string, root: string, driver: string,
                      conf: real)
    requires IsDomains(d, domains) && DirectDone(d, domains, |d.drivers|, m)
    requires Path(d, sig, root, driver, conf, [])
    ensures AtLeast(m, Reach(sig, root), conf)
  {
    var clock, drive :|
      && driver in d.processes && InDomain(d, driver, root, clock)
      && Has(d.drivers, driver, sig, drive) && conf == Min(clock, drive);
    var i: nat :| i < |d.drivers| && d.drivers[i] == Link(driver, sig, drive);
    assert DirectAt(d, domains, i, m);
  }

  lemma DirectComplete(d: Netlist, domains: map<string, Domain>, m: Reached)
    requires IsDomains(d, domains) && DirectDone(d, domains, |d.drivers|, m)
    ensures Complete(d, 0, m)
  {
    forall sig, root, driver, conf, hops: seq<Hop> |
      Path(d, sig, root, driver, conf, hops) && InSweepOrder(d, hops, 0)
      ensures AtLeast(m, Reach(sig, root), conf)
    {
      assert hops == [];
      DirectReached(d, domains, m, sig, root, driver, conf);
    }
  }

  // -- phase 3: the one-step combinational bridge ------------------------------------------------------

  /** The domains an undomained process inherits from what it reads. */
  type Inherited = map<string, Evidence>

  ghost predicate InheritedFrom(d: Netlist, p: string, m: Reached, n: nat, inherited: Inherited) {
    && (forall root :: root in inherited ==> ReadBacked(d, p, m, root, inherited[root]))
    && (forall i: nat, root :: i < n <= |d.readers| && d.readers[i].src == p && Reach(d.readers[i].net, root) in m ==>
          AtLeast(inherited, root, Min(m[Reach(d.readers[i].net, root)].conf, d.readers[i].conf)))
  }

  ghost predicate ReadBacked(d: Netlist, p: string, m: Reached, root: string, e: Evidence) {
    exists i: nat :: i < |d.readers| && d.readers[i].src == p && Reach(d.readers[i].net, root) in m &&
      var reached := m[Reach(d.readers[i].net, root)];
      e == Evidence(Min(reached.conf, d.readers[i].conf), reached.driver)
  }

  function RootsOf(m: Reached, sig: string): set<string> {
    set r | r in m && r.sig == sig :: r.root
  }

  method Inherit(d: Netlist, p: string, m: Reached) returns (inherited: Inherited)
    ensures InheritedFrom(d, p, m, |d.readers|, inherited)
  {
    inherited := map[];
    for n := 0 to |d.readers|
      invariant InheritedFrom(d, p, m, n, inherited)
    {
      if d.readers[n].src == p {
        inherited := InheritRead(d, p, m, n, inherited);
      }
    }
  }

  lemma InheritMore(d: Netlist, p: string, m: Reached, n: nat, inherited: Inherited, root: string, e: Evidence)
    requires InheritedFrom(d, p, m, n, inherited) && ReadBacked(d, p, m, root, e)
    ensures InheritedFrom(d, p, m, n, Raise(inherited, root, e))
    ensures Grown(inherited, Raise(inherited, root, e)) && AtLeast(Raise(inherited, root, e), root, e.conf)
  {
    RaiseGrows(inherited, root, e);
  }

  method InheritRead(d: Netlist, p: string, m: Reached, n: nat, before: Inherited) returns (inherited: Inherited)
    requires n < |d.readers| && d.readers[n].src == p && InheritedFrom(d, p, m, n, before)
    ensures InheritedFrom(d, p, m, n + 1, inherited)
  {
    var l := d.readers[n];
    inherited := before;
    var rest := RootsOf(m, l.net);
    while rest != {}
      invariant rest <= RootsOf(m, l.net) && InheritedFrom(d, p, m, n, inherited)
      invariant forall root :: Reach(l.net, root) in m && root !in rest ==>
        AtLeast(inherited, root, Min(m[Reach(l.net, root)].conf, l.conf))
      decreases rest
    {
      var root :| root in rest;
      var r := Reach(l.net, root);
      assert r in m;
      var e := Evidence(Min(m[r].conf, l.conf), m[r].driver);
      InheritMore(d, p, m, n, inherited, root, e);
      inherited := Raise(inherited, root, e);
      rest := rest - {root};
    }
    assert forall root :: Reach(l.net, root) in m ==> root in RootsOf(m, l.net);
  }

  /** What driving adds: every inherited domain reaches every driven net. */
  ghost predicate Driven(d: Netlist, p: string, inherited: Inherited, n: nat, m: Reached) {
    forall i: nat, root :: i < n <= |d.drivers| && d.drivers[i].src == p && root in inherited ==>
      AtLeast(m, Reach(d.drivers[i].net, root), Min(inherited[root].conf, d.drivers[i].conf))
  }

  /** `p` is the undomained process of the `n`-th DRIVES edge, and what it inherits has paths behind it. */
  ghost predicate Bridgeable(d: Netlist, n: nat, p: string, inherited: Inherited) {
    && p in d.processes && Undomained(d, p) && Turn(d, p, 0) == n
    && forall root :: root in inherited ==> InheritedPath(d, n, p, root, inherited[root])
  }

  ghost predicate InheritedPath(d: Netlist, n: nat, p: string, root: string, e: Evidence) {
    exists from, readConf, before, hops ::
      && Has(d.readers, p, from, readConf) && Path(d, from, root, e.driver, before, hops) && InSweepOrder(d, hops, n)
      && e.conf == Min(before, readConf)
  }

  lemma InheritedIsPath(d: Netlist, n: nat, p: string, m: Reached, inherited: Inherited)
    requires p in d.processes && Undomained(d, p) && Turn(d, p, 0) == n && Witnessed(d, n, m)
    requires InheritedFrom(d, p, m, |d.readers|, inherited)
    ensures Bridgeable(d, n, p, inherited)
  {
    forall root | root in inherited ensures InheritedPath(d, n, p, root, inherited[root]) {
      assert ReadBacked(d, p, m, root, inherited[root]);
      var i: nat :| i < |d.readers| && d.readers[i].src == p && Reach(d.readers[i].net, root) in m &&
        inherited[root] == Evidence(Min(m[Reach(d.readers[i].net, root)].conf, d.readers[i].conf),
                                    m[Reach(d.readers[i].net, root)].driver);
      var l := d.readers[i];
      var r := Reach(l.net, root);
      assert Backed(d, n, r, m[r]);
      var hops :| Path(d, r.sig, r.root, m[r].driver, m[r].conf, hops) && InSweepOrder(d, hops, n);
      assert Has(d.readers, p, l.net, l.conf);
    }
  }

  lemma BridgePath(d: Netlist, n: nat, p: string, root: string, e: Evidence, l: Link)
    requires p in d.processes && Undomained(d, p) && Turn(d, p, 0) == n && InheritedPath(d, n, p, root, e)
    requires l in d.drivers && l.src == p
    ensures Backed(d, n + 1, Reach(l.net, root), Evidence(Min(e.conf, l.conf), e.driver))
  {
    var from, readConf, before, hops :|
      && Has(d.readers, p, from, readConf) && Path(d, from, root, e.driver, before, hops) && InSweepOrder(d, hops, n)
      && e.conf == Min(before, readConf);
    var h := Hop(p, from, readConf, l.conf);
    assert Has(d.drivers, p, l.net, l.conf);
    LongerPath(d, l.net, root, e.driver, before, hops, h);
    LongerOrder(d, hops, h, n);
  }

  lemma LongerPath(d: Netlist, sig: string, root: string, driver: string, before: real, hops: seq<Hop>, h: Hop)
    requires Path(d, h.from, root, driver, before, hops) && h.proc in d.processes && Undomained(d, h.proc)
    requires Has(d.readers, h.proc, h.from, h.readConf) && Has(d.drivers, h.proc, sig, h.driveConf)
    ensures Path(d, sig, root, driver, Min(Min(before, h.readConf), h.driveConf), hops + [h])
  {
    assert (hops + [h])[..|hops|] == hops;
  }

  lemma LongerOrder(d: Netlist, hops: seq<Hop>, h: Hop, n: nat)
    requires InSweepOrder(d, hops, n) && Turn(d, h.proc, 0) == n
    ensures InSweepOrder(d, hops + [h], n + 1)
  {
  }

  lemma WitnessedLater(d: Netlist, n: nat, m: Reached)
    requires Witnessed(d, n, m)
    ensures Witnessed(d, n + 1, m)
  {
    forall r | r in m ensures Backed(d, n + 1, r, m[r]) {
      assert Backed(d, n, r, m[r]);
      var hops :| Path(d, r.sig, r.root, m[r].driver, m[r].conf, hops) && InSweepOrder(d, hops, n);
      assert InSweepOrder(d, hops, n + 1);
    }
  }

  /** What driving may record. */
  ghost predicate MayDrive(d: Netlist, p: string, inherited: Inherited, allowed: Allowed) {
    forall l, root :: l in d.drivers && l.src == p && root in inherited ==>
      (Reach(l.net, root), Evidence(Min(inherited[root].conf, l.conf), inherited[root].driver)) in allowed
  }

  method Drive(d: Netlist, p: string, inherited: Inherited, before: Reached, ghost allowed: Allowed)
    returns (m: Reached)
    requires MayDrive(d, p, inherited, allowed) && AllIn(before, allowed)
    ensures AllIn(m, allowed) && Grown(before, m) && Driven(d, p, inherited, |d.drivers|, m)
  {
    m := before;
    for i := 0 to |d.drivers|
      invariant AllIn(m, allowed) && Grown(before, m) && Driven(d, p, inherited, i, m)
    {
      if d.drivers[i].src == p {
        m := DriveNet(d, p, inherited, i, m, allowed);
      }
    }
  }

  method DriveNet(d: Netlist, p: string, inherited: Inherited, i: nat, before: Reached, ghost allowed: Allowed)
    returns (m: Reached)
    requires i < |d.drivers| && d.drivers[i].src == p && Driven(d, p, inherited, i, before)
    requires MayDrive(d, p, inherited, allowed) && AllIn(before, allowed)
    ensures AllIn(m, allowed) && Grown(before, m) && Driven(d, p, inherited, i + 1, m)
  {
    var l := d.drivers[i];
    m := before;
    var rest := inherited.Keys;
    while rest != {}
      invariant rest <= inherited.Keys
      invariant AllIn(m, allowed) && Grown(before, m) && Driven(d, p, inherited, i, m)
      invariant forall root :: root in inherited && root !in rest ==>
        AtLeast(m, Reach(l.net, root), Min(inherited[root].conf, l.conf))
      decreases rest
    {
      var root :| root in rest;
      var e := Evidence(Min(inherited[root].conf, l.conf), inherited[root].driver);
      RaiseGrows(m, Reach(l.net, root), e);
      m := Raise(m, Reach(l.net, root), e);
      rest := rest - {root};
    }
  }

  predicate FirstDrive(d: Netlist, n: nat) {
    n < |d.drivers| && forall j :: 0 <= j < n ==> d.drivers[j].src != d.drivers[n].src
  }

  /** A path that the first `n + 1` DRIVES edges allow but the first `n` do not ends with the process
      that drives there for the first time. */
  lemma LastHopHere(d: Netlist, n: nat, sig: string, root: string, driver: string, conf: real, hops: seq<Hop>)
    requires n < |d.drivers| && Path(d, sig, root, driver, conf, hops)
    requires InSweepOrder(d, hops, n + 1) && !InSweepOrder(d, hops, n)
    ensures hops != [] && hops[|hops| - 1].proc == d.drivers[n].src && FirstDrive(d, n)
    ensures InSweepOrder(d, hops[..|hops| - 1], n)
  {
    var h := hops[|hops| - 1];
    var x :| 0 <= x < |hops| && Turn(d, hops[x].proc, 0) >= n;
    assert forall y :: 0 <= y < |hops| - 1 ==> Turn(d, hops[y].proc, 0) < Turn(d, h.proc, 0);
    assert d.drivers[0..] == d.drivers;
    TurnDrives(d, h.proc, 0, Link(h.proc, sig, h.driveConf));
  }

  /** What the `n`-th process hands on completes the paths that end with it. */
  lemma BridgeCompletes(d: Netlist, n: nat, p: string, before: Reached, inherited: Inherited, m: Reached)
    requires n < |d.drivers| && d.drivers[n].src == p && Complete(d, n, before) && Grown(before, m)
    requires InheritedFrom(d, p, before, |d.readers|, inherited) && Driven(d, p, inherited, |d.drivers|, m)
    ensures Complete(d, n + 1, m)
  {
    forall sig, root, driver, conf, hops | Path(d, sig, root, driver, conf, hops) && InSweepOrder(d, hops, n + 1)
      ensures AtLeast(m, Reach(sig, root), conf)
    {
      if InSweepOrder(d, hops, n) {
        assert AtLeast(before, Reach(sig, root), conf);
      } else {
        LastHopHere(d, n, sig, root, driver, conf, hops);
        PathCompletes(d, n, p, before, inherited, m, sig, root, driver, conf, hops);
      }
    }
  }

  lemma PathCompletes(d: Netlist, n: nat, p: string, before: Reached, inherited: Inherited, m: Reached,
                      sig: string, root: string, driver: string, conf: real, hops: seq<Hop>)
    requires Complete(d, n, before) && Path(d, sig, root, driver, conf, hops)
    requires hops != [] && hops[|hops| - 1].proc == p && InSweepOrder(d, hops[..|hops| - 1], n)
    requires InheritedFrom(d, p, before, |d.readers|, inherited) && Driven(d, p, inherited, |d.drivers|, m)
    ensures AtLeast(m, Reach(sig, root), conf)
  {
    var h := hops[|hops| - 1];
    var reached :|
      Path(d, h.from, root, driver, reached, hops[..|hops| - 1]) && conf == Min(Min(reached, h.readConf), h.driveConf);
    assert AtLeast(before, Reach(h.from, root), reached);
    var i: nat :| i < |d.readers| && d.readers[i] == Link(p, h.from, h.readConf);
    var j: nat :| j < |d.drivers| && d.drivers[j] == Link(p, sig, h.driveConf);
    assert AtLeast(inherited, root, Min(before[Reach(d.readers[i].net, root)].conf, d.readers[i].conf));
    assert AtLeast(m, Reach(d.drivers[j].net, root), Min(inherited[root].conf, d.drivers[j].conf));
  }

  lemma ListedIsDomained(d: Netlist, domains: map<string, Domain>)
    requires IsDomains(d, domains)
    ensures forall p :: Undomained(d, p) ==> p !in domains
  {
    forall p | p in domains ensures !Undomained(d, p) {
      assert InDomain(d, p, domains[p].root, domains[p].conf);
    }
  }

  /** Other drivers are passed over. */
  lemma SweepPasses(d: Netlist, domains: map<string, Domain>, n: nat, m: Reached)
    requires IsDomains(d, domains) && n < |d.drivers| && Complete(d, n, m)
    requires !(FirstDrive(d, n) && d.drivers[n].src in d.processes && d.drivers[n].src !in domains)
    ensures Complete(d, n + 1, m)
  {
    ListedIsDomained(d, domains);
    forall sig, root, driver, conf, hops | Path(d, sig, root, driver, conf, hops) && InSweepOrder(d, hops, n + 1)
      ensures AtLeast(m, Reach(sig, root), conf)
    {
      if !InSweepOrder(d, hops, n) {
        LastHopHere(d, n, sig, root, driver, conf, hops);
        assert false;
      }
    }
  }

  lemma NotDomained(d: Netlist, domains: map<string, Domain>, p: string)
    requires IsDomains(d, domains) && p !in domains
    ensures Undomained(d, p)
  {
  }

  lemma MayDriveBacked(d: Netlist, n: nat, p: string, inherited: Inherited)
    requires Bridgeable(d, n, p, inherited)
    ensures MayDrive(d, p, inherited, BackedAt(d, n + 1))
  {
    forall l, root | l in d.drivers && l.src == p && root in inherited
      ensures Backed(d, n + 1, Reach(l.net, root), Evidence(Min(inherited[root].conf, l.conf), inherited[root].driver))
    {
      BridgePath(d, n, p, root, inherited[root], l);
    }
  }

  /** One undomained process hands what it reads to what it drives. */
  method BridgeProcess(d: Netlist, n: nat, p: string, before: Reached) returns (m: Reached)
    requires p in d.processes && Undomained(d, p) && FirstDrive(d, n) && d.drivers[n].src == p
    requires Witnessed(d, n, before) && Complete(d, n, before)
    ensures Witnessed(d, n + 1, m) && Complete(d, n + 1, m) && Grown(before, m)
  {
    TurnIs(d, p, 0, n);
    var inherited := Inherit(d, p, before);
    InheritedIsPath(d, n, p, before, inherited);
    WitnessedLater(d, n, before);
    MayDriveBacked(d, n, p, inherited);
    AllBacked(d, n + 1, before);
    m := Drive(d, p, inherited, before, BackedAt(d, n + 1));
    AllBacked(d, n + 1, m);
    BridgeCompletes(d, n, p, before, inherited, m);
  }

  lemma GrownTransitive(a: Reached, b: Reached, c: Reached)
    requires Grown(a, b) && Grown(b, c)
    ensures Grown(a, c)
  {
  }

  /** The sweep at one DRIVES edge. */
  method SweepEdge(d: Netlist, domains: map<string, Domain>, n: nat, before: Reached) returns (m: Reached)
    requires IsDomains(d, domains) && n < |d.drivers| && Witnessed(d, n, before) && Complete(d, n, before)
    ensures Witnessed(d, n + 1, m) && Complete(d, n + 1, m) && Grown(before, m)
  {
    var p := d.drivers[n].src;
    if FirstDrive(d, n) && p in d.processes && p !in domains {
      NotDomained(d, domains, p);
      m := BridgeProcess(d, n, p, before);
    } else {
      SweepPasses(d, domains, n, before);
      WitnessedLater(d, n, before);
      m := before;
    }
  }

  /** One sweep over the undomained processes, in the order they first drive something: exactly the
      paths whose hops come in that order are found. */
  method Sweep(d: Netlist, domains: map<string, Domain>, base: Reached) returns (m: Reached)
    requires IsDomains(d, domains) && Witnessed(d, 0, base) && Complete(d, 0, base)
    ensures Witnessed(d, |d.drivers|, m) && Complete(d, |d.drivers|, m) && Grown(base, m)
  {
    m := base;
    for n := 0 to |d.drivers|
      invariant Witnessed(d, n, m) && Complete(d, n, m) && Grown(base, m)
    {
      var next := SweepEdge(d, domains, n, m);
      GrownTransitive(base, m, next);
      m := next;
    }
  }

  // -- phase 4: the suspects ------------------------------------------------------------------------

  predicate DeclaredSafe(safe: SafeCrossings, driverRoot: string, readerRoot: string, sig: string) {
    || (driverRoot, readerRoot) in safe.asyncPairs
    || (readerRoot, driverRoot) in safe.asyncPairs
    || (driverRoot, readerRoot) in safe.falsePaths
    || sig in safe.falseNets
  }

  /** A crossing: a process clocked in `readerRoot` reads a data net. */
  ghost predicate Crossing(d: Netlist, sig: string, root: string, reader: string, readerRoot: string, readConf: real,
                           clockConf: real)
  {
    && InDomain(d, reader, readerRoot, clockConf) && reader in d.processes
    && Has(d.readers, reader, sig, readConf) && !IsClockNet(d, sig) && readerRoot != root
  }

  /** Each suspect has a path behind it whose weakest evidence is its confidence. */
  ghost predicate Explained(d: Netlist, safe: SafeCrossings, s: Suspect) {
    && s.declaredSafe == DeclaredSafe(safe, s.driverRoot, s.readerRoot, s.sig)
    && exists before, hops, readConf, clockConf ::
         && Path(d, s.sig, s.driverRoot, s.driver, before, hops) && InSweepOrder(d, hops, |d.drivers|)
         && Crossing(d, s.sig, s.driverRoot, s.reader, s.readerRoot, readConf, clockConf)
         && s.conf == Min(Min(before, readConf), clockConf)
  }

  /** A suspect in terms of the edges behind it: it is as sure as the weakest of them, and declared
      safe when the clocks are asynchronous, the path between them or the net is a false path. */
  ghost predicate Grounded(d: Netlist, safe: SafeCrossings, s: Suspect) {
    && (s.declaredSafe <==>
          (exists pair :: pair in safe.asyncPairs && {pair.0, pair.1} == {s.driverRoot, s.readerRoot}) ||
          (s.driverRoot, s.readerRoot) in safe.falsePaths || s.sig in safe.falseNets)
    && exists hops, evidence, readConf, clockConf ::
         && Carries(d, s.sig, s.driverRoot, s.driver, hops, evidence) && InSweepOrder(d, hops, |d.drivers|)
         && Crossing(d, s.sig, s.driverRoot, s.reader, s.readerRoot, readConf, clockConf)
         && Weakest(s.conf, evidence + [readConf, clockConf])
  }

  lemma ExplainedIsGrounded(d: Netlist, safe: SafeCrossings, s: Suspect)
    requires Explained(d, safe, s)
    ensures Grounded(d, safe, s)
  {
    var before, hops, readConf, clockConf :|
      && Path(d, s.sig, s.driverRoot, s.driver, before, hops) && InSweepOrder(d, hops, |d.drivers|)
      && Crossing(d, s.sig, s.driverRoot, s.reader, s.readerRoot, readConf, clockConf)
      && s.conf == Min(Min(before, readConf), clockConf);
    var evidence := PathEvidence(d, s.sig, s.driverRoot, s.driver, before, hops);
    WeakestMore(before, evidence, readConf, clockConf);
  }

  /** Every crossing of a path in the order of the sweep is reported, at any confidence no edge of it is below. */
  ghost predicate CrossingsReported(d: Netlist, suspects: seq<Suspect>) {
    forall sig, root, driver, hops, evidence, reader, readerRoot, readConf, clockConf, conf ::
      && InSweepOrder(d, hops, |d.drivers|) && Carries(d, sig, root, driver, hops, evidence)
      && Crossing(d, sig, root, reader, readerRoot, readConf, clockConf)
      && NoStronger(conf, evidence + [readConf, clockConf]) ==>
        Reported(suspects, sig, root, reader, readerRoot, conf)
  }

  lemma PathsReported(d: Netlist, suspects: seq<Suspect>)
    requires forall sig, root, driver, before, hops, reader, readerRoot, readConf, clockConf ::
      && InSweepOrder(d, hops, |d.drivers|) && Path(d, sig, root, driver, before, hops)
      && Crossing(d, sig, root, reader, readerRoot, readConf, clockConf) ==>
        Reported(suspects, sig, root, reader, readerRoot, Min(Min(before, readConf), clockConf))
    ensures CrossingsReported(d, suspects)
  {
    forall sig, root, driver, hops, evidence, reader, readerRoot, readConf, clockConf, conf |
      && InSweepOrder(d, hops, |d.drivers|) && Carries(d, sig, root, driver, hops, evidence)
      && Crossing(d, sig, root, reader, readerRoot, readConf, clockConf)
      && NoStronger(conf, evidence + [readConf, clockConf])
      ensures Reported(suspects, sig, root, reader, readerRoot, conf)
    {
      var before := EvidencePath(d, sig, root, driver, hops, evidence);
      var least := Min(Min(before, readConf), clockConf);
      WeakestMore(before, evidence, readConf, clockConf);
      WeakestBounds(least, conf, evidence + [readConf, clockConf]);
      var s :| s in suspects && ReportsCrossing(s, sig, root, reader, readerRoot, least);
      assert ReportsCrossing(s, sig, root, reader, readerRoot, conf);
    }
  }

  predicate ReportsCrossing(s: Suspect, sig: string, root: string, reader: string, readerRoot: string, conf: real) {
    s.sig == sig && s.driverRoot == root && s.reader == reader && s.readerRoot == readerRoot && s.conf >= conf
  }

  /** A read, by a process of another domain, of a net that `root` reaches. */
  predicate Crosses(d: Netlist, domains: map<string, Domain>, m: Reached, clockNets: set<string>,
                    l: Link, root: string)
  {
    && l.src in domains && l.src in d.processes && l.net !in clockNets
    && Reach(l.net, root) in m && root != domains[l.src].root
  }

  /** Some suspect reports the crossing with at least the given confidence. */
  ghost predicate Reported(suspects: seq<Suspect>, sig: string, root: string, reader: string, readerRoot: string,
                           conf: real)
  {
    exists s :: s in suspects && ReportsCrossing(s, sig, root, reader, readerRoot, conf)
  }

  ghost predicate ReadReported(d: Netlist, domains: map<string, Domain>, m: Reached, clockNets: set<string>, i: nat,
                               root: string, suspects: seq<Suspect>)
    requires i < |d.readers|
  {
    var l := d.readers[i];
    Crosses(d, domains, m, clockNets, l, root) ==>
      var conf := Min(Min(m[Reach(l.net, root)].conf, l.conf), domains[l.src].conf);
      Reported(suspects, l.net, root, l.src, domains[l.src].root, conf)
  }

  lemma ReportedMore(suspects: seq<Suspect>, more: seq<Suspect>, sig: string, root: string, reader: string,
                     readerRoot: string, conf: real)
    requires Reported(suspects, sig, root, reader, readerRoot, conf)
    ensures Reported(suspects + more, sig, root, reader, readerRoot, conf)
  {
    var s :| s in suspects && ReportsCrossing(s, sig, root, reader, readerRoot, conf);
    assert s in suspects + more;
  }

  lemma SuspectExplained(d: Netlist, domains: map<string, Domain>, clockNets: set<string>, safe: SafeCrossings,
                         m: Reached, l: Link, root: string)
    requires IsDomains(d, domains) && Witnessed(d, |d.drivers|, m)
    requires forall net :: net in clockNets <==> IsClockNet(d, net)
    requires l in d.readers && l.src in domains && l.src in d.processes && l.net !in clockNets
    requires Reach(l.net, root) in m && root != domains[l.src].root
    ensures Explained(d, safe, SuspectOf(domains[l.src], safe, m[Reach(l.net, root)], l, root))
  {
    var dom, r := domains[l.src], Reach(l.net, root);
    assert Backed(d, |d.drivers|, r, m[r]);
    var hops :| Path(d, r.sig, r.root, m[r].driver, m[r].conf, hops) && InSweepOrder(d, hops, |d.drivers|);
    assert Has(d.readers, l.src, l.net, l.conf) && InDomain(d, l.src, dom.root, dom.conf);
    assert Crossing(d, l.net, root, l.src, dom.root, l.conf, dom.conf);
  }

  function SuspectOf(dom: Domain, safe: SafeCrossings, e: Evidence, l: Link, root: string): Suspect {
    Suspect(l.net, e.driver, root, l.src, dom.root, Min(Min(e.conf, l.conf), dom.conf),
            DeclaredSafe(safe, root, dom.root, l.net))
  }

  method ReadSuspects(d: Netlist, domains: map<string, Domain>, clockNets: set<string>, safe: SafeCrossings, m: Reached,
                      n: nat)
    returns (found: seq<Suspect>)
    requires IsDomains(d, domains) && Witnessed(d, |d.drivers|, m)
    requires forall net :: net in clockNets <==> IsClockNet(d, net)
    requires n < |d.readers|
    ensures forall s :: s in found ==> Explained(d, safe, s)
    ensures forall root :: ReadReported(d, domains, m, clockNets, n, root, found)
  {
    var l := d.readers[n];
    found := [];
    if l.src !in domains || l.src !in d.processes || l.net in clockNets {
      return;
    }
    var dom := domains[l.src];
    var rest := RootsOf(m, l.net) - {dom.root};
    while rest != {}
      invariant rest <= RootsOf(m, l.net) - {dom.root}
      invariant forall s :: s in found ==> Explained(d, safe, s)
      invariant forall root :: root !in rest ==> ReadReported(d, domains, m, clockNets, n, root, found)
      decreases rest
    {
      var root :| root in rest;
      var r := Reach(l.net, root);
      assert r in m;
      SuspectExplained(d, domains, clockNets, safe, m, l, root);
      var s := SuspectOf(dom, safe, m[r], l, root);
      forall other | other !in rest - {root} ensures ReadReported(d, domains, m, clockNets, n, other, found + [s]) {
        if other == root {
          assert s in found + [s];
        } else {
          assert ReadReported(d, domains, m, clockNets, n, other, found);
          if Reach(l.net, other) in m && other != dom.root {
            var conf := Min(Min(m[Reach(l.net, other)].conf, l.conf), dom.conf);
            ReportedMore(found, [s], l.net, other, l.src, dom.root, conf);
          }
        }
      }
      found := found + [s];
      rest := rest - {root};
    }
  }

  lemma ReadReportedMore(d: Netlist, domains: map<string, Domain>, m: Reached, clockNets: set<string>, i: nat,
                         root: string,
                         suspects: seq<Suspect>, found: seq<Suspect>, n: nat)
    requires i <= n < |d.readers|
    requires i < n ==> ReadReported(d, domains, m, clockNets, i, root, suspects)
    requires i == n ==> ReadReported(d, domains, m, clockNets, i, root, found)
    ensures ReadReported(d, domains, m, clockNets, i, root, suspects + found)
  {
    var l := d.readers[i];
    if Crosses(d, domains, m, clockNets, l, root) {
      var conf := Min(Min(m[Reach(l.net, root)].conf, l.conf), domains[l.src].conf);
      if i < n {
        ReportedMore(suspects, found, l.net, root, l.src, domains[l.src].root, conf);
      } else {
        var s :| s in found && ReportsCrossing(s, l.net, root, l.src, domains[l.src].root, conf);
        assert s in suspects + found;
      }
    }
  }

  lemma AllReported(d: Netlist, domains: map<string, Domain>, m: Reached, clockNets: set<string>,
                    suspects: seq<Suspect>)
    requires IsDomains(d, domains) && Complete(d, |d.drivers|, m)
    requires forall net :: net in clockNets <==> IsClockNet(d, net)
    requires forall i: nat, root :: i < |d.readers| ==> ReadReported(d, domains, m, clockNets, i, root, suspects)
    ensures forall sig, root, driver, before, hops, reader, readerRoot, readConf, clockConf ::
      && InSweepOrder(d, hops, |d.drivers|) && Path(d, sig, root, driver, before, hops)
      && Crossing(d, sig, root, reader, readerRoot, readConf, clockConf) ==>
        Reported(suspects, sig, root, reader, readerRoot, Min(Min(before, readConf), clockConf))
  {
    forall sig, root, driver, before, hops, reader, readerRoot, readConf, clockConf |
      && InSweepOrder(d, hops, |d.drivers|) && Path(d, sig, root, driver, before, hops)
      && Crossing(d, sig, root, reader, readerRoot, readConf, clockConf)
      ensures Reported(suspects, sig, root, reader, readerRoot, Min(Min(before, readConf), clockConf))
    {
      assert AtLeast(m, Reach(sig, root), before);
      var i: nat :| i < |d.readers| && d.readers[i] == Link(reader, sig, readConf);
      assert ReadReported(d, domains, m, clockNets, i, root, suspects);
    }
  }

  /** `cdc_suspects`: sound, and complete for the paths in the order of the sweep. */
  method CdcSuspects(d: Netlist, safe: SafeCrossings) returns (suspects: seq<Suspect>)
    ensures forall s :: s in suspects ==> Grounded(d, safe, s)
    ensures CrossingsReported(d, suspects)
  {
    var domains, clockNets := ProcessDomains(d);
    var base := DirectDrives(d, domains);
    var m := Sweep(d, domains, base);
    suspects := [];
    for n := 0 to |d.readers|
      invariant forall s :: s in suspects ==> Explained(d, safe, s)
      invariant forall i: nat, root :: i < n ==> ReadReported(d, domains, m, clockNets, i, root, suspects)
    {
      var found := ReadSuspects(d, domains, clockNets, safe, m, n);
      forall i: nat, root | i < n + 1 ensures ReadReported(d, domains, m, clockNets, i, root, suspects + found) {
        ReadReportedMore(d, domains, m, clockNets, i, root, suspects, found, n);
      }
      suspects := suspects + found;
    }
    AllReported(d, domains, m, clockNets, suspects);
    PathsReported(d, suspects);
    forall s | s in suspects ensures Grounded(d, safe, s) {
      ExplainedIsGrounded(d, safe, s);
    }
  }

  // -- processes clocked by several nets -------------------------------------------------------------

  /** Exactly the processes with no clock edge, or with clock edges to different nets, have
      no domain; the sweep bridges them. */
  lemma UndomainedIff(d: Netlist, p: string)
    ensures Undomained(d, p) <==>
      (forall i: nat :: !IsClock(d, p, i))
      || (exists i: nat, j: nat :: IsClock(d, p, i) && IsClock(d, p, j) && d.clocks[i].net != d.clocks[j].net)
  {
    if i: nat :| IsClock(d, p, i) {
      var first := EarliestClock(d, p, i);
      if forall j: nat :: IsClock(d, p, j) ==> d.clocks[j].net == d.clocks[first].net {
        assert InDomain(d, p, d.clocks[first].net, d.clocks[first].conf);
      } else {
        var j: nat :| IsClock(d, p, j) && d.clocks[j].net != d.clocks[first].net;
        assert IsClock(d, p, first);
      }
    }
  }

  lemma {:induction false} EarliestClock(d: Netlist, p: string, i: nat) returns (first: nat)
    requires IsClock(d, p, i)
    ensures FirstClock(d, p, first)
    decreases i
  {
    if j: nat :| j < i && IsClock(d, p, j) {
      first := EarliestClock(d, p, j);
    } else {
      first := i;
    }
  }

  /** `a` on clock c1 drives s; `m`, on both clocks, reads s and drives t; `b` on c2 reads t. */
  function TwoClockNetlist(): Netlist {
    Netlist({"a", "m", "b"},
            [Link("a", "c1", 1.0), Link("m", "c1", 1.0), Link("m", "c2", 1.0), Link("b", "c2", 1.0)],
            [Link("m", "s", 1.0), Link("b", "t", 1.0)],
            [Link("a", "s", 0.6), Link("m", "t", 0.8)])
  }

  lemma ClocksOfTwo()
    ensures var d := TwoClockNetlist();
      InDomain(d, "a", "c1", 1.0) && InDomain(d, "b", "c2", 1.0) && Undomained(d, "m") && !IsClockNet(d, "t")
  {
    var d := TwoClockNetlist();
    assert IsClock(d, "m", 1) && IsClock(d, "m", 2) && d.clocks[1].net != d.clocks[2].net;
    UndomainedIff(d, "m");
    assert FirstClock(d, "a", 0) && FirstClock(d, "b", 3);
    assert forall i: nat :: i < |d.clocks| ==> d.clocks[i].net == "c1" || d.clocks[i].net == "c2";
  }

  lemma LinksOfTwo()
    ensures var d := TwoClockNetlist();
      && Has(d.drivers, "a", "s", 0.6) && Has(d.drivers, "m", "t", 0.8)
      && Has(d.readers, "m", "s", 1.0) && Has(d.readers, "b", "t", 1.0)
      && "a" in d.processes && "m" in d.processes && "b" in d.processes
  {
    var d := TwoClockNetlist();
    assert d.drivers[0] == Link("a", "s", 0.6) && d.drivers[1] == Link("m", "t", 0.8);
    assert d.readers[0] == Link("m", "s", 1.0) && d.readers[1] == Link("b", "t", 1.0);
  }

  /** A multi-clock process is not skipped: it bridges, and there is a crossing behind it. */
  lemma MultiClockProcessBridges()
    ensures var d := TwoClockNetlist();
      && Undomained(d, "m")
      && Carries(d, "t", "c1", "a", [Hop("m", "s", 1.0, 0.8)], [1.0, 0.6, 1.0, 0.8])
      && Crossing(d, "t", "c1", "b", "c2", 1.0, 1.0)
  {
    var d := TwoClockNetlist();
    ClocksOfTwo();
    LinksOfTwo();
    var evidence := [1.0, 0.6, 1.0, 0.8];
    assert evidence[..2] == [1.0, 0.6] && evidence[2..] == [1.0, 0.8];
    assert Carries(d, "s", "c1", "a", [], [1.0, 0.6]);
    assert [Hop("m", "s", 1.0, 0.8)][..0] == [];
  }

  /** Hence the analysis reports the crossing behind it, as surely as its weakest edge. */
  method MultiClockCrossing(safe: SafeCrossings) returns (suspects: seq<Suspect>)
    ensures Reported(suspects, "t", "c1", "b", "c2", 0.6)
  {
    suspects := CdcSuspects(TwoClockNetlist(), safe);
    MultiClockProcessBridges();
    assert Turn(TwoClockNetlist(), "m", 0) == 1 by { TurnIs(TwoClockNetlist(), "m", 0, 1); }
    var evidence := [1.0, 0.6, 1.0, 0.8];
    assert NoStronger(0.6, evidence + [1.0, 1.0]);
  }
}
