/** What the verdicts of the pivot check say about the packet filters of the nodes whose
    lines were captured (webapp/artifact_checks.py). */
module PivotFilter {
  import opened FirstMatch
  import opened Iptables
  import opened Optional
  import opened PivotAccess
  import opened Text

  /** What the nodes run: the rules of each, and whether the policy of a chain of a node
      is to drop. */
  datatype Live = Live(rules: map<string, seq<Rule>>, policyDrops: (string, string) -> bool)

  /** The evidence holds the lines of these rules. */
  ghost predicate CapturedFrom(ev: Evidence, live: Live) {
    && live.rules.Keys == ev.nodeRules.Keys
    && forall n :: n in live.rules ==> RulesOk(live.rules[n]) && ev.nodeRules[n] == PrintAll(live.rules[n])
  }

  function Attempt(p: Provider, src: string): Packet
    requires p.Provider?
  {
    Packet(src, p.address, PortNumber(p.port))
  }

  /** The rule that opens the path was installed on a node whose lines were captured. */
  predicate OnCaptured(a: Option<Allow>, live: Live) {
    a.Some? && a.value.node in live.rules
  }

  /** The filter of that node drops the packet. */
  predicate FilterDrops(ev: Evidence, live: Live, m: Meaning, p: Provider, src: string)
    requires p.Provider?
  {
    var a := Opening(ev, ev.rules, src, p.address, p.port);
    && OnCaptured(a, live)
    && WithPolicy(Evaluate(ev.netCovers, m, live.rules[a.value.node], a.value.chain, Attempt(p, src)),
                  live.policyDrops(a.value.node, a.value.chain)) == Dropped
  }

  /** Its rules and its policy are settled as the scan says. */
  predicate Trusted(ev: Evidence, live: Live, bg: Background, p: Provider, src: string)
    requires p.Provider?
  {
    var a := Opening(ev, ev.rules, src, p.address, p.port);
    OnCaptured(a, live) ==>
      var Allow(_, node, chain) := a.value;
      var rules, k := live.rules[node], Attempt(p, src);
      SettledAs(ReadAll(ev.netCovers, bg, rules, chain, k) + [PolicyReading(live.policyDrops(node, chain))],
                ScanDrops(ev.netCovers, rules, Upper(chain), k))
  }

  /** A source counts as shadowed exactly when the filter drops its packet, whatever the
      unread options and targets mean, if and only if the chain can be trusted. */
  lemma ShadowOfIff(ev: Evidence, live: Live, bg: Background, p: Provider, src: string)
    requires p.Provider? && CapturedFrom(ev, live)
    ensures (forall m: Meaning :: Respects(m, bg) ==>
               (ShadowOf(ev, src, p.address, p.port).Some? <==> FilterDrops(ev, live, m, p, src)))
            <==> Trusted(ev, live, bg, p, src)
  {
    var a := Opening(ev, ev.rules, src, p.address, p.port);
    if OnCaptured(a, live) {
      var Allow(_, node, chain) := a.value;
      PolicyTrustedIff(ev.netCovers, bg, live.rules[node], live.policyDrops(node, chain), chain, Upper(chain), Attempt(p, src));
    }
  }

  /** Reachable as far as the filters, the allow rules and the probe go. */
  ghost predicate LetThrough(ev: Evidence, live: Live, m: Meaning, p: Provider)
    requires p.Provider?
  {
    && p.address != "" && p.port.Number?
    && (forall s :: s in Probes(ev, p) ==> Opened(ev, s, p.address, p.port) && !FilterDrops(ev, live, m, p, s))
    && ev.probeOk && LastRow(ev.checks, p.address, p.port.n).Some?
    && Answered(ev, p, LastRow(ev.checks, p.address, p.port.n).value)
  }

  ghost predicate AllTrusted(ev: Evidence, live: Live, bg: Background, p: Provider)
    requires p.Provider?
  {
    forall s :: s in Probes(ev, p) ==> Trusted(ev, live, bg, p, s)
  }

  lemma ReachableIffLetThrough(ev: Evidence, live: Live, bg: Background, m: Meaning, p: Provider)
    requires p.Provider? && CapturedFrom(ev, live) && AllTrusted(ev, live, bg, p) && Respects(m, bg)
    ensures Reachable(ev, p) <==> LetThrough(ev, live, m, p)
  {
    forall s | s in Probes(ev, p)
      ensures ShadowOf(ev, s, p.address, p.port).Some? <==> FilterDrops(ev, live, m, p, s)
    {
      ShadowOfIff(ev, live, bg, p, s);
    }
  }

  /** Where the chains can be trusted, the check passes exactly when every well-formed
      provider is let in by an allow rule from every probe source, no captured filter
      drops its packet from any of them, and it answered. */
  lemma PassMeansLetThrough(ev: Evidence, live: Live, bg: Background, m: Meaning, providers: seq<Provider>)
    requires providers != [] && CapturedFrom(ev, live) && Respects(m, bg)
    requires forall p :: p in providers && p.Provider? ==> AllTrusted(ev, live, bg, p)
    ensures Expected(true, ev, providers).status == Pass <==>
            forall p :: p in providers && p.Provider? ==> LetThrough(ev, live, m, p)
  {
    PassIff(ev, providers);
    forall p | p in providers && p.Provider? ensures Reachable(ev, p) <==> LetThrough(ev, live, m, p) {
      ReachableIffLetThrough(ev, live, bg, m, p);
    }
  }

  /** A provider that the check reports as shadowed is one whose packet a filter does
      drop, from some probe source. */
  lemma ShadowedMeansDropped(ev: Evidence, live: Live, bg: Background, m: Meaning, p: Provider)
    requires p.Provider? && CapturedFrom(ev, live) && AllTrusted(ev, live, bg, p) && Respects(m, bg)
    requires p.address != "" && !p.port.NoPort? && AllOpened(ev, p, Probes(ev, p))
    ensures Classify(ev, p) == Some(Shadowed) <==> exists s :: s in Probes(ev, p) && FilterDrops(ev, live, m, p, s)
  {
    ProbesExist(ev, p);
    forall s | s in Probes(ev, p)
      ensures ShadowOf(ev, s, p.address, p.port).Some? <==> FilterDrops(ev, live, m, p, s)
    {
      ShadowOfIff(ev, live, bg, p, s);
    }
  }
}
