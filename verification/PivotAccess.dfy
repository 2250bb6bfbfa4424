/** Can the participant reach each pivot provider? The check that combines allow rules,
    captured firewall lines and live probe rows (webapp/artifact_checks.py). */
module PivotAccess {
  import opened Iptables
  import opened Optional
  import opened Text

  /** `entry.port`: absent or empty, a positive number, or other text. */
  datatype Port = NoPort | Number(n: int) | Name(text: string)

  /** `int(port)` where it is plain digits. */
  function PortNumber(port: Port): Option<int> {
    if port.Number? then Some(port.n) else None
  }

  /** An address as the network library prints it. */
  type Address = a: string | a != "" witness "203.0.113.1"

  datatype Provider = Junk | Provider(subnet: string, address: string, port: Port)

  /** A row of the live probe: the reply, and the source the probe substituted for
      the one it was asked to use (empty if it used that one). */
  datatype Row = Junk | Row(dst: string, port: Option<int>, reachable: bool, error: string, srcUsed: string)

  /** Everything the check reads besides the providers. `allowCovers` is the test
      of one allow rule, `ruleStandIn` a source read out of the rules ("" if none),
      `isNetwork` whether a text is a network, `netCovers` address containment. */
  datatype Evidence = Evidence(
    rules: seq<Allow>,
    allowCovers: (Allow, string, string, Port) -> bool,
    netCovers: (string, string) -> bool,
    sources: seq<Address>,
    ruleStandIn: (string, Port, string) -> string,
    isNetwork: string -> bool,
    nodeRules: map<string, seq<string>>,
    probeOk: bool,
    checks: seq<Row>)

  const DOCUMENTATION := ["203.0.113.1", "198.51.100.1", "192.0.2.1"]

  /** `_outside_address`: the first documentation address outside the subnet if one is. */
  function OutsideAddress(isNetwork: bool, contains: string -> bool): (a: string)
    ensures a in DOCUMENTATION
    ensures if isNetwork && exists i :: 0 <= i < 3 && !contains(DOCUMENTATION[i])
            then exists i :: 0 <= i < 3 && a == DOCUMENTATION[i] && !contains(a)
                             && forall h :: 0 <= h < i ==> contains(DOCUMENTATION[h])
            else a == DOCUMENTATION[0]
  {
    if !isNetwork || !contains("203.0.113.1") then "203.0.113.1"
    else if !contains("198.51.100.1") then "198.51.100.1"
    else if !contains("192.0.2.1") then "192.0.2.1"
    else "203.0.113.1"
  }

  function Outside(ev: Evidence, subnet: string): (a: Address)
    ensures ev.isNetwork(subnet) && (exists x :: x in DOCUMENTATION && !ev.netCovers(x, subnet)) ==> !ev.netCovers(a, subnet)
  {
    OutsideAddress(ev.isNetwork(subnet), x => ev.netCovers(x, subnet))
  }

  // ----- the pieces of the verdict -----

  /** The first allow rule that opens a path, if any. */
  function Opening(ev: Evidence, rules: seq<Allow>, src: string, dst: string, port: Port): Option<Allow> {
    if rules == [] then None
    else if ev.allowCovers(rules[0], src, dst, port) then Some(rules[0])
    else Opening(ev, rules[1..], src, dst, port)
  }

  predicate Opened(ev: Evidence, src: string, dst: string, port: Port) {
    Opening(ev, ev.rules, src, dst, port).Some?
  }

  /** The captured line that drops the path before its allow rule, if any. */
  function ShadowOf(ev: Evidence, src: string, dst: string, port: Port): Option<string> {
    Shadow(ev.netCovers, Opening(ev, ev.rules, src, dst, port), Packet(src, dst, PortNumber(port)), ev.nodeRules)
  }

  /** The sources the question is asked from: the participant's, or a stand-in. */
  function Asked(ev: Evidence, p: Provider): seq<string>
    requires p.Provider?
  {
    if ev.sources != [] then ev.sources
    else
      var s := ev.ruleStandIn(p.address, p.port, p.subnet);
      [if s != "" then s else Outside(ev, p.subnet)]
  }

  function NonEmpty(srcs: seq<string>): (r: seq<string>)
    ensures forall s :: s in r <==> s in srcs && s != ""
  {
    if srcs == [] then []
    else (if srcs[0] == "" then [] else [srcs[0]]) + NonEmpty(srcs[1..])
  }

  function Probes(ev: Evidence, p: Provider): seq<string>
    requires p.Provider?
  {
    NonEmpty(Asked(ev, p))
  }

  predicate Names(row: Row, dst: string, port: int) {
    row.Row? && row.dst == dst && row.port == Some(port)
  }

  /** The last probe row for an address and port. */
  function LastRow(checks: seq<Row>, dst: string, port: int): (r: Option<Row>)
    ensures r.Some? ==> r.value in checks && Names(r.value, dst, port)
  {
    if checks == [] then None
    else if Names(checks[|checks| - 1], dst, port) then Some(checks[|checks| - 1])
    else LastRow(checks[..|checks| - 1], dst, port)
  }

  function LiveRow(ev: Evidence, p: Provider): (r: Option<Row>)
    requires p.Provider?
    ensures r.Some? ==> ev.probeOk && p.port.Number? && r.value in ev.checks && Names(r.value, p.address, p.port.n)
  {
    if ev.probeOk && p.port.Number? then LastRow(ev.checks, p.address, p.port.n) else None
  }

  predicate CouldNotRun(error: string) {
    "no node holds" <= error || "cannot " <= error
  }

  // ----- the verdict on one provider -----

  datatype Class = Unplaced | NoRule | Shadowed | Verified | StandInUnproven | Silent | Unproven

  datatype Status = Pass | Warn | Fail

  function StatusOf(c: Class): Status {
    match c
    case Verified => Pass
    case StandInUnproven => Warn
    case Unproven => Warn
    case _ => Fail
  }

  /** Every source asked from is let in by a rule. */
  predicate AllOpened(ev: Evidence, p: Provider, srcs: seq<string>)
    requires p.Provider?
  {
    forall s :: s in srcs ==> Opened(ev, s, p.address, p.port)
  }

  predicate NoneShadowed(ev: Evidence, p: Provider, srcs: seq<string>)
    requires p.Provider?
  {
    forall s :: s in srcs ==> ShadowOf(ev, s, p.address, p.port).None?
  }

  /** A recorded reply that speaks for the rule under test. */
  predicate Answered(ev: Evidence, p: Provider, row: Row)
    requires p.Provider?
  {
    && p.port.Number? && Names(row, p.address, p.port.n) && row.reachable
    && (row.srcUsed == "" || Opened(ev, row.srcUsed, p.address, p.port))
  }

  function Classify(ev: Evidence, p: Provider): Option<Class> {
    if p.Junk? then None
    else if p.address == "" || p.port.NoPort? then Some(Unplaced)
    else if Probes(ev, p) == [] then None
    else if !AllOpened(ev, p, Probes(ev, p)) then Some(NoRule)
    else if !NoneShadowed(ev, p, Probes(ev, p)) then Some(Shadowed)
    else
      match LiveRow(ev, p)
      case None => Some(Unproven)
      case Some(row) =>
        if Answered(ev, p, row) then Some(Verified)
        else if row.srcUsed != "" then Some(StandInUnproven)
        else if !CouldNotRun(row.error) then Some(Silent)
        else Some(Unproven)
  }

  /** The items of the report: one per classified provider, in order. */
  function Classes(ev: Evidence, ps: seq<Provider>): seq<Class> {
    if ps == [] then []
    else
      Classes(ev, ps[..|ps| - 1]) +
      match Classify(ev, ps[|ps| - 1]) case None => [] case Some(c) => [c]
  }

  datatype Report = ProbeFailed | NothingToCheck | Checked(status: Status, items: seq<Class>)

  /** `_live_path_verdicts`: later rows replace earlier ones. */
  method LivePathVerdicts(ev: Evidence) returns (out: map<(string, int), Row>)
    ensures forall dst, port :: (dst, port) in out <==> ev.probeOk && LastRow(ev.checks, dst, port).Some?
    ensures forall dst, port :: (dst, port) in out ==> LastRow(ev.checks, dst, port) == Some(out[(dst, port)])
  {
    out := map[];
    if !ev.probeOk {
      return;
    }
    for i := 0 to |ev.checks|
      invariant forall dst, port :: (dst, port) in out <==> LastRow(ev.checks[..i], dst, port).Some?
      invariant forall dst, port :: (dst, port) in out ==> LastRow(ev.checks[..i], dst, port) == Some(out[(dst, port)])
    {
      assert ev.checks[..i + 1][..i] == ev.checks[..i];
      var row := ev.checks[i];
      if row.Junk? || row.port.None? {
        continue;
      }
      out := out[(row.dst, row.port.value) := row];
    }
    assert ev.checks[..|ev.checks|] == ev.checks;
  }

  method OpeningRule(ev: Evidence, src: string, dst: string, port: Port) returns (r: Option<Allow>)
    ensures r == Opening(ev, ev.rules, src, dst, port)
  {
    for i := 0 to |ev.rules|
      invariant Opening(ev, ev.rules, src, dst, port) == Opening(ev, ev.rules[i..], src, dst, port)
    {
      assert ev.rules[i..][1..] == ev.rules[i + 1..];
      if ev.allowCovers(ev.rules[i], src, dst, port) {
        return Some(ev.rules[i]);
      }
    }
    return None;
  }

  lemma AllOpenedGrows(ev: Evidence, p: Provider, srcs: seq<string>, s: string)
    requires p.Provider?
    ensures AllOpened(ev, p, srcs + [s]) <==> AllOpened(ev, p, srcs) && Opened(ev, s, p.address, p.port)
  {
    assert s in srcs + [s] && forall x :: x in srcs ==> x in srcs + [s];
  }

  method AnyMissing(ev: Evidence, p: Provider, probes: seq<string>) returns (missing: seq<string>)
    requires p.Provider?
    ensures missing == [] <==> AllOpened(ev, p, probes)
    ensures forall s :: s in missing <==> s in probes && !Opened(ev, s, p.address, p.port)
  {
    missing := [];
    for i := 0 to |probes|
      invariant missing == [] <==> AllOpened(ev, p, probes[..i])
      invariant forall s :: s in missing <==> s in probes[..i] && !Opened(ev, s, p.address, p.port)
    {
      assert probes[..i + 1] == probes[..i] + [probes[i]];
      var rule := OpeningRule(ev, probes[i], p.address, p.port);
      AllOpenedGrows(ev, p, probes[..i], probes[i]);
      if rule.None? {
        missing := missing + [probes[i]];
      }
    }
    assert probes[..|probes|] == probes;
  }

  method AnyShadow(ev: Evidence, p: Provider, probes: seq<string>) returns (blockedBy: Option<string>)
    requires p.Provider?
    ensures blockedBy.None? <==> NoneShadowed(ev, p, probes)
    ensures blockedBy.Some? ==> exists i :: 0 <= i < |probes| && blockedBy == ShadowOf(ev, probes[i], p.address, p.port)
                                            && NoneShadowed(ev, p, probes[..i])
  {
    for i := 0 to |probes|
      invariant NoneShadowed(ev, p, probes[..i])
    {
      assert probes[..i + 1] == probes[..i] + [probes[i]];
      var rule := OpeningRule(ev, probes[i], p.address, p.port);
      blockedBy := ShadowingRule(ev.netCovers, rule, Packet(probes[i], p.address, PortNumber(p.port)), ev.nodeRules);
      if blockedBy.Some? {
        assert probes[i] in probes;
        return;
      }
    }
    assert probes[..|probes|] == probes;
    blockedBy := None;
  }

  /** The loop over the providers with its four counters. */
  method PivotAccessResult(ok: bool, ev: Evidence, providers: seq<Provider>)
    returns (r: Report, unplaced: nat, unreachable: nat, shadowed: nat, unverified: nat)
    ensures r == Expected(ok, ev, providers)
    ensures (r == ProbeFailed <==> !ok) && (r == NothingToCheck <==> ok && providers == [])
    ensures r.Checked? ==>
              && unplaced == Count(r.items, {Unplaced}) && unreachable == Count(r.items, {NoRule, Silent})
              && shadowed == Count(r.items, {Shadowed}) && unverified == Count(r.items, {StandInUnproven, Unproven})
    ensures !r.Checked? ==> unplaced == unreachable == shadowed == unverified == 0
    ensures r.Checked? && ev.sources != [] && r.status == Pass ==>
              forall p :: p in providers && p.Provider? ==> forall s :: s in ev.sources ==> LetIn(ev, p, s)
  {
    unplaced, unreachable, shadowed, unverified := 0, 0, 0, 0;
    if !ok {
      return ProbeFailed, 0, 0, 0, 0;
    }
    if providers == [] {
      return NothingToCheck, 0, 0, 0, 0;
    }
    var items: seq<Class> := [];
    var verdicts := LivePathVerdicts(ev);
    for i := 0 to |providers|
      invariant items == Classes(ev, providers[..i])
      invariant unplaced == Count(items, {Unplaced}) && unreachable == Count(items, {NoRule, Silent})
      invariant shadowed == Count(items, {Shadowed}) && unverified == Count(items, {StandInUnproven, Unproven})
    {
      assert providers[..i + 1][..i] == providers[..i];
      var c := ClassifyProvider(ev, providers[i], verdicts);
      if c.Some? {
        items := items + [c.value];
        match c.value
        case Unplaced => unplaced := unplaced + 1;
        case NoRule => unreachable := unreachable + 1;
        case Silent => unreachable := unreachable + 1;
        case Shadowed => shadowed := shadowed + 1;
        case StandInUnproven => unverified := unverified + 1;
        case Unproven => unverified := unverified + 1;
        case Verified =>
      }
    }
    assert providers[..|providers|] == providers;
    CountsDecide(items);
    var status := if unplaced > 0 || unreachable > 0 || shadowed > 0 then Fail
                  else if unverified > 0 then Warn else Pass;
    r := Checked(status, items);
    if ev.sources != [] {
      PassFromEverySource(ev, providers);
    }
  }

  /** One round of that loop, with its early continues. */
  method ClassifyProvider(ev: Evidence, p: Provider, verdicts: map<(string, int), Row>) returns (c: Option<Class>)
    requires forall dst, port :: (dst, port) in verdicts <==> ev.probeOk && LastRow(ev.checks, dst, port).Some?
    requires forall dst, port :: (dst, port) in verdicts ==> LastRow(ev.checks, dst, port) == Some(verdicts[(dst, port)])
    ensures c == Classify(ev, p)
  {
    if p.Junk? {
      return None;
    }
    if p.address == "" || p.port.NoPort? {
      return Some(Unplaced);
    }
    var probes := ev.sources;
    if probes == [] {
      var s := ev.ruleStandIn(p.address, p.port, p.subnet);
      probes := [if s != "" then s else Outside(ev, p.subnet)];
    }
    probes := NonEmpty(probes);
    if probes == [] {
      return None;
    }
    var missing := AnyMissing(ev, p, probes);
    if missing != [] {
      return Some(NoRule);
    }
    var blockedBy := AnyShadow(ev, p, probes);
    if blockedBy.Some? {
      return Some(Shadowed);
    }
    var live := None;
    if p.port.Number? && (p.address, p.port.n) in verdicts {
      live := Some(verdicts[(p.address, p.port.n)]);
    }
    assert live == LiveRow(ev, p);
    if live.None? {
      return Some(Unproven);
    }
    var row := live.value;
    var covered := false;
    if row.srcUsed != "" {
      var rule := OpeningRule(ev, row.srcUsed, p.address, p.port);
      covered := rule.Some?;
    }
    if row.reachable && (row.srcUsed == "" || covered) {
      return Some(Verified);
    }
    if row.srcUsed != "" {
      return Some(StandInUnproven);
    }
    if !CouldNotRun(row.error) {
      return Some(Silent);
    }
    return Some(Unproven);
  }

  function Count(items: seq<Class>, classes: set<Class>): nat {
    if items == [] then 0
    else Count(items[..|items| - 1], classes) + if items[|items| - 1] in classes then 1 else 0
  }

  lemma {:induction false} CountPositive(items: seq<Class>, classes: set<Class>)
    ensures Count(items, classes) > 0 <==> exists i :: 0 <= i < |items| && items[i] in classes
  {
    if items != [] {
      var init := items[..|items| - 1];
      CountPositive(init, classes);
      if Count(init, classes) > 0 {
        var i :| 0 <= i < |init| && init[i] in classes;
        assert items[i] in classes;
      }
    }
  }

  function Worst(items: seq<Class>): Status {
    if exists i :: 0 <= i < |items| && StatusOf(items[i]) == Fail then Fail
    else if exists i :: 0 <= i < |items| && StatusOf(items[i]) == Warn then Warn
    else Pass
  }

  lemma CountsDecide(items: seq<Class>)
    ensures Worst(items) ==
            if Count(items, {Unplaced}) > 0 || Count(items, {NoRule, Silent}) > 0 || Count(items, {Shadowed}) > 0 then Fail
            else if Count(items, {StandInUnproven, Unproven}) > 0 then Warn else Pass
  {
    CountPositive(items, {Unplaced});
    CountPositive(items, {NoRule, Silent});
    CountPositive(items, {Shadowed});
    CountPositive(items, {StandInUnproven, Unproven});
  }

  function Expected(ok: bool, ev: Evidence, providers: seq<Provider>): Report {
    if !ok then ProbeFailed
    else if providers == [] then NothingToCheck
    else Checked(Worst(Classes(ev, providers)), Classes(ev, providers))
  }

  // ----- what a pass means -----

  /** Reachable as far as every piece of evidence goes. */
  predicate Reachable(ev: Evidence, p: Provider)
    requires p.Provider?
  {
    && p.address != "" && p.port.Number?
    && (forall s :: s in Probes(ev, p) ==> Opened(ev, s, p.address, p.port) && ShadowOf(ev, s, p.address, p.port).None?)
    && ev.probeOk && LastRow(ev.checks, p.address, p.port.n).Some?
    && Answered(ev, p, LastRow(ev.checks, p.address, p.port.n).value)
  }

  /** Every well-formed provider is asked about from some source. */
  lemma ProbesExist(ev: Evidence, p: Provider)
    requires p.Provider?
    ensures Probes(ev, p) != []
  {
    var asked := Asked(ev, p);
    assert asked[0] in asked && asked[0] != "";
    assert asked[0] in Probes(ev, p);
  }

  /** One item per well-formed provider, in exactly one class. */
  lemma {:induction false} OneItemEach(ev: Evidence, ps: seq<Provider>)
    requires forall i :: 0 <= i < |ps| ==> ps[i].Provider?
    ensures |Classes(ev, ps)| == |ps|
    ensures forall i :: 0 <= i < |ps| ==> Classify(ev, ps[i]) == Some(Classes(ev, ps)[i])
  {
    if ps != [] {
      var init := ps[..|ps| - 1];
      OneItemEach(ev, init);
      ProbesExist(ev, ps[|ps| - 1]);
      assert forall i :: 0 <= i < |init| ==> init[i] == ps[i];
    }
  }

  /** Shown to be unreachable by one piece of evidence or another: no place, a source
      no rule lets in, a source whose rule is shadowed, or a probe that was sent from
      the source asked for and got no reply. */
  predicate Broken(ev: Evidence, p: Provider)
    requires p.Provider?
  {
    || p.address == "" || p.port.NoPort?
    || (exists s :: s in Probes(ev, p) && (!Opened(ev, s, p.address, p.port) || ShadowOf(ev, s, p.address, p.port).Some?))
    || (LiveRow(ev, p).Some? && Refused(LiveRow(ev, p).value))
  }

  predicate Refused(row: Row) {
    row.Row? && !row.reachable && row.srcUsed == "" && !CouldNotRun(row.error)
  }

  /** The order in which the loop tests them does not matter: a provider fails
      exactly when it is broken and passes exactly when it is reachable. */
  lemma ClassMeaning(ev: Evidence, p: Provider)
    requires p.Provider?
    ensures Classify(ev, p).Some?
    ensures StatusOf(Classify(ev, p).value) == Fail <==> Broken(ev, p)
    ensures StatusOf(Classify(ev, p).value) == Pass <==> Reachable(ev, p)
  {
    ProbesExist(ev, p);
  }

  lemma {:induction false} ClassesCome(ev: Evidence, ps: seq<Provider>)
    ensures forall c :: c in Classes(ev, ps) <==> exists p :: p in ps && Classify(ev, p) == Some(c)
  {
    if ps != [] {
      ClassesCome(ev, ps[..|ps| - 1]);
      assert ps == ps[..|ps| - 1] + [ps[|ps| - 1]];
    }
  }

  lemma WorstOfClasses(ev: Evidence, ps: seq<Provider>)
    ensures Worst(Classes(ev, ps)) == Fail <==> exists p :: p in ps && p.Provider? && Broken(ev, p)
    ensures Worst(Classes(ev, ps)) == Pass <==> forall p :: p in ps && p.Provider? ==> Reachable(ev, p)
  {
    var items := Classes(ev, ps);
    ClassesCome(ev, ps);
    forall p | p in ps && p.Provider?
      ensures Classify(ev, p).Some?
      ensures StatusOf(Classify(ev, p).value) == Fail <==> Broken(ev, p)
      ensures StatusOf(Classify(ev, p).value) == Pass <==> Reachable(ev, p)
    {
      ClassMeaning(ev, p);
    }
  }

  /** The check passes exactly when every well-formed provider is let in by a rule
      from every probe source, is shadowed from none of them, and answered a live
      probe from a real or rule-covered source. */
  lemma PassIff(ev: Evidence, providers: seq<Provider>)
    requires providers != []
    ensures Expected(true, ev, providers).status == Pass <==>
            forall p :: p in providers && p.Provider? ==> Reachable(ev, p)
  {
    WorstOfClasses(ev, providers);
  }

  /** It fails exactly when some well-formed provider is broken. */
  lemma FailIff(ev: Evidence, providers: seq<Provider>)
    requires providers != []
    ensures Expected(true, ev, providers).status == Fail <==>
            exists p :: p in providers && p.Provider? && Broken(ev, p)
  {
    WorstOfClasses(ev, providers);
  }

  // ----- the verdict in terms of sources, rules and rows -----

  /** The first rule in the list that covers the path. */
  predicate FirstCovering(ev: Evidence, i: nat, src: string, dst: string, port: Port) {
    && i < |ev.rules| && ev.allowCovers(ev.rules[i], src, dst, port)
    && forall h :: 0 <= h < i ==> !ev.allowCovers(ev.rules[h], src, dst, port)
  }

  lemma {:induction false} OpeningIsFirst(ev: Evidence, rules: seq<Allow>, src: string, dst: string, port: Port)
    ensures var o := Opening(ev, rules, src, dst, port);
            if exists i :: 0 <= i < |rules| && ev.allowCovers(rules[i], src, dst, port)
            then exists i :: 0 <= i < |rules| && ev.allowCovers(rules[i], src, dst, port) && o == Some(rules[i])
                   && forall h :: 0 <= h < i ==> !ev.allowCovers(rules[h], src, dst, port)
            else o == None
  {
    if rules != [] && !ev.allowCovers(rules[0], src, dst, port) {
      var rest := rules[1..];
      OpeningIsFirst(ev, rest, src, dst, port);
      assert forall i :: 0 <= i < |rest| ==> rest[i] == rules[i + 1];
      if i :| 0 <= i < |rules| && ev.allowCovers(rules[i], src, dst, port) {
        assert rest[i - 1] == rules[i];
        var j :| 0 <= j < |rest| && ev.allowCovers(rest[j], src, dst, port)
                 && Opening(ev, rest, src, dst, port) == Some(rest[j])
                 && forall h :: 0 <= h < j ==> !ev.allowCovers(rest[h], src, dst, port);
        assert rules[j + 1] == rest[j];
        assert forall h :: 0 < h < j + 1 ==> rules[h] == rest[h - 1];
      }
    }
  }

  /** The last row about an address and port. */
  predicate LastNaming(checks: seq<Row>, k: nat, dst: string, port: int) {
    && k < |checks| && checks[k].Row? && checks[k].dst == dst && checks[k].port == Some(port)
    && forall l :: k < l < |checks| ==> !Names(checks[l], dst, port)
  }

  lemma {:induction false} LastRowIsLast(checks: seq<Row>, dst: string, port: int)
    ensures var r := LastRow(checks, dst, port);
            && (r.Some? ==> exists k: nat :: LastNaming(checks, k, dst, port) && r == Some(checks[k]))
            && (r.None? ==> forall k :: 0 <= k < |checks| ==> !Names(checks[k], dst, port))
  {
    if checks != [] && !Names(checks[|checks| - 1], dst, port) {
      var init := checks[..|checks| - 1];
      LastRowIsLast(init, dst, port);
      if LastRow(init, dst, port).Some? {
        var k: nat :| LastNaming(init, k, dst, port) && LastRow(init, dst, port) == Some(init[k]);
        assert LastNaming(checks, k, dst, port);
      }
    } else if checks != [] {
      assert LastNaming(checks, |checks| - 1, dst, port);
    }
  }

  lemma {:induction false} NonEmptyKeeps(srcs: seq<string>)
    requires "" !in srcs
    ensures NonEmpty(srcs) == srcs
  {
    if srcs != [] {
      NonEmptyKeeps(srcs[1..]);
      assert srcs == [srcs[0]] + srcs[1..];
    }
  }

  /** Every source of the participant is asked from. Without one it is the stand-in that
      the rules name, and failing that a documentation address outside the subnet. */
  lemma SourcesAsked(ev: Evidence, p: Provider)
    requires p.Provider?
    ensures ev.sources != [] ==> Probes(ev, p) == ev.sources
    ensures var standIn := ev.ruleStandIn(p.address, p.port, p.subnet);
            ev.sources == [] ==> Probes(ev, p) == [if standIn != "" then standIn else Outside(ev, p.subnet)]
  {
    NonEmptyKeeps(Asked(ev, p));
  }

  /** Let in from a source: some rule covers the path, and none of the captured lines of
      the first one's node drops it earlier. */
  ghost predicate LetIn(ev: Evidence, p: Provider, src: string)
    requires p.Provider?
  {
    exists i: nat :: FirstCovering(ev, i, src, p.address, p.port) && NotShadowed(ev, p, src, i)
  }

  predicate NotShadowed(ev: Evidence, p: Provider, src: string, i: nat)
    requires p.Provider? && i < |ev.rules|
  {
    var port := if p.port.Number? then Some(p.port.n) else None;
    var Allow(_, node, chain) := ev.rules[i];
    node in ev.nodeRules ==> ShadowFrom(ev.netCovers, ev.nodeRules[node], Upper(chain), Packet(src, p.address, port)).None?
  }

  lemma LetInIff(ev: Evidence, p: Provider, src: string)
    requires p.Provider?
    ensures LetIn(ev, p, src) <==> Opened(ev, src, p.address, p.port) && ShadowOf(ev, src, p.address, p.port).None?
  {
    OpeningIsFirst(ev, ev.rules, src, p.address, p.port);
    if Opened(ev, src, p.address, p.port) {
      var i :| 0 <= i < |ev.rules| && ev.allowCovers(ev.rules[i], src, p.address, p.port)
               && Opening(ev, ev.rules, src, p.address, p.port) == Some(ev.rules[i])
               && forall h :: 0 <= h < i ==> !ev.allowCovers(ev.rules[h], src, p.address, p.port);
      assert FirstCovering(ev, i, src, p.address, p.port);
      assert NotShadowed(ev, p, src, i) <==> ShadowOf(ev, src, p.address, p.port).None? by {
        UncapturedIsClear(ev, Packet(src, p.address, PortNumber(p.port)), Upper(ev.rules[i].chain));
      }
    }
  }

  lemma UncapturedIsClear(ev: Evidence, k: Packet, chain: string)
    ensures ShadowFrom(ev.netCovers, [], chain, k) == None
  {
  }

  /** The last row about the provider says that it answered, from the source asked for or
      from one that a rule lets in. */
  ghost predicate Replied(ev: Evidence, p: Provider)
    requires p.Provider?
  {
    && ev.probeOk && p.port.Number?
    && exists k: nat :: LastNaming(ev.checks, k, p.address, p.port.n) && ev.checks[k].reachable
         && (ev.checks[k].srcUsed == "" || exists a :: a in ev.rules && ev.allowCovers(a, ev.checks[k].srcUsed, p.address, p.port))
  }

  lemma RepliedIff(ev: Evidence, p: Provider)
    requires p.Provider? && p.port.Number?
    ensures Replied(ev, p) <==>
            var r := LastRow(ev.checks, p.address, p.port.n); ev.probeOk && r.Some? && Answered(ev, p, r.value)
  {
    LastRowIsLast(ev.checks, p.address, p.port.n);
    var r := LastRow(ev.checks, p.address, p.port.n);
    if r.Some? {
      var k: nat :| LastNaming(ev.checks, k, p.address, p.port.n) && r == Some(ev.checks[k]);
      forall l: nat | LastNaming(ev.checks, l, p.address, p.port.n) ensures l == k {
      }
      var src := ev.checks[k].srcUsed;
      OpeningIsFirst(ev, ev.rules, src, p.address, p.port);
      assert Opened(ev, src, p.address, p.port) <==> exists a :: a in ev.rules && ev.allowCovers(a, src, p.address, p.port);
    }
  }

  /** With participant sources: the check passes exactly when every well-formed provider
      has a place, is let in from each of these sources, and replied. */
  lemma PassFromEverySource(ev: Evidence, providers: seq<Provider>)
    requires providers != [] && ev.sources != []
    ensures Expected(true, ev, providers).status == Pass <==>
            forall p :: p in providers && p.Provider? ==>
              p.address != "" && Replied(ev, p) && forall s :: s in ev.sources ==> LetIn(ev, p, s)
  {
    PassIff(ev, providers);
    forall p | p in providers && p.Provider?
      ensures Reachable(ev, p) <==> p.address != "" && Replied(ev, p) && forall s :: s in ev.sources ==> LetIn(ev, p, s)
    {
      SourcesAsked(ev, p);
      forall s ensures LetIn(ev, p, s) <==> Opened(ev, s, p.address, p.port) && ShadowOf(ev, s, p.address, p.port).None? {
        LetInIff(ev, p, s);
      }
      if p.port.Number? {
        RepliedIff(ev, p);
      }
    }
  }

  /** The last row about the provider says that a probe from the source asked for did run
      and got no reply. */
  ghost predicate Unanswered(ev: Evidence, p: Provider)
    requires p.Provider?
  {
    && ev.probeOk && p.port.Number?
    && exists k: nat :: LastNaming(ev.checks, k, p.address, p.port.n) && !ev.checks[k].reachable
         && ev.checks[k].srcUsed == "" && !("no node holds" <= ev.checks[k].error) && !("cannot " <= ev.checks[k].error)
  }

  lemma UnansweredIff(ev: Evidence, p: Provider)
    requires p.Provider?
    ensures Unanswered(ev, p) <==> LiveRow(ev, p).Some? && Refused(LiveRow(ev, p).value)
  {
    if p.port.Number? {
      LastRowIsLast(ev.checks, p.address, p.port.n);
      forall k: nat, l: nat | LastNaming(ev.checks, l, p.address, p.port.n) && LastNaming(ev.checks, k, p.address, p.port.n)
        ensures l == k
      {
      }
    }
  }

  /** And it fails exactly when some well-formed provider has no place, is not let in from
      one of these sources, or did not answer. */
  lemma FailFromSomeSource(ev: Evidence, providers: seq<Provider>)
    requires providers != [] && ev.sources != []
    ensures Expected(true, ev, providers).status == Fail <==>
            exists p :: p in providers && p.Provider?
              && (p.address == "" || p.port.NoPort? || Unanswered(ev, p) || exists s :: s in ev.sources && !LetIn(ev, p, s))
  {
    FailIff(ev, providers);
    forall p | p in providers && p.Provider?
      ensures Broken(ev, p) <==>
                p.address == "" || p.port.NoPort? || Unanswered(ev, p) || exists s :: s in ev.sources && !LetIn(ev, p, s)
    {
      SourcesAsked(ev, p);
      UnansweredIff(ev, p);
      forall s ensures LetIn(ev, p, s) <==> Opened(ev, s, p.address, p.port) && ShadowOf(ev, s, p.address, p.port).None? {
        LetInIff(ev, p, s);
      }
    }
  }

  /** Some rule covers the path. */
  ghost predicate Covered(ev: Evidence, p: Provider, src: string)
    requires p.Provider?
  {
    exists a :: a in ev.rules && ev.allowCovers(a, src, p.address, p.port)
  }

  ghost predicate LetInFromAll(ev: Evidence, p: Provider)
    requires p.Provider?
  {
    forall s :: s in Probes(ev, p) ==> LetIn(ev, p, s)
  }

  /** The last row about the provider comes from another source than asked for. */
  ghost predicate HeardElsewhere(ev: Evidence, p: Provider)
    requires p.Provider?
  {
    && ev.probeOk && p.port.Number?
    && exists k: nat :: LastNaming(ev.checks, k, p.address, p.port.n) && ev.checks[k].srcUsed != ""
  }

  /** What each class of a provider says: no place; else a source that no rule covers; else
      one whose first rule is shadowed; else what the last row about it tells. */
  lemma ClassIff(ev: Evidence, p: Provider)
    requires p.Provider?
    ensures var c, placed := Classify(ev, p), p.address != "" && !p.port.NoPort?;
            var covered := forall s :: s in Probes(ev, p) ==> Covered(ev, p, s);
            var letIn := placed && LetInFromAll(ev, p);
            && (c == Some(Unplaced) <==> !placed)
            && (c == Some(NoRule) <==> placed && !covered)
            && (c == Some(Shadowed) <==> placed && covered && !letIn)
            && (c == Some(Verified) <==> letIn && Replied(ev, p))
            && (c == Some(StandInUnproven) <==> letIn && !Replied(ev, p) && HeardElsewhere(ev, p))
            && (c == Some(Silent) <==> letIn && Unanswered(ev, p))
            && (c == Some(Unproven) <==> letIn && !Replied(ev, p) && !HeardElsewhere(ev, p) && !Unanswered(ev, p))
  {
    ProbesExist(ev, p);
    forall s
      ensures LetIn(ev, p, s) <==> Opened(ev, s, p.address, p.port) && ShadowOf(ev, s, p.address, p.port).None?
      ensures Covered(ev, p, s) <==> Opened(ev, s, p.address, p.port)
    {
      LetInIff(ev, p, s);
      OpeningIsFirst(ev, ev.rules, s, p.address, p.port);
    }
    HeardIff(ev, p);
    UnansweredIff(ev, p);
    if p.port.Number? {
      RepliedIff(ev, p);
    }
  }

  lemma HeardIff(ev: Evidence, p: Provider)
    requires p.Provider?
    ensures HeardElsewhere(ev, p) <==> LiveRow(ev, p).Some? && LiveRow(ev, p).value.srcUsed != ""
  {
    if p.port.Number? {
      LastRowIsLast(ev.checks, p.address, p.port.n);
      forall k: nat, l: nat | LastNaming(ev.checks, l, p.address, p.port.n) && LastNaming(ev.checks, k, p.address, p.port.n)
        ensures l == k
      {
      }
    }
  }

  /** The counters and the verified items are all the items. */
  lemma {:induction false} CountsAddUp(items: seq<Class>)
    ensures Count(items, {Unplaced}) + Count(items, {NoRule, Silent}) + Count(items, {Shadowed})
          + Count(items, {StandInUnproven, Unproven}) + Count(items, {Verified}) == |items|
  {
    if items != [] {
      var init, last := items[..|items| - 1], items[|items| - 1];
      CountsAddUp(init);
      match last
      case Unplaced =>
      case NoRule =>
      case Shadowed =>
      case Verified =>
      case StandInUnproven =>
      case Silent =>
      case Unproven =>
    }
  }
}
