/** How far the shadowing scan, which reads only addresses, protocol, port and target
    and no negation, agrees with a filter, which evaluates every option and follows jumps. */
module FirstMatch {
  import opened Iptables
  import opened Optional
  import opened Text

  // ----- what a packet filter does -----

  datatype Verdict = Accepted | Dropped | Undecided

  /** What the code does not read, for the packet at hand: which further options it
      meets, and what becomes of it at a target that is not final by itself. */
  datatype Meaning = Meaning(holds: Opt -> bool, goesTo: string -> Verdict)

  /** What is known of them all the same: options that every packet asked about meets
      (such as `-m tcp`), and targets (such as LOG) that let the packet go on. */
  datatype Background = Background(holding: set<Opt>, through: set<string>)

  ghost predicate Respects(m: Meaning, bg: Background) {
    (forall o :: o in bg.holding ==> m.holds(o)) && forall t :: t in bg.through ==> m.goesTo(t) == Undecided
  }

  /** An option the code cannot evaluate: an unknown one, or a port that is no number. */
  predicate Unread(o: Opt) {
    o.Extra? || (o.Port? && ParseInt(o.text).None?)
  }

  predicate TargetBefore(os: seq<Opt>, i: nat)
    requires i <= |os|
  {
    exists j :: 0 <= j < i && os[j].Target?
  }

  /** An unread option the packet has to meet. Unknown options behind the target (such
      as `--reject-with`) are parameters of the target and no condition. */
  predicate IsCondition(os: seq<Opt>, i: nat)
    requires i < |os|
  {
    Unread(os[i]) && (os[i].Extra? ==> !TargetBefore(os, i))
  }

  /** What the code takes an option to say about the packet. */
  predicate Seems(covers: (string, string) -> bool, o: Opt, k: Packet) {
    match o
    case Source(_, net) => SelectorCovers(covers, net, k.src)
    case Destination(_, net) => SelectorCovers(covers, net, k.dst)
    case Protocol(_, name) => Lower(name) == "tcp" || Lower(name) == "all"
    case Port(_, text) => ParseInt(text).Some? ==> k.port == Some(ParseInt(text).value)
    case Target(_) => true
    case Extra(_, _, _) => true
  }

  /** What it does say: a negated selector selects the other packets. */
  predicate Selects(covers: (string, string) -> bool, o: Opt, k: Packet) {
    if Negated(o) && !Unread(o) then !Seems(covers, o, k) else Seems(covers, o, k)
  }

  predicate AllSelect(covers: (string, string) -> bool, os: seq<Opt>, k: Packet) {
    forall i :: 0 <= i < |os| ==> Selects(covers, os[i], k)
  }

  /** A rule admits a packet that meets all its options. */
  predicate Admits(covers: (string, string) -> bool, m: Meaning, r: Rule, k: Packet) {
    && k.port.Some? && AllSelect(covers, r.options, k)
    && forall i :: 0 <= i < |r.options| && IsCondition(r.options, i) ==> m.holds(r.options[i])
  }

  function TargetOf(os: seq<Opt>): string {
    if os == [] then "" else if os[0].Target? then Upper(os[0].name) else TargetOf(os[1..])
  }

  lemma {:induction false} TargetAt(os: seq<Opt>, i: nat)
    requires i < |os| && os[i].Target? && !TargetBefore(os, i)
    ensures TargetOf(os) == Upper(os[i].name)
  {
    if i > 0 {
      assert !os[0].Target?;
      forall j | 0 <= j < i - 1 ensures !os[1..][j].Target? {
        assert os[1..][j] == os[j + 1];
      }
      TargetAt(os[1..], i - 1);
    }
  }

  function AtTarget(m: Meaning, target: string): Verdict {
    if target == "" then Undecided
    else if target == "ACCEPT" then Accepted
    else if target == "DROP" || target == "REJECT" then Dropped
    else m.goesTo(target)
  }

  /** The first rule of the packet's own chain that admits it and decides its fate. */
  function Evaluate(covers: (string, string) -> bool, m: Meaning, rules: seq<Rule>, hook: string, k: Packet): Verdict {
    if rules == [] then Undecided
    else
      var here := AtTarget(m, TargetOf(rules[0].options));
      if rules[0].chain == hook && Admits(covers, m, rules[0], k) && here != Undecided then here
      else Evaluate(covers, m, rules[1..], hook, k)
  }

  // ----- the filter's reading of a rule, and the code's -----

  /** A rule that the selectors alone rule out or that is known to decide nothing, or
      one that acts on the packets that meet its conditions. */
  datatype Reading = Idle | Acts(conditions: set<Opt>, target: string)

  function Conditions(bg: Background, os: seq<Opt>): set<Opt> {
    set i: nat | i < |os| && IsCondition(os, i) && os[i] !in bg.holding :: os[i]
  }

  predicate IsFinal(target: string) {
    target == "ACCEPT" || target == "DROP" || target == "REJECT"
  }

  predicate IsDrop(target: string) {
    target == "DROP" || target == "REJECT"
  }

  /** Known to let every packet go on. */
  predicate Passes(bg: Background, target: string) {
    target == "" || (target in bg.through && !IsFinal(target))
  }

  /** The selectors of a rule of the packet's chain select it. */
  predicate Applies(covers: (string, string) -> bool, r: Rule, hook: string, k: Packet) {
    r.chain == hook && k.port.Some? && AllSelect(covers, r.options, k)
  }

  function Read(covers: (string, string) -> bool, bg: Background, r: Rule, hook: string, k: Packet): Reading {
    var t := TargetOf(r.options);
    if !Applies(covers, r, hook, k) || Passes(bg, t) then Idle else Acts(Conditions(bg, r.options), t)
  }

  function ReadAll(covers: (string, string) -> bool, bg: Background, rules: seq<Rule>, hook: string, k: Packet): seq<Reading> {
    seq(|rules|, i requires 0 <= i < |rules| => Read(covers, bg, rules[i], hook, k))
  }

  /** What the code takes for a rule that applies: the chain compared without case (any
      chain if none is named), the negations not seen. */
  predicate SeemsToApply(covers: (string, string) -> bool, r: Rule, chain: string, k: Packet) {
    && (chain == "" || Upper(r.chain) == chain)
    && k.port.Some? && forall i :: 0 <= i < |r.options| ==> Seems(covers, r.options[i], k)
  }

  /** The scan over the rules: the first that seems to apply and has a final target. */
  predicate ScanDrops(covers: (string, string) -> bool, rules: seq<Rule>, chain: string, k: Packet) {
    && rules != []
    && var t := TargetOf(rules[0].options);
       if SeemsToApply(covers, rules[0], chain, k) && IsFinal(t) then IsDrop(t)
       else ScanDrops(covers, rules[1..], chain, k)
  }

  /** The code is right about which packets a rule is for. */
  predicate ReadRight(covers: (string, string) -> bool, r: Rule, hook: string, chain: string, k: Packet) {
    SeemsToApply(covers, r, chain, k) <==> Applies(covers, r, hook, k)
  }

  /** So it is of rules without negated selectors, if chain names do not differ in case only. */
  lemma PositiveIsReadRight(covers: (string, string) -> bool, r: Rule, hook: string, chain: string, k: Packet)
    requires chain == Upper(hook) && hook != "" && (Upper(r.chain) == chain ==> r.chain == hook)
    requires forall o :: o in r.options && Negated(o) ==> Unread(o)
    ensures ReadRight(covers, r, hook, chain, k)
  {
    forall i | 0 <= i < |r.options| ensures Selects(covers, r.options[i], k) <==> Seems(covers, r.options[i], k) {
      assert r.options[i] in r.options;
    }
    assert chain != "" by {
      assert |Upper(hook)| == |hook|;
    }
  }

  // ----- fields and options say the same -----

  predicate Unset(p: Parsed, o: Opt) {
    match o
    case Source(_, _) => p.src == ""
    case Destination(_, _) => p.dst == ""
    case Protocol(_, _) => p.proto == ""
    case Port(_, _) => p.dport == None
    case Target(_) => p.target == ""
    case Extra(_, _, _) => true
  }

  predicate AllUnset(p: Parsed, os: seq<Opt>) {
    forall i :: 0 <= i < |os| ==> Unset(p, os[i])
  }

  predicate AllSeem(covers: (string, string) -> bool, os: seq<Opt>, k: Packet) {
    os == [] || (Seems(covers, os[0], k) && AllSeem(covers, os[1..], k))
  }

  lemma {:induction false} AllSeemMeaning(covers: (string, string) -> bool, os: seq<Opt>, k: Packet)
    ensures AllSeem(covers, os, k) <==> forall i :: 0 <= i < |os| ==> Seems(covers, os[i], k)
  {
    if os != [] {
      AllSeemMeaning(covers, os[1..], k);
      assert forall i :: 0 <= i < |os[1..]| ==> os[1..][i] == os[i + 1];
      assert forall i :: 0 < i < |os| ==> os[i] == os[1..][i - 1];
    }
  }

  lemma {:induction false} FieldsMatchIff(covers: (string, string) -> bool, p: Parsed, os: seq<Opt>, k: Packet)
    requires OptsOk(os) && OncePerKind(os) && AllUnset(p, os) && k.port.Some?
    ensures Matches(covers, ApplyAll(p, os), k) <==> Matches(covers, p, k) && AllSeem(covers, os, k)
    decreases |os|
  {
    if os != [] {
      FieldsMatchIff(covers, Apply(p, os[0]), os[1..], k);
    }
  }

  lemma {:induction false} TargetIsField(p: Parsed, os: seq<Opt>)
    requires OncePerKind(os) && AllUnset(p, os)
    ensures p.target == "" ==> ApplyAll(p, os).target == TargetOf(os)
    ensures (forall i :: 0 <= i < |os| ==> !os[i].Target?) ==> ApplyAll(p, os).target == p.target
    decreases |os|
  {
    if os != [] {
      TargetIsField(Apply(p, os[0]), os[1..]);
      if os[0].Target? {
        forall i | 0 <= i < |os[1..]| ensures !os[1..][i].Target? {
          assert !SameKind(os[0], os[i + 1]);
        }
      }
    }
  }

  lemma {:induction false} ChainStays(p: Parsed, os: seq<Opt>)
    ensures ApplyAll(p, os).chain == p.chain
    decreases |os|
  {
    if os != [] {
      ChainStays(Apply(p, os[0]), os[1..]);
    }
  }

  /** The parsed fields of a printed rule match, in the chain asked about, exactly when
      the rule seems to apply. */
  lemma DecisiveIff(covers: (string, string) -> bool, r: Rule, chain: string, k: Packet)
    requires RuleOk(r)
    ensures var p, t := ParseLine(Print(r)), TargetOf(r.options);
            && (Decisive(covers, p, chain, k) <==> SeemsToApply(covers, r, chain, k) && IsFinal(t))
            && (Drops(p) <==> IsDrop(t))
  {
    ParseOfPrint(r);
    ChainStays(Blank(r.chain), r.options);
    TargetIsField(Blank(r.chain), r.options);
    if k.port.Some? {
      FieldsMatchIff(covers, Blank(r.chain), r.options, k);
      AllSeemMeaning(covers, r.options, k);
    }
  }

  function PrintAll(rules: seq<Rule>): seq<string> {
    seq(|rules|, i requires 0 <= i < |rules| => Print(rules[i]))
  }

  predicate RulesOk(rules: seq<Rule>) {
    forall i :: 0 <= i < |rules| ==> RuleOk(rules[i])
  }

  lemma {:induction false} ShadowIsScan(covers: (string, string) -> bool, rules: seq<Rule>, chain: string, k: Packet)
    requires RulesOk(rules)
    ensures ShadowFrom(covers, PrintAll(rules), chain, k).Some? <==> ScanDrops(covers, rules, chain, k)
  {
    if rules != [] {
      ShadowIsScan(covers, rules[1..], chain, k);
      DecisiveIff(covers, rules[0], chain, k);
      assert PrintAll(rules)[1..] == PrintAll(rules[1..]);
    }
  }

  // ----- evaluation, on readings -----

  predicate Holds(m: Meaning, r: Reading) {
    r.Acts? && forall o :: o in r.conditions ==> m.holds(o)
  }

  function Outcome(m: Meaning, rs: seq<Reading>): Verdict {
    if rs == [] then Undecided
    else if Holds(m, rs[0]) && AtTarget(m, rs[0].target) != Undecided then AtTarget(m, rs[0].target)
    else Outcome(m, rs[1..])
  }

  /** A rule admits a packet exactly when its selectors select it and the conditions
      not known to hold do hold. */
  lemma AdmitsIff(covers: (string, string) -> bool, m: Meaning, bg: Background, r: Rule, k: Packet)
    requires Respects(m, bg)
    ensures Admits(covers, m, r, k)
       <==> Applies(covers, r, r.chain, k) && forall o :: o in Conditions(bg, r.options) ==> m.holds(o)
  {
    var os := r.options;
    if forall o :: o in Conditions(bg, os) ==> m.holds(o) {
      forall i | 0 <= i < |os| && IsCondition(os, i) ensures m.holds(os[i]) {
        assert os[i] in bg.holding || os[i] in Conditions(bg, os);
      }
    }
  }

  lemma ReadDecides(covers: (string, string) -> bool, m: Meaning, bg: Background, r: Rule, hook: string, k: Packet)
    requires Respects(m, bg)
    ensures var x, here := Read(covers, bg, r, hook, k), AtTarget(m, TargetOf(r.options));
            && (r.chain == hook && Admits(covers, m, r, k) && here != Undecided
                <==> Holds(m, x) && AtTarget(m, x.target) != Undecided)
            && (x.Acts? ==> AtTarget(m, x.target) == here)
  {
    AdmitsIff(covers, m, bg, r, k);
  }

  lemma {:induction false} EvaluateIsOutcome(covers: (string, string) -> bool, m: Meaning, bg: Background,
                                            rules: seq<Rule>, hook: string, k: Packet)
    requires Respects(m, bg)
    ensures Evaluate(covers, m, rules, hook, k) == Outcome(m, ReadAll(covers, bg, rules, hook, k))
  {
    if rules != [] {
      EvaluateIsOutcome(covers, m, bg, rules[1..], hook, k);
      ReadDecides(covers, m, bg, rules[0], hook, k);
      assert ReadAll(covers, bg, rules, hook, k)[1..] == ReadAll(covers, bg, rules[1..], hook, k);
    }
  }

  // ----- when the scan can be trusted -----

  /** A rule that can decide: no earlier one acts whenever it does. */
  predicate Live(rs: seq<Reading>, j: int) {
    0 <= j < |rs| && rs[j].Acts? && forall i :: 0 <= i < j ==> rs[i].Acts? ==> !(rs[i].conditions <= rs[j].conditions)
  }

  predicate LiveDrop(rs: seq<Reading>) {
    forall j :: 0 <= j < |rs| && Live(rs, j) ==> IsDrop(rs[j].target)
  }

  predicate LiveAccept(rs: seq<Reading>) {
    forall j :: 0 <= j < |rs| && Live(rs, j) ==> rs[j].target == "ACCEPT"
  }

  predicate SomeUnconditional(rs: seq<Reading>) {
    exists j :: 0 <= j < |rs| && rs[j].Acts? && rs[j].conditions == {}
  }

  /** The rules that can decide all accept; or they all drop, one of them whatever
      the conditions. */
  predicate SettledAs(rs: seq<Reading>, drop: bool) {
    if drop then LiveDrop(rs) && SomeUnconditional(rs) else LiveAccept(rs)
  }

  /** The first reading that acts under a meaning. */
  predicate ActsFirst(m: Meaning, rs: seq<Reading>, i: int) {
    0 <= i < |rs| && Holds(m, rs[i]) && forall h :: 0 <= h < i ==> !Holds(m, rs[h])
  }

  lemma {:induction false} OutcomeOfFirst(m: Meaning, rs: seq<Reading>, i: int)
    requires ActsFirst(m, rs, i) && AtTarget(m, rs[i].target) != Undecided
    ensures Outcome(m, rs) == AtTarget(m, rs[i].target)
  {
    if i > 0 {
      assert !Holds(m, rs[0]);
      OutcomeOfFirst(m, rs[1..], i - 1);
    }
  }

  lemma {:induction false} OutcomeOfNone(m: Meaning, rs: seq<Reading>)
    requires forall h :: 0 <= h < |rs| ==> !Holds(m, rs[h])
    ensures Outcome(m, rs) == Undecided
  {
    if rs != [] {
      OutcomeOfNone(m, rs[1..]);
    }
  }

  lemma {:induction false} FirstOrNone(m: Meaning, rs: seq<Reading>, n: nat) returns (i: int)
    requires n <= |rs|
    ensures i < 0 ==> forall h :: 0 <= h < n ==> !Holds(m, rs[h])
    ensures i >= 0 ==> i < n && ActsFirst(m, rs, i)
  {
    if n == 0 {
      i := -1;
    } else {
      i := FirstOrNone(m, rs, n - 1);
      if i < 0 && Holds(m, rs[n - 1]) {
        i := n - 1;
      }
    }
  }

  /** A packet that meets these conditions, those known to hold, and no other. */
  function Only(conditions: set<Opt>, bg: Background, otherwise: Verdict): Meaning {
    Meaning(o => o in conditions || o in bg.holding, t => if t in bg.through then Undecided else otherwise)
  }

  lemma SettledDecidesOutcome(rs: seq<Reading>, drop: bool, m: Meaning)
    requires SettledAs(rs, drop)
    ensures Outcome(m, rs) == Dropped <==> drop
  {
    var i := FirstOrNone(m, rs, |rs|);
    if i < 0 {
      OutcomeOfNone(m, rs);
      forall j | 0 <= j < |rs| && rs[j].Acts? ensures rs[j].conditions != {} {
        assert !Holds(m, rs[j]);
      }
    } else {
      OutcomeOfFirst(m, rs, i);
    }
  }

  /** Well-formed readings, as those of rules are. */
  predicate ProperReading(r: Reading, bg: Background) {
    r.Acts? ==> !Passes(bg, r.target) && r.conditions !! bg.holding
  }

  predicate ProperReadings(rs: seq<Reading>, bg: Background) {
    forall j :: 0 <= j < |rs| ==> ProperReading(rs[j], bg)
  }

  lemma ReadAllProper(covers: (string, string) -> bool, bg: Background, rules: seq<Rule>, hook: string, k: Packet)
    ensures ProperReadings(ReadAll(covers, bg, rules, hook, k), bg)
  {
    var rs := ReadAll(covers, bg, rules, hook, k);
    forall j | 0 <= j < |rs| ensures ProperReading(rs[j], bg) {
      assert rs[j] == Read(covers, bg, rules[j], hook, k);
    }
  }

  /** Under the meaning that has just some conditions, a rule acts if it has no others. */
  lemma OnlyHolds(r: Reading, conditions: set<Opt>, bg: Background, otherwise: Verdict)
    requires ProperReading(r, bg)
    ensures Holds(Only(conditions, bg, otherwise), r) <==> r.Acts? && r.conditions <= conditions
  {
  }

  /** For each rule that can decide there is a packet it decides. */
  lemma LiveCanDecide(rs: seq<Reading>, bg: Background, j: int, otherwise: Verdict)
    requires ProperReadings(rs, bg) && Live(rs, j) && otherwise != Undecided
    ensures var m := Only(rs[j].conditions, bg, otherwise);
            && Respects(m, bg)
            && Outcome(m, rs) == if IsFinal(rs[j].target) then (if IsDrop(rs[j].target) then Dropped else Accepted) else otherwise
  {
    var m := Only(rs[j].conditions, bg, otherwise);
    forall h | 0 <= h < j ensures !Holds(m, rs[h]) {
      OnlyHolds(rs[h], rs[j].conditions, bg, otherwise);
    }
    OnlyHolds(rs[j], rs[j].conditions, bg, otherwise);
    OutcomeOfFirst(m, rs, j);
  }

  /** This answer is right under every meaning. */
  ghost predicate AlwaysRight(rs: seq<Reading>, bg: Background, drop: bool) {
    forall m: Meaning :: Respects(m, bg) ==> (Outcome(m, rs) == Dropped <==> drop)
  }

  lemma RightMeansFinal(rs: seq<Reading>, bg: Background, drop: bool, j: int)
    requires ProperReadings(rs, bg) && AlwaysRight(rs, bg, drop) && Live(rs, j)
    ensures IsFinal(rs[j].target) && (IsDrop(rs[j].target) <==> drop)
  {
    LiveCanDecide(rs, bg, j, Dropped);
    LiveCanDecide(rs, bg, j, Accepted);
    assert Respects(Only(rs[j].conditions, bg, Dropped), bg);
    assert Respects(Only(rs[j].conditions, bg, Accepted), bg);
  }

  lemma RightMeansUnconditional(rs: seq<Reading>, bg: Background)
    requires ProperReadings(rs, bg) && AlwaysRight(rs, bg, true)
    ensures SomeUnconditional(rs)
  {
    var m := Only({}, bg, Undecided);
    assert Respects(m, bg);
    assert Outcome(m, rs) == Dropped;
    var i := FirstOrNone(m, rs, |rs|);
    if i < 0 {
      OutcomeOfNone(m, rs);
    }
    assert Holds(m, rs[i]);
    OnlyHolds(rs[i], {}, bg, Undecided);
  }

  lemma RightIffSettled(rs: seq<Reading>, bg: Background, drop: bool)
    requires ProperReadings(rs, bg)
    ensures AlwaysRight(rs, bg, drop) <==> SettledAs(rs, drop)
  {
    if SettledAs(rs, drop) {
      forall m: Meaning | Respects(m, bg) ensures Outcome(m, rs) == Dropped <==> drop {
        SettledDecidesOutcome(rs, drop, m);
      }
    }
    if AlwaysRight(rs, bg, drop) {
      forall j | 0 <= j < |rs| && Live(rs, j) ensures IsFinal(rs[j].target) && (IsDrop(rs[j].target) <==> drop) {
        RightMeansFinal(rs, bg, drop, j);
      }
      if drop {
        RightMeansUnconditional(rs, bg);
      }
    }
  }

  /** On the printed lines of any rules, negated selectors included: the scan says
      "shadowed" exactly when the filter drops the packet, whatever the further options
      and the other targets mean, if and only if the rules that can decide all do what
      the scan says, and one of them drops unconditionally if the scan says so. */
  lemma ShadowTrustedIff(covers: (string, string) -> bool, bg: Background, rules: seq<Rule>, hook: string, chain: string, k: Packet)
    requires RulesOk(rules)
    ensures (forall m: Meaning :: Respects(m, bg) ==>
               (ShadowFrom(covers, PrintAll(rules), chain, k).Some? <==> Evaluate(covers, m, rules, hook, k) == Dropped))
            <==> SettledAs(ReadAll(covers, bg, rules, hook, k), ScanDrops(covers, rules, chain, k))
  {
    var rs := ReadAll(covers, bg, rules, hook, k);
    ShadowIsScan(covers, rules, chain, k);
    ReadAllProper(covers, bg, rules, hook, k);
    RightIffSettled(rs, bg, ScanDrops(covers, rules, chain, k));
    forall m: Meaning | Respects(m, bg) ensures Evaluate(covers, m, rules, hook, k) == Outcome(m, rs) {
      EvaluateIsOutcome(covers, m, bg, rules, hook, k);
    }
  }

  // ----- the policy of the chain -----

  /** A packet that no rule decides is left to the policy of its chain. */
  function WithPolicy(v: Verdict, policyDrops: bool): Verdict {
    if v != Undecided then v else if policyDrops then Dropped else Accepted
  }

  /** The policy acts like a last rule without conditions. */
  function PolicyReading(policyDrops: bool): Reading {
    Acts({}, if policyDrops then "DROP" else "ACCEPT")
  }

  lemma {:induction false} OutcomeWithPolicy(m: Meaning, rs: seq<Reading>, policyDrops: bool)
    ensures Outcome(m, rs + [PolicyReading(policyDrops)]) == WithPolicy(Outcome(m, rs), policyDrops)
  {
    var all := rs + [PolicyReading(policyDrops)];
    if rs != [] {
      assert all[1..] == rs[1..] + [PolicyReading(policyDrops)];
      OutcomeWithPolicy(m, rs[1..], policyDrops);
    } else {
      assert all[1..] == [];
    }
  }

  /** The scan sees no policy. Its answer is right for the chain with its policy if and
      only if it is for the rules with the policy as one more. */
  lemma PolicyTrustedIff(covers: (string, string) -> bool, bg: Background, rules: seq<Rule>, policyDrops: bool,
                         hook: string, chain: string, k: Packet)
    requires RulesOk(rules)
    ensures (forall m: Meaning :: Respects(m, bg) ==>
               (ShadowFrom(covers, PrintAll(rules), chain, k).Some?
                <==> WithPolicy(Evaluate(covers, m, rules, hook, k), policyDrops) == Dropped))
            <==> SettledAs(ReadAll(covers, bg, rules, hook, k) + [PolicyReading(policyDrops)], ScanDrops(covers, rules, chain, k))
  {
    var rs := ReadAll(covers, bg, rules, hook, k);
    var all := rs + [PolicyReading(policyDrops)];
    ShadowIsScan(covers, rules, chain, k);
    ReadAllProper(covers, bg, rules, hook, k);
    RightIffSettled(all, bg, ScanDrops(covers, rules, chain, k));
    forall m: Meaning | Respects(m, bg)
      ensures WithPolicy(Evaluate(covers, m, rules, hook, k), policyDrops) == Outcome(m, all)
    {
      EvaluateIsOutcome(covers, m, bg, rules, hook, k);
      OutcomeWithPolicy(m, rs, policyDrops);
    }
  }

  // ----- rules that the code reads right -----

  predicate AllReadRight(covers: (string, string) -> bool, rules: seq<Rule>, hook: string, chain: string, k: Packet) {
    forall i :: 0 <= i < |rules| ==> ReadRight(covers, rules[i], hook, chain, k)
  }

  /** The scan decides by the first rule that applies and has a final target. */
  lemma {:induction false} ScanOfRightRules(covers: (string, string) -> bool, bg: Background, rules: seq<Rule>,
                                           hook: string, chain: string, k: Packet, j: nat)
    requires AllReadRight(covers, rules, hook, chain, k) && j < |rules|
    requires var rs := ReadAll(covers, bg, rules, hook, k);
             rs[j].Acts? && IsFinal(rs[j].target) && forall h :: 0 <= h < j ==> rs[h].Idle?
    ensures ScanDrops(covers, rules, chain, k) <==> IsDrop(TargetOf(rules[j].options))
  {
    var rs := ReadAll(covers, bg, rules, hook, k);
    assert rs[0] == Read(covers, bg, rules[0], hook, k) && ReadRight(covers, rules[0], hook, chain, k);
    if j > 0 {
      assert rs[1..] == ReadAll(covers, bg, rules[1..], hook, k);
      ScanOfRightRules(covers, bg, rules[1..], hook, chain, k, j - 1);
    }
  }

  lemma {:induction false} ScanOfNoRule(covers: (string, string) -> bool, bg: Background, rules: seq<Rule>,
                                       hook: string, chain: string, k: Packet)
    requires AllReadRight(covers, rules, hook, chain, k)
    requires var rs := ReadAll(covers, bg, rules, hook, k); forall h :: 0 <= h < |rs| ==> rs[h].Idle?
    ensures !ScanDrops(covers, rules, chain, k)
  {
    if rules != [] {
      var rs := ReadAll(covers, bg, rules, hook, k);
      assert rs[0] == Read(covers, bg, rules[0], hook, k) && ReadRight(covers, rules[0], hook, chain, k);
      assert rs[1..] == ReadAll(covers, bg, rules[1..], hook, k);
      ScanOfNoRule(covers, bg, rules[1..], hook, chain, k);
    }
  }

  lemma {:induction false} FirstActing(rs: seq<Reading>, n: nat) returns (i: int)
    requires n <= |rs|
    ensures i < 0 ==> forall h :: 0 <= h < n ==> rs[h].Idle?
    ensures i >= 0 ==> i < n && rs[i].Acts? && forall h :: 0 <= h < i ==> rs[h].Idle?
  {
    if n == 0 {
      i := -1;
    } else {
      i := FirstActing(rs, n - 1);
      if i < 0 && rs[n - 1].Acts? {
        i := n - 1;
      }
    }
  }

  /** Where the code is right about which packets the rules are for, settled either way
      means settled as the scan says. */
  lemma SettledAsScanned(covers: (string, string) -> bool, bg: Background, rules: seq<Rule>, hook: string, chain: string, k: Packet)
    requires AllReadRight(covers, rules, hook, chain, k)
    ensures var rs := ReadAll(covers, bg, rules, hook, k);
            SettledAs(rs, ScanDrops(covers, rules, chain, k)) <==> SettledAs(rs, true) || SettledAs(rs, false)
  {
    var rs := ReadAll(covers, bg, rules, hook, k);
    if SettledAs(rs, true) || SettledAs(rs, false) {
      var i := FirstActing(rs, |rs|);
      if i < 0 {
        ScanOfNoRule(covers, bg, rules, hook, chain, k);
      } else {
        assert Live(rs, i) && rs[i] == Read(covers, bg, rules[i], hook, k);
        ScanOfRightRules(covers, bg, rules, hook, chain, k, i);
      }
    }
  }

  /** For such rules, the scan is right whatever the further options and the other targets
      mean if and only if the rules that can decide all accept, or all drop and one of
      them does so unconditionally. */
  lemma TrustedIffSettled(covers: (string, string) -> bool, bg: Background, rules: seq<Rule>,
                          hook: string, chain: string, k: Packet)
    requires RulesOk(rules) && AllReadRight(covers, rules, hook, chain, k)
    ensures var rs := ReadAll(covers, bg, rules, hook, k);
            (forall m: Meaning :: Respects(m, bg) ==>
               (ShadowFrom(covers, PrintAll(rules), chain, k).Some? <==> Evaluate(covers, m, rules, hook, k) == Dropped))
            <==> LiveAccept(rs) || (LiveDrop(rs) && SomeUnconditional(rs))
  {
    SettledAsScanned(covers, bg, rules, hook, chain, k);
    ShadowTrustedIff(covers, bg, rules, hook, chain, k);
  }

  // ----- single packets and plain rules -----

  /** What the code does not read of a rule makes no difference: the packet meets it
      all, and any other target lets the packet go on. */
  predicate Met(m: Meaning, r: Rule) {
    && (forall i :: 0 <= i < |r.options| && IsCondition(r.options, i) ==> m.holds(r.options[i]))
    && (IsFinal(TargetOf(r.options)) || AtTarget(m, TargetOf(r.options)) == Undecided)
  }

  /** Such a rule decides in the scan and in the filter alike. */
  lemma MetDecidesAlike(covers: (string, string) -> bool, m: Meaning, r: Rule, hook: string, chain: string, k: Packet)
    requires RuleOk(r) && ReadRight(covers, r, hook, chain, k) && (Applies(covers, r, hook, k) ==> Met(m, r))
    ensures var p, here := ParseLine(Print(r)), AtTarget(m, TargetOf(r.options));
            && (Decisive(covers, p, chain, k) <==> r.chain == hook && Admits(covers, m, r, k) && here != Undecided)
            && (Decisive(covers, p, chain, k) ==> (Drops(p) <==> here == Dropped))
  {
    DecisiveIff(covers, r, chain, k);
  }

  /** Then the scan says "shadowed" exactly when the filter drops the packet. */
  lemma {:induction false} ShadowedWhenMet(covers: (string, string) -> bool, m: Meaning, rules: seq<Rule>,
                                          hook: string, chain: string, k: Packet)
    requires RulesOk(rules) && AllReadRight(covers, rules, hook, chain, k)
    requires forall i :: 0 <= i < |rules| && Applies(covers, rules[i], hook, k) ==> Met(m, rules[i])
    ensures ShadowFrom(covers, PrintAll(rules), chain, k).Some? <==> Evaluate(covers, m, rules, hook, k) == Dropped
  {
    if rules != [] {
      assert ReadRight(covers, rules[0], hook, chain, k);
      ShadowedWhenMet(covers, m, rules[1..], hook, chain, k);
      MetDecidesAlike(covers, m, rules[0], hook, chain, k);
      assert PrintAll(rules)[1..] == PrintAll(rules[1..]);
    }
  }

  /** Nothing in the rule that is not known. */
  predicate Plain(bg: Background, r: Rule) {
    Conditions(bg, r.options) == {} && (IsFinal(TargetOf(r.options)) || Passes(bg, TargetOf(r.options)))
  }

  lemma PlainIsMet(m: Meaning, bg: Background, r: Rule)
    requires Respects(m, bg) && Plain(bg, r)
    ensures Met(m, r)
  {
    forall i | 0 <= i < |r.options| && IsCondition(r.options, i) ensures m.holds(r.options[i]) {
      assert r.options[i] !in Conditions(bg, r.options);
    }
  }

  /** On plain rules the scan is right under every meaning. */
  lemma ShadowedIffDropped(covers: (string, string) -> bool, m: Meaning, bg: Background, rules: seq<Rule>,
                           hook: string, chain: string, k: Packet)
    requires RulesOk(rules) && AllReadRight(covers, rules, hook, chain, k) && Respects(m, bg)
    requires forall i :: 0 <= i < |rules| ==> Plain(bg, rules[i])
    ensures ShadowFrom(covers, PrintAll(rules), chain, k).Some? <==> Evaluate(covers, m, rules, hook, k) == Dropped
  {
    forall i | 0 <= i < |rules| ensures Met(m, rules[i]) {
      PlainIsMet(m, bg, rules[i]);
    }
    ShadowedWhenMet(covers, m, rules, hook, chain, k);
  }

  // ----- the lines of the repository's own rules -----

  /** The first rule that the segmentation scripts append to a chain. */
  const ESTABLISHED_ACCEPT :=
    Rule("FORWARD", [Extra(false, "-m", ["state"]), Extra(false, "--state", ["RELATED,ESTABLISHED"]), Target("ACCEPT")])
  const DROP_ALL := Rule("FORWARD", [Target("DROP")])

  lemma ExampleWords()
    ensures PlainWord("FORWARD") && PlainWord("INPUT") && PlainWord("ACCEPT") && PlainWord("DROP")
    ensures PlainWord("state") && PlainWord("tcp") && PlainWord("RELATED,ESTABLISHED")
    ensures IsToken("-m") && IsToken("--state")
    ensures Upper("ACCEPT") == "ACCEPT" && Upper("DROP") == "DROP" && Upper("REJECT") == "REJECT"
    ensures Upper("FORWARD") == "FORWARD" && Upper("INPUT") == "INPUT"
  {
  }

  lemma ExampleRulesOk()
    ensures RuleOk(ESTABLISHED_ACCEPT) && RuleOk(DROP_ALL)
    ensures TargetOf(ESTABLISHED_ACCEPT.options) == "ACCEPT" && TargetOf(DROP_ALL.options) == "DROP"
  {
    ExampleWords();
    var os := ESTABLISHED_ACCEPT.options;
    assert OptOk(os[0]) && OptOk(os[1]) && OptOk(os[2]);
    TargetAt(os, 2);
    TargetAt(DROP_ALL.options, 0);
  }

  lemma EstablishedOnly(covers: (string, string) -> bool, m: Meaning, k: Packet)
    requires k.port.Some?
    ensures SeemsToApply(covers, ESTABLISHED_ACCEPT, "FORWARD", k)
    ensures Admits(covers, m, ESTABLISHED_ACCEPT, k) ==> m.holds(ESTABLISHED_ACCEPT.options[1])
    ensures Admits(covers, m, DROP_ALL, k)
  {
    assert Upper("FORWARD") == "FORWARD";
    assert IsCondition(ESTABLISHED_ACCEPT.options, 1);
  }

  /** Behind it a drop goes unseen: the filter drops every new connection, the scan
      reports nothing. */
  lemma StateMatchMisleads(covers: (string, string) -> bool, m: Meaning, k: Packet)
    requires k.port.Some? && !m.holds(ESTABLISHED_ACCEPT.options[1])
    ensures Evaluate(covers, m, [ESTABLISHED_ACCEPT, DROP_ALL], "FORWARD", k) == Dropped
    ensures ShadowFrom(covers, PrintAll([ESTABLISHED_ACCEPT, DROP_ALL]), "FORWARD", k) == None
  {
    var rules := [ESTABLISHED_ACCEPT, DROP_ALL];
    ExampleRulesOk();
    EstablishedOnly(covers, m, k);
    ShadowIsScan(covers, rules, "FORWARD", k);
    assert rules[1..] == [DROP_ALL];
  }

  /** What the segmentation scripts append to protect a network: on a router, and on a
      node of its own. */
  function ProtectInternal(onRouter: bool, net: string): Rule {
    if onRouter then Rule("FORWARD", [Source(true, net), Destination(false, net), Target("DROP")])
    else Rule("INPUT", [Source(true, net), Target("DROP")])
  }

  lemma ProtectInternalOk(onRouter: bool, net: string)
    requires PlainWord(net)
    ensures var r := ProtectInternal(onRouter, net); RuleOk(r) && TargetOf(r.options) == "DROP" && Upper(r.chain) == r.chain
  {
    ExampleWords();
    var os := ProtectInternal(onRouter, net).options;
    TargetAt(os, |os| - 1);
    assert OptOk(os[0]) && OptOk(os[1]) && OptOk(os[|os| - 1]);
  }

  /** The scan takes the negated selector for the plain one, so it is wrong about this
      line for every packet to the network: unseen from outside, where the filter drops
      it, and reported from inside, where the filter lets it pass. */
  lemma NegatedSelectorMisleads(covers: (string, string) -> bool, m: Meaning, onRouter: bool, net: string, k: Packet)
    requires PlainWord(net) && k.port.Some? && (onRouter ==> SelectorCovers(covers, net, k.dst))
    ensures var r := ProtectInternal(onRouter, net);
            && (Evaluate(covers, m, [r], r.chain, k) == Dropped <==> !SelectorCovers(covers, net, k.src))
            && (ShadowFrom(covers, PrintAll([r]), r.chain, k).Some? <==> SelectorCovers(covers, net, k.src))
  {
    var r := ProtectInternal(onRouter, net);
    ProtectInternalOk(onRouter, net);
    ShadowIsScan(covers, [r], r.chain, k);
    assert r.options[0] == Source(true, net);
    assert Selects(covers, r.options[0], k) <==> !SelectorCovers(covers, net, k.src);
    assert Evaluate(covers, m, [r][1..], r.chain, k) == Undecided;
  }

  /** A rule is plain if all its options before a final target can be read or are known
      to hold, whatever parameters the target has. */
  lemma ReadBeforeTargetIsPlain(bg: Background, r: Rule, i: nat)
    requires i < |r.options| && r.options[i].Target? && IsFinal(Upper(r.options[i].name))
    requires forall j :: 0 <= j < i ==> !r.options[j].Target? && (Unread(r.options[j]) ==> r.options[j] in bg.holding)
    requires forall j :: i < j < |r.options| ==> r.options[j].Extra?
    ensures Plain(bg, r)
  {
    TargetAt(r.options, i);
    forall j: nat | j < |r.options| && IsCondition(r.options, j) ensures r.options[j] in bg.holding {
      assert j > i ==> TargetBefore(r.options, j);
    }
  }

  const TCP_MATCH := Extra(false, "-m", ["tcp"])
  const REJECT_WITH := Extra(false, "--reject-with", ["icmp-port-unreachable"])

  /** A line that opens a port, as `iptables -S` prints it: the protocol's own match
      stands before the port. */
  function OpenPort(chain: string, src: string, dst: string, port: string): Rule {
    Rule(chain, [Source(false, src), Destination(false, dst), Protocol(false, "tcp"), TCP_MATCH, Port(false, port),
                 Target("ACCEPT")])
  }

  /** A line that closes an address, likewise. */
  function CloseAddress(chain: string, dst: string, reject: bool): Rule {
    Rule(chain, [Destination(false, dst)] + if reject then [Target("REJECT"), REJECT_WITH] else [Target("DROP")])
  }

  lemma CapturedArePlain(bg: Background, chain: string, src: string, dst: string, port: string, reject: bool)
    requires TCP_MATCH in bg.holding && ParseInt(port).Some?
    ensures Plain(bg, OpenPort(chain, src, dst, port)) && Plain(bg, CloseAddress(chain, dst, reject))
  {
    ExampleWords();
    ReadBeforeTargetIsPlain(bg, OpenPort(chain, src, dst, port), 5);
    ReadBeforeTargetIsPlain(bg, CloseAddress(chain, dst, reject), 1);
  }

  predicate CapturedAs(r: Rule, chain: string, src: string, dst: string, port: string, reject: bool) {
    ParseInt(port).Some? && (r == OpenPort(chain, src, dst, port) || r == CloseAddress(chain, dst, reject))
  }

  /** A line of one of these two forms. */
  ghost predicate IsCaptured(r: Rule, chain: string) {
    exists src, dst, port, reject :: CapturedAs(r, chain, src, dst, port, reject)
  }

  /** With `-m tcp` known to hold, the scan is right on any mixture of such lines. */
  lemma CapturedLinesTrusted(covers: (string, string) -> bool, m: Meaning, bg: Background, rules: seq<Rule>,
                             hook: string, k: Packet)
    requires RulesOk(rules) && Respects(m, bg) && TCP_MATCH in bg.holding && hook != ""
    requires forall i :: 0 <= i < |rules| ==> IsCaptured(rules[i], hook)
    ensures ShadowFrom(covers, PrintAll(rules), Upper(hook), k).Some? <==> Evaluate(covers, m, rules, hook, k) == Dropped
  {
    forall i | 0 <= i < |rules| ensures Plain(bg, rules[i]) && ReadRight(covers, rules[i], hook, Upper(hook), k) {
      assert IsCaptured(rules[i], hook);
      var src, dst, port, reject :| CapturedAs(rules[i], hook, src, dst, port, reject);
      CapturedArePlain(bg, hook, src, dst, port, reject);
      PositiveIsReadRight(covers, rules[i], hook, Upper(hook), k);
    }
    ShadowedIffDropped(covers, m, bg, rules, hook, Upper(hook), k);
  }
}
