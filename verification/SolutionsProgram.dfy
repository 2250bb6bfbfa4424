/** The program the solutions script consists of: where its pivot checks go, and
    what the shell counters add up to when it runs (webapp/solutions_script.py). */
module SolutionsProgram {
  import opened Optional
  import opened Sequences
  import opened Text
  import opened SolutionsScript

  // ----- the pivots worth a step of their own -----

  predicate IsOwnStep(d: Decision) {
    d.Decision? && Strip(d.disposition) == "own_step"
  }

  type Gate = (string, string)

  /** The boundary a decision is about: subnet and provider. */
  function GateOf(d: Decision): Gate
    requires d.Decision?
  {
    (Strip(d.subnet), Strip(d.provider))
  }

  /** All the decisions the assignments carry, in order. */
  function Decisions(asgs: seq<Assignment>): seq<Decision> {
    if asgs == [] then []
    else
      var last := asgs[|asgs| - 1];
      Decisions(asgs[..|asgs| - 1]) + (if last.Assignment? then last.decisions else [])
  }

  function FirstAbout(ds: seq<Decision>, g: Gate): Option<Decision> {
    if ds == [] then None
    else
      var earlier := FirstAbout(ds[..|ds| - 1], g);
      var last := ds[|ds| - 1];
      if earlier.Some? then earlier
      else if IsOwnStep(last) && GateOf(last) == g then Some(last)
      else None
  }

  /** The own-step decisions, the first about each boundary. */
  function OwnSteps(ds: seq<Decision>): (r: seq<Decision>)
    ensures forall d :: d in r ==> IsOwnStep(d)
  {
    if ds == [] then []
    else
      var init, last := ds[..|ds| - 1], ds[|ds| - 1];
      OwnSteps(init) + (if IsOwnStep(last) && FirstAbout(init, GateOf(last)).None? then [last] else [])
  }

  ghost predicate SeenSoFar(seen: set<Gate>, ds: seq<Decision>) {
    forall g :: g in seen <==> FirstAbout(ds, g).Some?
  }

  method AddOwnStep(ghost done: seq<Decision>, d: Decision, seen: set<Gate>, out: seq<Decision>)
    returns (seen': set<Gate>, out': seq<Decision>)
    requires SeenSoFar(seen, done) && out == OwnSteps(done)
    ensures SeenSoFar(seen', done + [d]) && out' == OwnSteps(done + [d])
  {
    seen', out' := seen, out;
    if IsOwnStep(d) && GateOf(d) !in seen {
      seen' := seen + {GateOf(d)};
      out' := out + [d];
    }
  }

  method AddOwnSteps(ghost done: seq<Decision>, ds: seq<Decision>, seen: set<Gate>, out: seq<Decision>)
    returns (seen': set<Gate>, out': seq<Decision>)
    requires SeenSoFar(seen, done) && out == OwnSteps(done)
    ensures SeenSoFar(seen', done + ds) && out' == OwnSteps(done + ds)
  {
    seen', out' := seen, out;
    ghost var all := done;
    for n := 0 to |ds|
      invariant all == done + ds[..n]
      invariant SeenSoFar(seen', all) && out' == OwnSteps(all)
    {
      seen', out' := AddOwnStep(all, ds[n], seen', out');
      AppendOneMore(done, ds, n);
      all := all + [ds[n]];
    }
    TakeAll(ds);
  }

  lemma DecisionsOfOneMore(asgs: seq<Assignment>, n: nat)
    requires n < |asgs|
    ensures Decisions(asgs[..n + 1]) == Decisions(asgs[..n]) + (if asgs[n].Assignment? then asgs[n].decisions else [])
  {
    TakeOneMore(asgs, n);
  }

  method OwnStepPivots(asgs: seq<Assignment>) returns (out: seq<Decision>)
    ensures out == OwnSteps(Decisions(asgs))
  {
    out := [];
    var seen: set<Gate> := {};
    for n := 0 to |asgs|
      invariant SeenSoFar(seen, Decisions(asgs[..n])) && out == OwnSteps(Decisions(asgs[..n]))
    {
      DecisionsOfOneMore(asgs, n);
      if asgs[n].Assignment? {
        seen, out := AddOwnSteps(Decisions(asgs[..n]), asgs[n].decisions, seen, out);
      } else {
        assert Decisions(asgs[..n + 1]) == Decisions(asgs[..n]);
      }
    }
    TakeAll(asgs);
  }

  /** A pivot check: its number among the own steps and the place it belongs to. */
  datatype Pivot = Pivot(number: nat, place: int, decision: Decision)

  predicate Resolvable(d: Decision) {
    d.Decision? && d.ip != "" && Strip(d.port) != ""
  }

  function PlaceOf(d: Decision): int {
    if d.Decision? && d.insertBefore.Some? then d.insertBefore.value else -1
  }

  /** The resolvable ones become checks; the numbering counts the others too. */
  function PivotsFrom(ds: seq<Decision>): (r: seq<Pivot>)
    ensures forall p :: p in r ==> p.number <= |ds|
  {
    if ds == [] then []
    else
      var last := ds[|ds| - 1];
      PivotsFrom(ds[..|ds| - 1]) + (if Resolvable(last) then [Pivot(|ds|, PlaceOf(last), last)] else [])
  }

  function Pivots(asgs: seq<Assignment>): seq<Pivot> {
    PivotsFrom(OwnSteps(Decisions(asgs)))
  }

  /** The number of a pivot is the position of its decision among the own steps, its
      place is the one the decision names, or -1. */
  predicate NumberedIn(p: Pivot, ds: seq<Decision>) {
    && 0 < p.number <= |ds| && p.decision == ds[p.number - 1]
    && p.decision.Decision? && p.decision.ip != "" && Strip(p.decision.port) != ""
    && match p.decision.insertBefore case Some(k) => p.place == k case None => p.place == -1
  }

  lemma {:induction false} PivotsAreNumbered(ds: seq<Decision>, p: Pivot)
    ensures p in PivotsFrom(ds) <==> NumberedIn(p, ds)
  {
    if ds != [] {
      PivotsAreNumbered(ds[..|ds| - 1], p);
    }
  }

  lemma {:induction false} PivotsAreDistinct(ds: seq<Decision>)
    ensures forall i, j :: 0 <= i < j < |PivotsFrom(ds)| ==> PivotsFrom(ds)[i].number < PivotsFrom(ds)[j].number
  {
    if ds != [] {
      PivotsAreDistinct(ds[..|ds| - 1]);
    }
  }

  lemma {:induction false} PivotsAreResolvable(ds: seq<Decision>, d: Decision)
    ensures (exists p :: p in PivotsFrom(ds) && p.decision == d) <==> d in ds && Resolvable(d)
  {
    if ds != [] {
      var init, last := ds[..|ds| - 1], ds[|ds| - 1];
      PivotsAreResolvable(init, d);
      assert ds == init + [last];
      if last == d && Resolvable(d) {
        assert Pivot(|ds|, PlaceOf(d), d) in PivotsFrom(ds);
      }
    }
  }

  lemma {:induction false} OwnStepsAreFirsts(ds: seq<Decision>, d: Decision)
    ensures d in OwnSteps(ds) <==> IsOwnStep(d) && FirstAbout(ds, GateOf(d)) == Some(d)
  {
    if ds != [] {
      OwnStepsAreFirsts(ds[..|ds| - 1], d);
    }
  }

  lemma {:induction false} FirstAboutIsEarliest(ds: seq<Decision>, g: Gate)
    ensures var f := FirstAbout(ds, g);
            && (f.None? <==> forall d :: d in ds && IsOwnStep(d) ==> GateOf(d) != g)
            && (f.Some? ==> f.value in ds && IsOwnStep(f.value) && GateOf(f.value) == g)
  {
    if ds != [] {
      FirstAboutIsEarliest(ds[..|ds| - 1], g);
      assert ds == ds[..|ds| - 1] + [ds[|ds| - 1]];
    }
  }

  /** The boundary gets a check of its own. */
  ghost predicate Checked(asgs: seq<Assignment>, g: Gate) {
    exists p :: p in Pivots(asgs) && p.decision.Decision? && GateOf(p.decision) == g
  }

  /** A boundary is checked exactly when the first decision about it is resolvable. */
  lemma CheckedIff(asgs: seq<Assignment>, g: Gate)
    ensures Checked(asgs, g) <==>
            FirstAbout(Decisions(asgs), g).Some? && Resolvable(FirstAbout(Decisions(asgs), g).value)
  {
    var ds := Decisions(asgs);
    var f := FirstAbout(ds, g);
    FirstAboutIsEarliest(ds, g);
    if f.Some? && Resolvable(f.value) {
      OwnStepsAreFirsts(ds, f.value);
      PivotsAreResolvable(OwnSteps(ds), f.value);
    }
    if Checked(asgs, g) {
      var p :| p in Pivots(asgs) && p.decision.Decision? && GateOf(p.decision) == g;
      PivotsAreResolvable(OwnSteps(ds), p.decision);
      OwnStepsAreFirsts(ds, p.decision);
    }
  }

  /** Two decisions about one boundary, only the second of which says where the
      provider is: the second is dropped as a repetition and nothing is checked. */
  lemma UnresolvedFirstHidesLater()
    ensures var first := Decision("own_step", "net", "fw", "", "22", Some(0));
            var second := Decision("own_step", "net", "fw", "10.0.0.1", "22", Some(0));
            var asgs := [Assignment("n1", [], [], [first, second], 0)];
            second in Decisions(asgs) && IsOwnStep(second) && Resolvable(second) && !Checked(asgs, GateOf(second))
  {
    var first := Decision("own_step", "net", "fw", "", "22", Some(0));
    var second := Decision("own_step", "net", "fw", "10.0.0.1", "22", Some(0));
    var asgs := [Assignment("n1", [], [], [first, second], 0)];
    var g := GateOf(second);
    StripKeepsTrimmed("own_step");
    StripKeepsTrimmed("22");
    assert Decisions(asgs[..0]) == [] && asgs[0].decisions == [first, second];
    var ds := Decisions(asgs);
    assert ds == [first, second];
    assert ds[..1] == [first] && [first][..0] == [];
    assert FirstAbout([first], g) == Some(first);
    CheckedIff(asgs, g);
  }

  // ----- the emitted commands -----

  datatype Command = CheckStep(check: Check) | SkipStep(check: Check) | CheckPivot(pivot: Pivot)

  function StepCommand(c: Check): Command {
    if c.body.skipReason != "" then SkipStep(c) else CheckStep(c)
  }

  function PivotCommands(ps: seq<Pivot>): seq<Command> {
    seq(|ps|, i requires 0 <= i < |ps| => CheckPivot(ps[i]))
  }

  /** The pivots of one place, in order. */
  function Group(pivots: seq<Pivot>, place: int): seq<Pivot> {
    if pivots == [] then []
    else
      var last := pivots[|pivots| - 1];
      Group(pivots[..|pivots| - 1], place) + (if last.place == place then [last] else [])
  }

  /** The places in use, in order of first appearance: the keys of the dict. */
  function Places(pivots: seq<Pivot>): seq<int> {
    if pivots == [] then []
    else
      var init, last := pivots[..|pivots| - 1], pivots[|pivots| - 1];
      Places(init) + (if Group(init, last.place) == [] then [last.place] else [])
  }

  predicate IsChainPlace(place: int, steps: nat) {
    0 <= place < steps
  }

  function Outside(places: seq<int>, steps: nat): seq<int> {
    if places == [] then []
    else
      var last := places[|places| - 1];
      Outside(places[..|places| - 1], steps) + (if IsChainPlace(last, steps) then [] else [last])
  }

  function Insert(k: int, sorted: seq<int>): seq<int> {
    if sorted == [] || k <= sorted[0] then [k] + sorted else [sorted[0]] + Insert(k, sorted[1..])
  }

  function Sorted(ks: seq<int>): seq<int> {
    if ks == [] then [] else Insert(ks[0], Sorted(ks[1..]))
  }

  /** The first `n` steps, each behind the pivots that gate it. */
  function Gated(pivots: seq<Pivot>, checks: seq<Check>, n: nat): seq<Command>
    requires n <= |checks|
  {
    if n == 0 then []
    else Gated(pivots, checks, n - 1) + PivotCommands(Group(pivots, n - 1)) + [StepCommand(checks[n - 1])]
  }

  function Groups(pivots: seq<Pivot>, places: seq<int>): seq<Pivot> {
    if places == [] then []
    else Groups(pivots, places[..|places| - 1]) + Group(pivots, places[|places| - 1])
  }

  /** The pivots that gate no step of the chain, by place. */
  function Rest(pivots: seq<Pivot>, steps: nat): seq<Pivot> {
    Groups(pivots, Sorted(Outside(Places(pivots), steps)))
  }

  function Script(pivots: seq<Pivot>, checks: seq<Check>): seq<Command> {
    Gated(pivots, checks, |checks|) + PivotCommands(Rest(pivots, |checks|))
  }

  ghost predicate HoldsGroup(groups: map<int, seq<Pivot>>, pivots: seq<Pivot>, place: int) {
    Group(pivots, place) == if place in groups then groups[place] else []
  }

  ghost predicate HoldsGroups(groups: map<int, seq<Pivot>>, pivots: seq<Pivot>) {
    forall place :: HoldsGroup(groups, pivots, place)
  }

  ghost predicate NoEmptyGroup(groups: map<int, seq<Pivot>>) {
    forall place :: place in groups ==> groups[place] != []
  }

  /** `pivots_by_index.setdefault(index, []).append(built)`; the dict and its keys. */
  method AddPivot(groups: map<int, seq<Pivot>>, places: seq<int>, ghost pivots: seq<Pivot>, p: Pivot)
    returns (groups': map<int, seq<Pivot>>, places': seq<int>)
    requires HoldsGroups(groups, pivots) && NoEmptyGroup(groups) && places == Places(pivots)
    ensures HoldsGroups(groups', pivots + [p]) && NoEmptyGroup(groups') && places' == Places(pivots + [p])
  {
    ghost var next := pivots + [p];
    assert next[..|next| - 1] == pivots;
    assert HoldsGroup(groups, pivots, p.place);
    if p.place in groups {
      groups', places' := groups[p.place := groups[p.place] + [p]], places;
    } else {
      groups', places' := groups[p.place := [p]], places + [p.place];
    }
    forall place ensures HoldsGroup(groups', next, place) {
      assert HoldsGroup(groups, pivots, place);
    }
  }

  lemma PivotsFromOneMore(ds: seq<Decision>, n: nat)
    requires n < |ds|
    ensures PivotsFrom(ds[..n + 1]) ==
            PivotsFrom(ds[..n]) + (if Resolvable(ds[n]) then [Pivot(n + 1, PlaceOf(ds[n]), ds[n])] else [])
  {
    TakeOneMore(ds, n);
  }

  method PlacePivots(asgs: seq<Assignment>)
    returns (groups: map<int, seq<Pivot>>, places: seq<int>, total: nat)
    ensures HoldsGroups(groups, Pivots(asgs)) && NoEmptyGroup(groups) && places == Places(Pivots(asgs))
    ensures total == |Pivots(asgs)|
  {
    groups, places, total := map[], [], 0;
    var ds := OwnStepPivots(asgs);
    for n := 0 to |ds|
      invariant HoldsGroups(groups, PivotsFrom(ds[..n])) && NoEmptyGroup(groups)
      invariant places == Places(PivotsFrom(ds[..n])) && total == |PivotsFrom(ds[..n])|
    {
      PivotsFromOneMore(ds, n);
      if Resolvable(ds[n]) {
        groups, places := AddPivot(groups, places, PivotsFrom(ds[..n]), Pivot(n + 1, PlaceOf(ds[n]), ds[n]));
        total := total + 1;
      } else {
        assert PivotsFrom(ds[..n + 1]) == PivotsFrom(ds[..n]);
      }
    }
    TakeAll(ds);
  }

  method EmitPivots(out: seq<Command>, groups: map<int, seq<Pivot>>, place: int, ghost pivots: seq<Pivot>)
    returns (out': seq<Command>)
    requires HoldsGroups(groups, pivots)
    ensures out' == out + PivotCommands(Group(pivots, place))
  {
    assert HoldsGroup(groups, pivots, place);
    out' := out;
    if place in groups {
      var ps := groups[place];
      for i := 0 to |ps|
        invariant out' == out + PivotCommands(ps)[..i]
      {
        out' := out' + [CheckPivot(ps[i])];
        TakeOneMore(PivotCommands(ps), i);
      }
    }
    assert out' == out + PivotCommands(Group(pivots, place));
  }

  method EmitRest(out: seq<Command>, groups: map<int, seq<Pivot>>, places: seq<int>, ghost pivots: seq<Pivot>)
    returns (out': seq<Command>)
    requires HoldsGroups(groups, pivots)
    ensures out' == out + PivotCommands(Groups(pivots, places))
  {
    out' := out;
    for i := 0 to |places|
      invariant out' == out + PivotCommands(Groups(pivots, places[..i]))
    {
      TakeOneMore(places, i);
      ghost var a, b := Groups(pivots, places[..i]), Group(pivots, places[i]);
      assert PivotCommands(a + b) == PivotCommands(a) + PivotCommands(b);
      out' := EmitPivots(out', groups, places[i], pivots);
    }
    TakeAll(places);
  }

  method EmitGated(groups: map<int, seq<Pivot>>, checks: seq<Check>, ghost pivots: seq<Pivot>) returns (out: seq<Command>)
    requires HoldsGroups(groups, pivots) && forall i :: 0 <= i < |checks| ==> checks[i].order == i + 1
    ensures out == Gated(pivots, checks, |checks|)
  {
    out := [];
    for i := 0 to |checks|
      invariant out == Gated(pivots, checks, i)
    {
      out := EmitPivots(out, groups, checks[i].order - 1, pivots);
      out := out + [StepCommand(checks[i])];
    }
  }

  /** Whether a command skips is a matter of its check's reason alone. */
  predicate FitsReason(c: Command) {
    match c
    case SkipStep(check) => check.body.skipReason != ""
    case CheckStep(check) => check.body.skipReason == ""
    case CheckPivot(_) => true
  }

  predicate AllFit(script: seq<Command>) {
    forall a :: 0 <= a < |script| ==> FitsReason(script[a])
  }

  lemma {:induction false} GatedFits(pivots: seq<Pivot>, checks: seq<Check>, n: nat)
    requires n <= |checks|
    ensures AllFit(Gated(pivots, checks, n))
  {
    if n > 0 {
      GatedFits(pivots, checks, n - 1);
    }
  }

  /** A step is skipped exactly when its check has a reason, and run otherwise. */
  lemma StepsFitReasons(pivots: seq<Pivot>, checks: seq<Check>)
    ensures AllFit(Script(pivots, checks))
  {
    GatedFits(pivots, checks, |checks|);
  }

  /** The commands of the script and the total its summary prints. */
  method BuildSolutionsScript(build: Builder, chain: seq<ChainNode>, asgs: seq<Assignment>)
    returns (script: seq<Command>, printedTotal: nat)
    ensures script == Script(Pivots(asgs), Checks(build, Kept(chain), asgs)) && AllFit(script)
    ensures printedTotal == |Checks(build, Kept(chain), asgs)| + |Pivots(asgs)|
  {
    var nodes := Kept(chain);
    var checks := BuildChecks(build, nodes, asgs);
    var groups, places, pivotTotal := PlacePivots(asgs);
    ghost var pivots := Pivots(asgs);
    script := EmitGated(groups, checks, pivots);
    script := EmitRest(script, groups, Sorted(Outside(places, |checks|)), pivots);
    StepsFitReasons(pivots, checks);
    printedTotal := |checks| + pivotTotal;
  }

  // ----- what the program consists of -----

  function StepsOf(script: seq<Command>): seq<Check> {
    if script == [] then []
    else
      var last := script[|script| - 1];
      StepsOf(script[..|script| - 1]) + (if last.CheckPivot? then [] else [last.check])
  }

  function PivotsOf(script: seq<Command>): seq<Pivot> {
    if script == [] then []
    else
      var last := script[|script| - 1];
      PivotsOf(script[..|script| - 1]) + (if last.CheckPivot? then [last.pivot] else [])
  }

  lemma {:induction false} PartsAppend(a: seq<Command>, b: seq<Command>)
    ensures StepsOf(a + b) == StepsOf(a) + StepsOf(b)
    ensures PivotsOf(a + b) == PivotsOf(a) + PivotsOf(b)
  {
    if b == [] {
      assert a + b == a;
    } else {
      assert (a + b)[..|a + b| - 1] == a + b[..|b| - 1];
      PartsAppend(a, b[..|b| - 1]);
    }
  }

  lemma {:induction false} PartsOfPivotCommands(ps: seq<Pivot>)
    ensures StepsOf(PivotCommands(ps)) == [] && PivotsOf(PivotCommands(ps)) == ps
  {
    if ps != [] {
      var init := ps[..|ps| - 1];
      PartsOfPivotCommands(init);
      assert PivotCommands(ps)[..|ps| - 1] == PivotCommands(init);
      assert ps == init + [ps[|ps| - 1]];
    }
  }

  lemma PartsOfOneStep(before: seq<Command>, group: seq<Pivot>, c: Check)
    ensures var all := before + PivotCommands(group) + [StepCommand(c)];
            StepsOf(all) == StepsOf(before) + [c] && PivotsOf(all) == PivotsOf(before) + group
  {
    PartsAppend(before, PivotCommands(group));
    PartsAppend(before + PivotCommands(group), [StepCommand(c)]);
    PartsOfPivotCommands(group);
  }

  /** 0, 1, ..., n - 1. */
  function UpTo(n: nat): seq<int> {
    seq(n, i => i)
  }

  lemma GroupsUpTo(pivots: seq<Pivot>, n: nat)
    requires n > 0
    ensures Groups(pivots, UpTo(n)) == Groups(pivots, UpTo(n - 1)) + Group(pivots, n - 1)
  {
    assert UpTo(n)[..n - 1] == UpTo(n - 1);
  }

  lemma {:induction false} PartsOfGated(pivots: seq<Pivot>, checks: seq<Check>, n: nat)
    requires n <= |checks|
    ensures StepsOf(Gated(pivots, checks, n)) == checks[..n]
    ensures PivotsOf(Gated(pivots, checks, n)) == Groups(pivots, UpTo(n))
  {
    if n > 0 {
      PartsOfGated(pivots, checks, n - 1);
      PartsOfOneStep(Gated(pivots, checks, n - 1), Group(pivots, n - 1), checks[n - 1]);
      GroupsUpTo(pivots, n);
      TakeOneMore(checks, n - 1);
    }
  }

  lemma PartsOfScript(pivots: seq<Pivot>, checks: seq<Check>)
    ensures StepsOf(Script(pivots, checks)) == checks
    ensures PivotsOf(Script(pivots, checks)) == Groups(pivots, UpTo(|checks|)) + Rest(pivots, |checks|)
  {
    PartsOfGated(pivots, checks, |checks|);
    PartsAppend(Gated(pivots, checks, |checks|), PivotCommands(Rest(pivots, |checks|)));
    PartsOfPivotCommands(Rest(pivots, |checks|));
  }

  // ----- every pivot exactly once -----

  lemma {:induction false} GroupCounts(pivots: seq<Pivot>, place: int, p: Pivot)
    ensures multiset(Group(pivots, place))[p] == if p.place == place then multiset(pivots)[p] else 0
  {
    if pivots != [] {
      var init, last := pivots[..|pivots| - 1], pivots[|pivots| - 1];
      GroupCounts(init, place, p);
      assert pivots == init + [last];
    }
  }

  lemma {:induction false} GroupsCount(pivots: seq<Pivot>, places: seq<int>, p: Pivot)
    requires Distinct(places)
    ensures multiset(Groups(pivots, places))[p] == if p.place in places then multiset(pivots)[p] else 0
  {
    if places != [] {
      var init, last := places[..|places| - 1], places[|places| - 1];
      GroupsCount(pivots, init, p);
      GroupCounts(pivots, last, p);
      assert places == init + [last];
      assert last !in init;
    }
  }

  lemma {:induction false} PlacesAreAll(pivots: seq<Pivot>)
    ensures Distinct(Places(pivots))
    ensures forall k :: k in Places(pivots) <==> Group(pivots, k) != []
  {
    if pivots != [] {
      PlacesAreAll(pivots[..|pivots| - 1]);
    }
  }

  lemma {:induction false} OutsideMembers(places: seq<int>, steps: nat)
    requires Distinct(places)
    ensures Distinct(Outside(places, steps))
    ensures forall k :: k in Outside(places, steps) <==> k in places && !IsChainPlace(k, steps)
  {
    if places != [] {
      var init, last := places[..|places| - 1], places[|places| - 1];
      OutsideMembers(init, steps);
      assert places == init + [last] && last !in init;
    }
  }

  predicate Ascending(ks: seq<int>) {
    forall i, j :: 0 <= i < j < |ks| ==> ks[i] < ks[j]
  }

  lemma {:induction false} InsertAscending(k: int, sorted: seq<int>)
    requires Ascending(sorted) && k !in sorted
    ensures Ascending(Insert(k, sorted))
    ensures forall x :: x in Insert(k, sorted) <==> x == k || x in sorted
  {
    if sorted != [] && k > sorted[0] {
      InsertAscending(k, sorted[1..]);
      assert sorted == [sorted[0]] + sorted[1..];
      var r := Insert(k, sorted[1..]);
      forall i | 0 <= i < |r| ensures sorted[0] < r[i] {
        assert r[i] in r;
      }
    }
  }

  lemma {:induction false} SortedAscending(ks: seq<int>)
    requires Distinct(ks)
    ensures Ascending(Sorted(ks))
    ensures forall x :: x in Sorted(ks) <==> x in ks
  {
    if ks != [] {
      SortedAscending(ks[1..]);
      assert ks == [ks[0]] + ks[1..];
      InsertAscending(ks[0], Sorted(ks[1..]));
    }
  }

  /** In ascending order, the places in use that are none of the chain's. */
  ghost predicate AreOutside(ks: seq<int>, pivots: seq<Pivot>, steps: nat) {
    Ascending(ks) && forall k :: k in ks <==> Group(pivots, k) != [] && !IsChainPlace(k, steps)
  }

  /** The places of the pivots at the end: all those outside the chain, ascending. */
  lemma RestPlaces(pivots: seq<Pivot>, steps: nat)
    ensures AreOutside(Sorted(Outside(Places(pivots), steps)), pivots, steps)
  {
    PlacesAreAll(pivots);
    OutsideMembers(Places(pivots), steps);
    SortedAscending(Outside(Places(pivots), steps));
  }

  lemma GroupEmptyIff(pivots: seq<Pivot>, p: Pivot)
    requires p in pivots
    ensures Group(pivots, p.place) != []
  {
    GroupCounts(pivots, p.place, p);
    assert p in multiset(pivots);
  }

  /** Whatever places the decisions name, each step of the chain and each pivot is
      emitted exactly once, the steps in chain order. */
  lemma EverythingOnce(pivots: seq<Pivot>, checks: seq<Check>)
    ensures StepsOf(Script(pivots, checks)) == checks
    ensures multiset(PivotsOf(Script(pivots, checks))) == multiset(pivots)
  {
    PartsOfScript(pivots, checks);
    forall p ensures multiset(PivotsOf(Script(pivots, checks)))[p] == multiset(pivots)[p] {
      OnePivotOnce(pivots, |checks|, p);
    }
  }

  lemma OnePivotOnce(pivots: seq<Pivot>, steps: nat, p: Pivot)
    ensures multiset(Groups(pivots, UpTo(steps)) + Rest(pivots, steps))[p] == multiset(pivots)[p]
  {
    var ks := Sorted(Outside(Places(pivots), steps));
    RestPlaces(pivots, steps);
    GroupsCount(pivots, UpTo(steps), p);
    GroupsCount(pivots, ks, p);
    assert p.place in UpTo(steps) <==> IsChainPlace(p.place, steps) by {
      assert IsChainPlace(p.place, steps) ==> UpTo(steps)[p.place] == p.place;
    }
    if p in pivots {
      GroupEmptyIff(pivots, p);
    }
  }

  // ----- pivots stand before the steps they gate -----

  /** What has run before position `a`: for a pivot that gates a step, exactly the
      steps before that one; for any other pivot, all steps. */
  predicate InPlace(script: seq<Command>, checks: seq<Check>, a: nat)
    requires a < |script|
  {
    script[a].CheckPivot? ==> StepsOf(script[..a]) == StepsDue(checks, script[a].pivot.place)
  }

  function StepsDue(checks: seq<Check>, place: int): seq<Check> {
    if IsChainPlace(place, |checks|) then checks[..place] else checks
  }

  lemma {:induction false} GroupHasPlace(pivots: seq<Pivot>, place: int)
    ensures forall p :: p in Group(pivots, place) ==> p.place == place
  {
    if pivots != [] {
      GroupHasPlace(pivots[..|pivots| - 1], place);
    }
  }

  lemma {:induction false} GroupsHavePlaces(pivots: seq<Pivot>, places: seq<int>)
    ensures forall p :: p in Groups(pivots, places) ==> p.place in places
  {
    if places != [] {
      GroupsHavePlaces(pivots, places[..|places| - 1]);
      GroupHasPlace(pivots, places[|places| - 1]);
    }
  }

  /** A run of pivot commands adds no step. */
  lemma StepsBeforePivot(before: seq<Command>, ps: seq<Pivot>, i: nat)
    requires i < |ps|
    ensures StepsOf((before + PivotCommands(ps))[..|before| + i]) == StepsOf(before)
  {
    assert (before + PivotCommands(ps))[..|before| + i] == before + PivotCommands(ps[..i]);
    PartsAppend(before, PivotCommands(ps[..i]));
    PartsOfPivotCommands(ps[..i]);
  }

  lemma InPlaceExtends(script: seq<Command>, more: seq<Command>, checks: seq<Check>, a: nat)
    requires a < |script| && InPlace(script, checks, a)
    ensures InPlace(script + more, checks, a)
  {
    assert (script + more)[..a] == script[..a];
  }

  /** A pivot in a run of pivots is in its place when the steps before the run are
      those due before it. */
  lemma RunInPlace(before: seq<Command>, ps: seq<Pivot>, checks: seq<Check>, i: nat)
    requires i < |ps| && StepsOf(before) == StepsDue(checks, ps[i].place)
    ensures InPlace(before + PivotCommands(ps), checks, |before| + i)
  {
    StepsBeforePivot(before, ps, i);
    assert (before + PivotCommands(ps))[|before| + i] == CheckPivot(ps[i]);
  }

  lemma {:induction false} GatedInPlace(pivots: seq<Pivot>, checks: seq<Check>, n: nat, a: nat)
    requires n <= |checks| && a < |Gated(pivots, checks, n)|
    ensures InPlace(Gated(pivots, checks, n), checks, a)
  {
    var before, group := Gated(pivots, checks, n - 1), Group(pivots, n - 1);
    var upTo := before + PivotCommands(group);
    if a < |before| {
      GatedInPlace(pivots, checks, n - 1, a);
      InPlaceExtends(before, PivotCommands(group), checks, a);
    } else if a < |upTo| {
      GateInPlace(before, group, pivots, checks, n - 1, a - |before|);
    }
    if a < |upTo| {
      InPlaceExtends(upTo, [StepCommand(checks[n - 1])], checks, a);
    }
  }

  lemma GateInPlace(before: seq<Command>, group: seq<Pivot>, pivots: seq<Pivot>, checks: seq<Check>, n: nat, i: nat)
    requires n < |checks| && i < |group|
    requires before == Gated(pivots, checks, n) && group == Group(pivots, n)
    ensures InPlace(before + PivotCommands(group), checks, |before| + i)
  {
    GroupHasPlace(pivots, n);
    PartsOfGated(pivots, checks, n);
    assert group[i].place == n;
    RunInPlace(before, group, checks, i);
  }

  /** Every pivot check runs after exactly the steps that precede the one it gates;
      one that gates no step of the chain runs after all of them. */
  lemma PivotsGateTheirStep(pivots: seq<Pivot>, checks: seq<Check>, a: nat)
    requires a < |Script(pivots, checks)|
    ensures InPlace(Script(pivots, checks), checks, a)
  {
    var before, rest := Gated(pivots, checks, |checks|), Rest(pivots, |checks|);
    if a < |before| {
      GatedInPlace(pivots, checks, |checks|, a);
      InPlaceExtends(before, PivotCommands(rest), checks, a);
    } else {
      RestInPlace(before, rest, pivots, checks, a - |before|);
    }
  }

  lemma RestInPlace(before: seq<Command>, rest: seq<Pivot>, pivots: seq<Pivot>, checks: seq<Check>, i: nat)
    requires before == Gated(pivots, checks, |checks|) && rest == Rest(pivots, |checks|) && i < |rest|
    ensures InPlace(before + PivotCommands(rest), checks, |before| + i)
  {
    RestIsOutside(pivots, |checks|, rest[i]);
    PartsOfGated(pivots, checks, |checks|);
    TakeAll(checks);
    RunInPlace(before, rest, checks, i);
  }

  /** A pivot whose decision names chain position `k` runs right before the step of that
      node, after exactly the earlier ones, if and only if no node before it was
      dropped for want of an id; otherwise the step it gates has run already. */
  lemma PivotGatesItsNodeIff(build: Builder, chain: seq<ChainNode>, asgs: seq<Assignment>, k: nat, a: nat)
    requires k < |chain| && HasId(chain[k])
    requires var script := Script(Pivots(asgs), Checks(build, Kept(chain), asgs));
             a < |script| && script[a].CheckPivot? && script[a].pivot.place == k
    ensures var checks, q := Checks(build, Kept(chain), asgs), |Kept(chain[..k])|;
            var before := StepsOf(Script(Pivots(asgs), checks)[..a]);
            && q < |checks| && Kept(chain)[q] == chain[k]
            && (before == checks[..q] <==> forall i :: 0 <= i < k ==> HasId(chain[i]))
            && (before != checks[..q] ==> checks[q] in before)
  {
    var checks, q := Checks(build, Kept(chain), asgs), |Kept(chain[..k])|;
    KeptPosition(chain, k);
    PivotsGateTheirStep(Pivots(asgs), checks, a);
    assert q <= k;
  }

  /** A pivot whose decision names no position, or none of the chain, runs after all steps. */
  lemma UnplacedPivotsComeLast(checks: seq<Check>, asgs: seq<Assignment>, a: nat)
    requires var script := Script(Pivots(asgs), checks); a < |script| && script[a].CheckPivot?
    ensures var script := Script(Pivots(asgs), checks);
            var d := script[a].pivot.decision;
            && d in OwnSteps(Decisions(asgs)) && d.Decision?
            && StepsOf(script[..a]) == match d.insertBefore
                                       case Some(k) => if 0 <= k < |checks| then checks[..k] else checks
                                       case None => checks
  {
    var pivots, ds := Pivots(asgs), OwnSteps(Decisions(asgs));
    var script := Script(pivots, checks);
    var p := script[a].pivot;
    PivotsGateTheirStep(pivots, checks, a);
    EverythingOnce(pivots, checks);
    EmittedIsPart(script, a);
    assert p in multiset(PivotsOf(script));
    assert p in pivots;
    PivotsAreNumbered(ds, p);
  }

  lemma {:induction false} EmittedIsPart(script: seq<Command>, a: nat)
    requires a < |script| && script[a].CheckPivot?
    ensures script[a].pivot in PivotsOf(script)
  {
    if a < |script| - 1 {
      EmittedIsPart(script[..|script| - 1], a);
    }
  }

  /** A pivot for the second node of a chain whose first has no id runs after it. */
  lemma PivotComesTooLate(build: Builder, n: ChainNode, d: Decision)
    requires HasId(n) && IsOwnStep(d) && Resolvable(d) && d.insertBefore == Some(1)
    ensures var chain, asgs := [BadNode, n], [Assignment("", [], [], [d], 0)];
            var checks := Checks(build, Kept(chain), asgs);
            && |checks| == 1 && Kept(chain) == [n]
            && Script(Pivots(asgs), checks) == [StepCommand(checks[0]), CheckPivot(Pivot(1, 1, d))]
  {
    var chain, asgs := [BadNode, n], [Assignment("", [], [], [d], 0)];
    var p := Pivot(1, 1, d);
    assert chain[..1] == [BadNode] && Kept([BadNode][..0]) == [] && Kept([BadNode]) == [];
    assert Kept(chain) == [] + [n];
    assert Decisions(asgs[..0]) == [] && asgs[0].decisions == [d];
    assert Decisions(asgs) == [] + [d];
    assert OwnSteps([d][..0]) == [] && FirstAbout([d][..0], GateOf(d)).None?;
    assert OwnSteps([d]) == [] + [d];
    assert PivotsFrom([d][..0]) == [] && PivotsFrom([d]) == [] + [p];
    LateScript(p, Checks(build, Kept(chain), asgs));
  }

  lemma LateScript(p: Pivot, checks: seq<Check>)
    requires p.place == 1 && |checks| == 1
    ensures Script([p], checks) == [StepCommand(checks[0]), CheckPivot(p)]
  {
    assert [p][..0] == [];
    assert Group([], 0) == [] && Group([], 1) == [] && Places([]) == [];
    assert Group([p], 0) == [] && Group([p], 1) == [] + [p] && Places([p]) == [] + [1];
    assert [1][..0] == [] && Outside([1], 1) == [] + [1];
    assert [1][1..] == [] && Sorted([1]) == [1];
    assert Groups([p], [1]) == [] + [p];
    assert Gated([p], checks, 1) == [] + [] + [StepCommand(checks[0])];
    assert PivotCommands([p]) == [CheckPivot(p)];
  }

  lemma RestIsOutside(pivots: seq<Pivot>, steps: nat, p: Pivot)
    requires p in Rest(pivots, steps)
    ensures !IsChainPlace(p.place, steps)
  {
    RestPlaces(pivots, steps);
    GroupsHavePlaces(pivots, Sorted(Outside(Places(pivots), steps)));
  }

  // ----- running the program -----

  datatype Status = Pass | Fail | Skip | Inconclusive

  /** `grep -qF`, for a text without newlines. */
  predicate Contains(text: string, part: string) {
    exists i :: 0 <= i <= |text| && part <= text[i..]
  }

  /** What a command records when its payload prints `output`. */
  function Verdict(c: Command, output: string): Status {
    match c
    case SkipStep(_) => Skip
    case CheckStep(check) =>
      if check.body.flag == "" then Inconclusive
      else if Contains(output, check.body.flag) then Pass
      else if output == "" then Fail
      else Inconclusive
    case CheckPivot(_) => if "PIVOT_OPEN" in SplitOn(output, '\n') then Pass else Fail
  }

  function Verdicts(script: seq<Command>, outputs: seq<string>): seq<Status>
    requires |outputs| == |script|
  {
    seq(|script|, i requires 0 <= i < |script| => Verdict(script[i], outputs[i]))
  }

  function Count(ss: seq<Status>, s: Status): nat {
    if ss == [] then 0 else Count(ss[..|ss| - 1], s) + (if ss[|ss| - 1] == s then 1 else 0)
  }

  /** The shell's variables. */
  class Shell {
    var pass: nat
    var fail: nat
    var skip: nat
    var inconclusive: nat

    ghost predicate Counted(ss: seq<Status>)
      reads this
    {
      pass == Count(ss, Pass) && fail == Count(ss, Fail) && skip == Count(ss, Skip) && inconclusive == Count(ss, Inconclusive)
    }

    constructor ()
      ensures Counted([])
    {
      pass, fail, skip, inconclusive := 0, 0, 0, 0;
    }

    method Record(status: Status, ghost done: seq<Status>)
      requires Counted(done)
      modifies this
      ensures Counted(done + [status])
    {
      assert (done + [status])[..|done|] == done;
      match status
      case Pass => pass := pass + 1;
      case Fail => fail := fail + 1;
      case Skip => skip := skip + 1;
      case Inconclusive => inconclusive := inconclusive + 1;
    }

    method CheckStep(flag: string, output: string, ghost done: seq<Status>, ghost c: Check)
      requires Counted(done) && flag == c.body.flag
      modifies this
      ensures Counted(done + [Verdict(Command.CheckStep(c), output)])
    {
      if flag == "" {
        Record(Inconclusive, done);
        return;
      }
      if Contains(output, flag) {
        Record(Pass, done);
      } else if output == "" {
        Record(Fail, done);
      } else {
        Record(Inconclusive, done);
      }
    }

    method CheckPivot(output: string, ghost done: seq<Status>, ghost p: Pivot)
      requires Counted(done)
      modifies this
      ensures Counted(done + [Verdict(Command.CheckPivot(p), output)])
    {
      if "PIVOT_OPEN" in SplitOn(output, '\n') {
        Record(Pass, done);
      } else {
        Record(Fail, done);
      }
    }

    /** Runs the commands in order, each payload printing the output given for it. */
    method Run(script: seq<Command>, outputs: seq<string>) returns (exitCode: nat)
      requires |outputs| == |script| && Counted([])
      modifies this
      ensures Counted(Verdicts(script, outputs))
      ensures exitCode == if Count(Verdicts(script, outputs), Fail) > 0 then 1 else 0
    {
      ghost var all := Verdicts(script, outputs);
      assert all[..0] == [];
      for n := 0 to |script|
        invariant Counted(all[..n])
      {
        TakeOneMore(all, n);
        match script[n] {
          case SkipStep(_) => Record(Skip, all[..n]);
          case CheckStep(c) => CheckStep(c.body.flag, outputs[n], all[..n], c);
          case CheckPivot(p) => CheckPivot(outputs[n], all[..n], p);
        }
      }
      TakeAll(all);
      if fail > 0 {
        return 1;
      }
      return 0;
    }
  }

  lemma {:induction false} CountsAddUp(ss: seq<Status>)
    ensures Count(ss, Pass) + Count(ss, Fail) + Count(ss, Inconclusive) + Count(ss, Skip) == |ss|
  {
    if ss != [] {
      CountsAddUp(ss[..|ss| - 1]);
    }
  }

  lemma {:induction false} CountPositive(ss: seq<Status>, s: Status)
    ensures Count(ss, s) > 0 <==> s in ss
  {
    if ss != [] {
      CountPositive(ss[..|ss| - 1], s);
      assert ss == ss[..|ss| - 1] + [ss[|ss| - 1]];
    }
  }

  lemma {:induction false} PartsAreAll(script: seq<Command>)
    ensures |StepsOf(script)| + |PivotsOf(script)| == |script|
  {
    if script != [] {
      PartsAreAll(script[..|script| - 1]);
    }
  }

  /** Whatever the payloads print, passed, failed, inconclusive and skipped add up
      to the total the summary prints. */
  lemma SummaryAddsUp(pivots: seq<Pivot>, checks: seq<Check>, outputs: seq<string>)
    requires |outputs| == |Script(pivots, checks)|
    ensures var ss := Verdicts(Script(pivots, checks), outputs);
            Count(ss, Pass) + Count(ss, Fail) + Count(ss, Inconclusive) + Count(ss, Skip) == |checks| + |pivots|
  {
    var script := Script(pivots, checks);
    CountsAddUp(Verdicts(script, outputs));
    PartsAreAll(script);
    EverythingOnce(pivots, checks);
    assert |multiset(PivotsOf(script))| == |multiset(pivots)|;
  }

  /** What makes a command a failure: a pivot whose provider never answered, or a
      step with a known flag whose entry point printed nothing. */
  predicate Broken(c: Command, output: string) {
    || (c.CheckPivot? && "PIVOT_OPEN" !in SplitOn(output, '\n'))
    || (c.CheckStep? && c.check.body.flag != "" && output == "")
  }

  /** The exit status is 1 exactly when some command found something broken; in
      particular a skipped or inconclusive step never fails the run. */
  lemma ExitMeaning(script: seq<Command>, outputs: seq<string>)
    requires |outputs| == |script|
    ensures Count(Verdicts(script, outputs), Fail) > 0 <==>
            exists n :: 0 <= n < |script| && Broken(script[n], outputs[n])
  {
    var ss := Verdicts(script, outputs);
    CountPositive(ss, Fail);
    forall n | 0 <= n < |script| ensures ss[n] == Fail <==> Broken(script[n], outputs[n]) {
    }
  }

  /** The text before and after an occurrence. */
  ghost predicate Occurs(part: string, text: string) {
    exists before, after :: text == before + part + after
  }

  lemma ContainsIff(text: string, part: string)
    ensures Contains(text, part) <==> Occurs(part, text)
  {
    if Contains(text, part) {
      var i :| 0 <= i <= |text| && part <= text[i..];
      assert text == text[..i] + part + text[i + |part|..];
    }
    if Occurs(part, text) {
      var before, after :| text == before + part + after;
      assert text[|before|..] == part + after;
    }
  }

  /** What each verdict says. A pass: the provider answered, or the expected flag was
      found. Inconclusive: no flag is expected, or something else was printed. */
  lemma VerdictMeaning(c: Command, output: string)
    ensures var v := Verdict(c, output);
            && (v == Skip <==> c.SkipStep?)
            && (v == Pass <==> || (c.CheckPivot? && "PIVOT_OPEN" in SplitOn(output, '\n'))
                               || (c.CheckStep? && c.check.body.flag != "" && Occurs(c.check.body.flag, output)))
            && (v == Fail <==> Broken(c, output))
            && (v == Inconclusive <==> c.CheckStep? && (c.check.body.flag == ""
                                                       || (output != "" && !Occurs(c.check.body.flag, output))))
  {
    if c.CheckStep? {
      ContainsIff(output, c.check.body.flag);
      if output == "" && c.check.body.flag != "" {
        assert !Contains(output, c.check.body.flag);
      }
    }
  }

  /** The checks with a reason to be skipped. */
  function Skipped(checks: seq<Check>): seq<Check> {
    if checks == [] then []
    else
      var last := checks[|checks| - 1];
      Skipped(checks[..|checks| - 1]) + if last.body.skipReason != "" then [last] else []
  }

  lemma SkippedGrows(checks: seq<Check>, c: Check)
    ensures Skipped(checks + [c]) == Skipped(checks) + if c.body.skipReason != "" then [c] else []
  {
    assert (checks + [c])[..|checks + [c]| - 1] == checks;
  }

  lemma {:induction false} SkipsOfScript(script: seq<Command>, outputs: seq<string>)
    requires |outputs| == |script| && AllFit(script)
    ensures Count(Verdicts(script, outputs), Skip) == |Skipped(StepsOf(script))|
  {
    if script != [] {
      var n := |script| - 1;
      assert Verdicts(script, outputs)[..n] == Verdicts(script[..n], outputs[..n]);
      SkipsOfScript(script[..n], outputs[..n]);
      assert FitsReason(script[n]) && Verdicts(script, outputs)[n] == Verdict(script[n], outputs[n]);
      var before := StepsOf(script[..n]);
      if script[n].CheckPivot? {
        assert before + [] == before;
      } else {
        SkippedGrows(before, script[n].check);
      }
    }
  }

  /** A run of the built script counts as many skipped steps as checks have a reason. */
  lemma SkippedAreThoseWithReason(pivots: seq<Pivot>, checks: seq<Check>, outputs: seq<string>)
    requires |outputs| == |Script(pivots, checks)|
    ensures Count(Verdicts(Script(pivots, checks), outputs), Skip) == |Skipped(checks)|
  {
    StepsFitReasons(pivots, checks);
    SkipsOfScript(Script(pivots, checks), outputs);
    EverythingOnce(pivots, checks);
  }

  /** In terms of the checks: the run fails exactly when a pivot did not answer, or the
      entry point of a step without a reason to be skipped and with a known flag printed
      nothing. */
  lemma ExitOfChecks(pivots: seq<Pivot>, checks: seq<Check>, outputs: seq<string>)
    requires |outputs| == |Script(pivots, checks)|
    ensures var script := Script(pivots, checks);
            Count(Verdicts(script, outputs), Fail) > 0 <==>
            exists n :: 0 <= n < |script| &&
              if script[n].CheckPivot? then "PIVOT_OPEN" !in SplitOn(outputs[n], '\n')
              else script[n].check.body.skipReason == "" && script[n].check.body.flag != "" && outputs[n] == ""
  {
    var script := Script(pivots, checks);
    StepsFitReasons(pivots, checks);
    ExitMeaning(script, outputs);
    forall n | 0 <= n < |script|
      ensures Broken(script[n], outputs[n]) <==>
              if script[n].CheckPivot? then "PIVOT_OPEN" !in SplitOn(outputs[n], '\n')
              else script[n].check.body.skipReason == "" && script[n].check.body.flag != "" && outputs[n] == ""
    {
      assert FitsReason(script[n]);
    }
  }
}
