/** The steps of the solutions script, each built from its node, its assignment and
    what came before (webapp/solutions_script.py). */
module SolutionsScript {
  import opened Optional
  import opened Sequences
  import opened Text

  // ----- inputs -----

  /** An entry of the chain; `rest` stands for the fields only the step builder reads. */
  datatype ChainNode = BadNode | ChainNode(id: string, rest: int)

  datatype Item = Item(key: string, value: string)

  /** A pivot decision. `ip` is empty when the provider has no valid IPv4 address,
      `insertBefore` is None when it does not read as a number. */
  datatype Decision =
    | BadDecision
    | Decision(disposition: string, subnet: string, provider: string,
               ip: string, port: string, insertBefore: Option<int>)

  datatype Assignment =
    | BadAssignment
    | Assignment(nodeId: string, outputs: seq<Item>, inputs: seq<Item>, decisions: seq<Decision>, rest: int)

  const EMPTY := Assignment("", [], [], [], 0)

  // ----- one assignment per step -----

  predicate HasId(n: ChainNode) {
    n.ChainNode? && Strip(n.id) != ""
  }

  /** The nodes the script covers. */
  function Kept(chain: seq<ChainNode>): (r: seq<ChainNode>)
    ensures |r| <= |chain| && forall n :: n in r ==> HasId(n)
  {
    if chain == [] then []
    else
      var last := chain[|chain| - 1];
      Kept(chain[..|chain| - 1]) + (if HasId(last) then [last] else [])
  }

  /** Exactly the nodes with an id that is not blank are covered. */
  lemma {:induction false} KeptIff(chain: seq<ChainNode>, n: ChainNode)
    ensures n in Kept(chain) <==> n in chain && n.ChainNode? && !AllSpace(n.id)
  {
    if chain != [] {
      var init, last := chain[..|chain| - 1], chain[|chain| - 1];
      KeptIff(init, n);
      assert chain == init + [last];
    }
    if n.ChainNode? {
      StripEmptyIff(n.id);
    }
  }

  predicate Names(a: Assignment, id: string) {
    id != "" && a.Assignment? && Strip(a.nodeId) == id
  }

  /** The first assignment that names a node. */
  function FirstNaming(asgs: seq<Assignment>, id: string): Option<Assignment> {
    if asgs == [] then None
    else
      var earlier := FirstNaming(asgs[..|asgs| - 1], id);
      if earlier.Some? then earlier
      else if Names(asgs[|asgs| - 1], id) then Some(asgs[|asgs| - 1])
      else None
  }

  lemma {:induction false} FirstNamingIsEarliest(asgs: seq<Assignment>, id: string)
    ensures FirstNaming(asgs, id).None? ==> forall a :: a in asgs ==> !Names(a, id)
    ensures FirstNaming(asgs, id).Some? ==>
              exists j :: 0 <= j < |asgs| && asgs[j] == FirstNaming(asgs, id).value && Names(asgs[j], id)
                          && forall i :: 0 <= i < j ==> !Names(asgs[i], id)
  {
    if asgs != [] {
      var init := asgs[..|asgs| - 1];
      FirstNamingIsEarliest(init, id);
      assert asgs == init + [asgs[|asgs| - 1]];
      if FirstNaming(init, id).Some? {
        var j :| 0 <= j < |init| && init[j] == FirstNaming(init, id).value && Names(init[j], id)
                 && forall i :: 0 <= i < j ==> !Names(init[i], id);
        assert asgs[j] == init[j];
      }
    }
  }

  /** The assignment by name, else the one in the same position, else an empty one. */
  function AlignedTo(node: ChainNode, asgs: seq<Assignment>, i: nat): Assignment {
    if node.BadNode? then EMPTY
    else if FirstNaming(asgs, Strip(node.id)).Some? then FirstNaming(asgs, Strip(node.id)).value
    else if i < |asgs| && asgs[i].Assignment? then asgs[i]
    else EMPTY
  }

  /** The assignment is for this node, blanks around the ids aside. */
  predicate IsFor(a: Assignment, node: ChainNode) {
    a.Assignment? && node.ChainNode? && Strip(a.nodeId) == Strip(node.id)
  }

  /** The first assignment that names the node, wherever it stands; without one, the
      usable one in the node's own position; else nothing. */
  lemma AlignedToMeaning(node: ChainNode, asgs: seq<Assignment>, i: nat)
    requires HasId(node)
    ensures var a := AlignedTo(node, asgs, i);
            if exists j :: 0 <= j < |asgs| && IsFor(asgs[j], node)
            then exists j :: 0 <= j < |asgs| && IsFor(asgs[j], node) && a == asgs[j]
                             && forall h :: 0 <= h < j ==> !IsFor(asgs[h], node)
            else a == if i < |asgs| && asgs[i].Assignment? then asgs[i] else EMPTY
  {
    FirstNamingIsEarliest(asgs, Strip(node.id));
    assert forall a :: a in asgs ==> (IsFor(a, node) <==> Names(a, Strip(node.id)));
  }

  function Aligned(nodes: seq<ChainNode>, asgs: seq<Assignment>): seq<Assignment> {
    seq(|nodes|, i requires 0 <= i < |nodes| => AlignedTo(nodes[i], asgs, i))
  }

  ghost predicate IndexesNames(byNode: map<string, Assignment>, asgs: seq<Assignment>) {
    forall id :: IndexesName(byNode, asgs, id)
  }

  ghost predicate IndexesName(byNode: map<string, Assignment>, asgs: seq<Assignment>, id: string) {
    FirstNaming(asgs, id) == if id in byNode then Some(byNode[id]) else None
  }

  method IndexByNode(asgs: seq<Assignment>) returns (byNode: map<string, Assignment>)
    ensures IndexesNames(byNode, asgs)
  {
    byNode := map[];
    for n := 0 to |asgs|
      invariant IndexesNames(byNode, asgs[..n])
    {
      TakeOneMore(asgs, n);
      ghost var before, next := byNode, asgs[..n + 1];
      if asgs[n].Assignment? {
        var id := Strip(asgs[n].nodeId);
        assert IndexesName(byNode, asgs[..n], id);
        if id != "" && id !in byNode {
          byNode := byNode[id := asgs[n]];
        }
      }
      forall id ensures IndexesName(byNode, next, id) {
        assert IndexesName(before, asgs[..n], id);
      }
    }
    TakeAll(asgs);
  }

  method AlignAssignments(nodes: seq<ChainNode>, asgs: seq<Assignment>) returns (aligned: seq<Assignment>)
    ensures aligned == Aligned(nodes, asgs)
  {
    var byNode := IndexByNode(asgs);
    aligned := [];
    for i := 0 to |nodes|
      invariant aligned == Aligned(nodes, asgs)[..i]
    {
      var source := EMPTY;
      if nodes[i].ChainNode? {
        var id := Strip(nodes[i].id);
        assert IndexesName(byNode, asgs, id);
        if id in byNode {
          source := byNode[id];
        } else if i < |asgs| && asgs[i].Assignment? {
          source := asgs[i];
        }
      }
      aligned := aligned + [source];
      TakeOneMore(Aligned(nodes, asgs), i);
    }
    TakeAll(Aligned(nodes, asgs));
  }

  // ----- facts gathered along the chain -----

  function WithoutBlanks(s: string): string {
    if s == "" then "" else (if IsSpace(s[0]) then "" else [s[0]]) + WithoutBlanks(s[1..])
  }

  /** The blank- and case-insensitive spelling of an artifact name. */
  function Canon(key: string): string {
    Lower(WithoutBlanks(Strip(key)))
  }

  lemma {:induction false} WithoutBlanksAppend(a: string, b: string)
    ensures WithoutBlanks(a + b) == WithoutBlanks(a) + WithoutBlanks(b)
  {
    if a == "" {
      assert a + b == b;
    } else {
      assert (a + b)[1..] == a[1..] + b;
      WithoutBlanksAppend(a[1..], b);
    }
  }

  lemma {:induction false} WithoutBlanksOfSpace(s: string)
    requires AllSpace(s)
    ensures WithoutBlanks(s) == ""
  {
    if s != "" {
      WithoutBlanksOfSpace(s[1..]);
    }
  }

  lemma CanonIsWithoutBlanks(s: string)
    ensures Canon(s) == Lower(WithoutBlanks(s))
  {
    var before, after := StripIsMiddle(s);
    WithoutBlanksAppend(before + Strip(s), after);
    WithoutBlanksAppend(before, Strip(s));
    WithoutBlanksOfSpace(before);
    WithoutBlanksOfSpace(after);
  }

  /** Blanks make no difference to a spelling, wherever they stand. */
  lemma CanonIgnoresBlanks(a: string, c: char, b: string)
    requires IsSpace(c)
    ensures Canon(a + [c] + b) == Canon(a + b)
  {
    CanonIsWithoutBlanks(a + [c] + b);
    CanonIsWithoutBlanks(a + b);
    WithoutBlanksAppend(a + [c], b);
    WithoutBlanksAppend(a, [c]);
    WithoutBlanksOfSpace([c]);
    WithoutBlanksAppend(a, b);
  }

  lemma {:induction false} WithoutBlanksOfSolid(s: string)
    requires forall i :: 0 <= i < |s| ==> !IsSpace(s[i])
    ensures WithoutBlanks(s) == s
  {
    if s != "" {
      WithoutBlanksOfSolid(s[1..]);
    }
  }

  /** Nor does case, and nothing else is dropped. */
  lemma CanonOfSolid(s: string)
    requires forall i :: 0 <= i < |s| ==> !IsSpace(s[i])
    ensures Canon(s) == Lower(s)
  {
    CanonIsWithoutBlanks(s);
    WithoutBlanksOfSolid(s);
  }

  predicate Offers(it: Item, fact: string) {
    Canon(it.key) == fact && Strip(it.value) != ""
  }

  type Facts = map<string, string>

  /** `known_facts.setdefault`, for a non-blank value. */
  function Learn(facts: Facts, it: Item): Facts {
    if Strip(it.value) == "" || Canon(it.key) in facts then facts
    else facts[Canon(it.key) := Strip(it.value)]
  }

  function LearnAll(facts: Facts, items: seq<Item>): Facts {
    if items == [] then facts else Learn(LearnAll(facts, items[..|items| - 1]), items[|items| - 1])
  }

  /** What an assignment has to tell, outputs before inputs. */
  function ItemsOf(a: Assignment): seq<Item> {
    if a.BadAssignment? then [] else a.outputs + a.inputs
  }

  function LearnFrom(facts: Facts, a: Assignment): Facts {
    LearnAll(facts, ItemsOf(a))
  }

  function Gathered(learn: (Facts, Assignment) -> Facts, aligned: seq<Assignment>, n: nat): Facts
    requires n <= |aligned|
  {
    if n == 0 then map[] else learn(Gathered(learn, aligned, n - 1), aligned[n - 1])
  }

  /** The facts known when step `n` is built. */
  function Known(aligned: seq<Assignment>, n: nat): Facts
    requires n <= |aligned|
  {
    Gathered(LearnFrom, aligned, n)
  }

  lemma {:induction false} LearnAppend(facts: Facts, a: seq<Item>, b: seq<Item>)
    ensures LearnAll(facts, a + b) == LearnAll(LearnAll(facts, a), b)
  {
    if b == [] {
      assert a + b == a;
    } else {
      var init := b[..|b| - 1];
      assert (a + b)[..|a + b| - 1] == a + init;
      LearnAppend(facts, a, init);
    }
  }

  /** A fact has the value of the first item that offers it, whatever is said later. */
  lemma {:induction false} EarliestOfferWins(items: seq<Item>, fact: string)
    ensures var facts := LearnAll(map[], items);
            if fact in facts then
              exists j :: 0 <= j < |items| && Offers(items[j], fact) && Strip(items[j].value) == facts[fact]
                          && forall i :: 0 <= i < j ==> !Offers(items[i], fact)
            else forall i :: 0 <= i < |items| ==> !Offers(items[i], fact)
  {
    if items != [] {
      var init, last := items[..|items| - 1], items[|items| - 1];
      EarliestOfferWins(init, fact);
      var facts := LearnAll(map[], init);
      if fact in facts {
        var j :| 0 <= j < |init| && Offers(init[j], fact) && Strip(init[j].value) == facts[fact]
                 && forall i :: 0 <= i < j ==> !Offers(init[i], fact);
        assert items[j] == init[j] && forall i :: 0 <= i < j ==> items[i] == init[i];
      } else {
        assert forall i :: 0 <= i < |init| ==> items[i] == init[i];
      }
    }
  }

  /** What an assignment tells by itself. */
  function Alone(a: Assignment): Facts {
    LearnAll(map[], ItemsOf(a))
  }

  /** Of what an assignment tells by itself, the outputs come before the inputs. */
  lemma OutputsBeforeInputs(a: Assignment, fact: string)
    requires a.Assignment?
    ensures var outputs, inputs := LearnAll(map[], a.outputs), LearnAll(map[], a.inputs);
            if fact in outputs then fact in Alone(a) && Alone(a)[fact] == outputs[fact]
            else (fact in Alone(a) <==> fact in inputs) && (fact in inputs ==> Alone(a)[fact] == inputs[fact])
  {
    LearnAppend(map[], a.outputs, a.inputs);
    LearnOne(LearnAll(map[], a.outputs), a.inputs, fact);
  }

  function EachAlone(aligned: seq<Assignment>): (r: seq<Facts>)
    ensures |r| == |aligned|
  {
    seq(|aligned|, i requires 0 <= i < |aligned| => Alone(aligned[i]))
  }

  /** A fact known before stays; another one is known now if it is told now. */
  predicate Grows(before: Facts, after: Facts, told: Facts, fact: string) {
    if fact in before then fact in after && after[fact] == before[fact]
    else (fact in after <==> fact in told) && (fact in after ==> after[fact] == told[fact])
  }

  /** Exactly what the first `n` tell of the fact is known, as first told. */
  ghost predicate FirstTold(tellings: seq<Facts>, n: nat, fact: string, facts: Facts)
    requires n <= |tellings|
  {
    if fact in facts then exists i :: 0 <= i < n && ToldFirst(tellings, i, fact, facts[fact])
    else forall i :: 0 <= i < n ==> fact !in tellings[i]
  }

  predicate ToldFirst(tellings: seq<Facts>, i: nat, fact: string, value: string)
    requires i < |tellings|
  {
    fact in tellings[i] && tellings[i][fact] == value && forall k :: 0 <= k < i ==> fact !in tellings[k]
  }

  lemma FirstToldGrows(tellings: seq<Facts>, n: nat, fact: string, before: Facts, after: Facts)
    requires n < |tellings| && FirstTold(tellings, n, fact, before) && Grows(before, after, tellings[n], fact)
    ensures FirstTold(tellings, n + 1, fact, after)
  {
    if fact in before {
      var i :| 0 <= i < n && ToldFirst(tellings, i, fact, before[fact]);
      assert ToldFirst(tellings, i, fact, after[fact]);
    } else if fact in after {
      assert ToldFirst(tellings, n, fact, after[fact]);
    }
  }

  /** Whatever way of learning only adds what is told, and only if it is not known. */
  lemma {:induction false} GatheredFromFirst(learn: (Facts, Assignment) -> Facts, aligned: seq<Assignment>,
                                            tellings: seq<Facts>, n: nat, fact: string)
    requires n <= |aligned| && |tellings| == |aligned|
    requires forall i, facts :: 0 <= i < n ==> Grows(facts, learn(facts, aligned[i]), tellings[i], fact)
    ensures FirstTold(tellings, n, fact, Gathered(learn, aligned, n))
  {
    if n > 0 {
      GatheredFromFirst(learn, aligned, tellings, n - 1, fact);
      FirstToldGrows(tellings, n - 1, fact, Gathered(learn, aligned, n - 1), Gathered(learn, aligned, n));
    }
  }

  /** A gate of step `n` is filled exactly when an earlier step tells the fact, and
      then with what the earliest such step told. */
  lemma GateValueComesFromEarliestStep(aligned: seq<Assignment>, n: nat, fact: string)
    requires n <= |aligned|
    ensures FirstTold(EachAlone(aligned), n, fact, Known(aligned, n))
  {
    forall i, facts | 0 <= i < n ensures Grows(facts, LearnFrom(facts, aligned[i]), EachAlone(aligned)[i], fact) {
      LearnOne(facts, ItemsOf(aligned[i]), fact);
    }
    GatheredFromFirst(LearnFrom, aligned, EachAlone(aligned), n, fact);
  }

  lemma {:induction false} LearnOne(facts: Facts, items: seq<Item>, fact: string)
    ensures Grows(facts, LearnAll(facts, items), LearnAll(map[], items), fact)
  {
    if items != [] {
      LearnOne(facts, items[..|items| - 1], fact);
    }
  }

  // ----- the steps -----

  /** What the step builder makes of one node; a skipped step carries a reason. */
  datatype Body = Body(flag: string, retrieval: string, skipReason: string)
  datatype Check = Check(order: nat, body: Body)
  type Builder = (nat, ChainNode, Assignment, Facts) -> Body

  function CheckAt(build: Builder, nodes: seq<ChainNode>, asgs: seq<Assignment>, i: nat): Check
    requires i < |nodes|
  {
    var aligned := Aligned(nodes, asgs);
    Check(i + 1, build(i + 1, nodes[i], aligned[i], Known(aligned, i)))
  }

  function Checks(build: Builder, nodes: seq<ChainNode>, asgs: seq<Assignment>): seq<Check> {
    seq(|nodes|, i requires 0 <= i < |nodes| => CheckAt(build, nodes, asgs, i))
  }

  /** The steps are numbered from 1, and each is built from its own number, node and
      assignment and from the facts as the earlier steps first told them. */
  lemma StepIsBuiltFromItsOwn(build: Builder, nodes: seq<ChainNode>, asgs: seq<Assignment>, i: nat) returns (facts: Facts)
    requires i < |nodes|
    ensures Checks(build, nodes, asgs)[i] == Check(i + 1, build(i + 1, nodes[i], AlignedTo(nodes[i], asgs, i), facts))
    ensures forall fact :: FirstTold(EachAlone(Aligned(nodes, asgs)), i, fact, facts)
  {
    var aligned := Aligned(nodes, asgs);
    facts := Known(aligned, i);
    forall fact ensures FirstTold(EachAlone(aligned), i, fact, facts) {
      GateValueComesFromEarliestStep(aligned, i, fact);
    }
  }

  method LearnItems(facts: Facts, items: seq<Item>) returns (more: Facts)
    ensures more == LearnAll(facts, items)
  {
    more := facts;
    for n := 0 to |items|
      invariant more == LearnAll(facts, items[..n])
    {
      TakeOneMore(items, n);
      var text := Strip(items[n].value);
      if text != "" && Canon(items[n].key) !in more {
        more := more[Canon(items[n].key) := text];
      }
    }
    TakeAll(items);
  }

  method BuildChecks(build: Builder, nodes: seq<ChainNode>, asgs: seq<Assignment>) returns (checks: seq<Check>)
    ensures checks == Checks(build, nodes, asgs)
  {
    var aligned := AlignAssignments(nodes, asgs);
    var known: Facts := map[];
    checks := [];
    for i := 0 to |nodes|
      invariant checks == Checks(build, nodes, asgs)[..i]
      invariant known == Known(aligned, i)
    {
      checks := checks + [Check(i + 1, build(i + 1, nodes[i], aligned[i], known))];
      TakeOneMore(Checks(build, nodes, asgs), i);
      if aligned[i].Assignment? {
        var told := aligned[i];
        LearnAppend(known, told.outputs, told.inputs);
        known := LearnItems(known, told.outputs);
        known := LearnItems(known, told.inputs);
      }
    }
    TakeAll(Checks(build, nodes, asgs));
  }

  lemma {:induction false} KnownByPrefix(a: seq<Assignment>, b: seq<Assignment>, n: nat)
    requires n <= |a| && n <= |b| && a[..n] == b[..n]
    ensures Known(a, n) == Known(b, n)
  {
    if n > 0 {
      assert a[n - 1] == a[..n][n - 1] == b[n - 1];
      assert a[..n - 1] == a[..n][..n - 1] == b[..n - 1];
      KnownByPrefix(a, b, n - 1);
    }
  }

  /** A step is a function of the chain up to itself: what comes later, in the
      chain or in what the later assignments tell, cannot change it. */
  lemma StepDependsOnPrefix(build: Builder, nodes: seq<ChainNode>, nodes': seq<ChainNode>,
                            asgs: seq<Assignment>, asgs': seq<Assignment>, i: nat)
    requires i < |nodes| && i < |nodes'| && nodes[..i + 1] == nodes'[..i + 1]
    requires Aligned(nodes, asgs)[..i + 1] == Aligned(nodes', asgs')[..i + 1]
    ensures Checks(build, nodes, asgs)[i] == Checks(build, nodes', asgs')[i]
  {
    var a, b := Aligned(nodes, asgs), Aligned(nodes', asgs');
    assert nodes[i] == nodes[..i + 1][i] == nodes'[i];
    assert a[i] == a[..i + 1][i] == b[i];
    assert a[..i] == a[..i + 1][..i] == b[..i];
    KnownByPrefix(a, b, i);
  }

  /** With the same assignments, the steps of a shorter chain are the first steps. */
  lemma ShorterChainSameSteps(build: Builder, nodes: seq<ChainNode>, asgs: seq<Assignment>, n: nat)
    requires n <= |nodes|
    ensures Checks(build, nodes[..n], asgs) == Checks(build, nodes, asgs)[..n]
  {
    forall i | 0 <= i < n
      ensures Checks(build, nodes[..n], asgs)[i] == Checks(build, nodes, asgs)[i]
    {
      assert nodes[..n][..i + 1] == nodes[..i + 1];
      StepDependsOnPrefix(build, nodes[..n], nodes, asgs, asgs, i);
    }
  }

  /** An index into the chain names the same node among those kept exactly when no
      earlier node was dropped. */
  lemma {:induction false} KeptPosition(chain: seq<ChainNode>, k: nat)
    requires k < |chain| && HasId(chain[k])
    ensures |Kept(chain[..k])| < |Kept(chain)| && Kept(chain)[|Kept(chain[..k])|] == chain[k]
    ensures |Kept(chain[..k])| == k <==> forall i :: 0 <= i < k ==> HasId(chain[i])
  {
    KeptCount(chain[..k]);
    KeptPlace(chain, k);
    assert forall i :: 0 <= i < k ==> chain[..k][i] == chain[i];
  }

  lemma {:induction false} KeptPlace(chain: seq<ChainNode>, k: nat)
    requires k < |chain| && HasId(chain[k])
    ensures |Kept(chain[..k])| < |Kept(chain)| && Kept(chain)[|Kept(chain[..k])|] == chain[k]
  {
    var init := chain[..|chain| - 1];
    if k < |init| {
      assert init[..k] == chain[..k];
      KeptPlace(init, k);
    }
  }

  lemma {:induction false} KeptCount(chain: seq<ChainNode>)
    ensures |Kept(chain)| == |chain| <==> forall i :: 0 <= i < |chain| ==> HasId(chain[i])
  {
    if chain != [] {
      var init := chain[..|chain| - 1];
      KeptCount(init);
      assert forall i :: 0 <= i < |init| ==> init[i] == chain[i];
    }
  }
}
