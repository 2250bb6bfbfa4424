/** The evaluator's attack graph: built, validated, and read back by a traversal
    (add-ons/exec-sim/attack_graph.py, dashboard.py). */
module AttackGraph {
  import opened Optional
  import opened Sequences
  import opened Text

  datatype Result<+T> = Success(value: T) | Failure(reason: Reason)
  datatype Reason = EmptyChain | Invalid

  /** An entry of the saved chain; all strings are already trimmed. */
  datatype RawNode = Junk | Raw(id: string, title: string, kind: string, isVuln: bool)

  /** An entry of the saved assignments: what a node's challenge needs and makes.
      `resolved` holds its resolved outputs, each value as it is displayed. */
  datatype Output = Output(key: string, value: string)
  datatype Assignment = Unusable | For(node: string, needs: seq<string>, makes: seq<string>, resolved: seq<Output>)

  datatype Node = Node(id: string, index: nat, title: string, kind: string, isVuln: bool)
  datatype Dependency = Dependency(index: nat, source: string, target: string, facts: seq<string>, resolved: seq<Output>)
  datatype Edge = Edge(index: nat, source: string, target: string, facts: seq<string>, resolved: seq<Output>)
  datatype Graph = Graph(order: seq<string>, nodes: seq<Node>, edges: seq<Edge>, dependencies: seq<Dependency>)

  type Assigned = map<string, Assignment>

  /** The ids that survive the filter on the raw chain. */
  function Ids(chain: seq<RawNode>): (r: seq<string>)
    ensures "" !in r
  {
    if chain == [] then []
    else
      var last := chain[|chain| - 1];
      Ids(chain[..|chain| - 1]) + if last.Junk? || last.id == "" then [] else [last.id]
  }

  /** The assignment of each node; a later one replaces an earlier one. */
  function ByNode(assignments: seq<Assignment>): Assigned {
    if assignments == [] then map[]
    else
      var a := assignments[|assignments| - 1];
      var before := ByNode(assignments[..|assignments| - 1]);
      if a.For? && a.node != "" then before[a.node := a] else before
  }

  /** The assignment is usable and for this node. */
  predicate IsFor(a: Assignment, id: string) {
    a.For? && id != "" && a.node == id
  }

  /** The last assignment for a node. */
  predicate LastFor(assignments: seq<Assignment>, id: string, k: nat) {
    k < |assignments| && IsFor(assignments[k], id) && forall l :: k < l < |assignments| ==> !IsFor(assignments[l], id)
  }

  /** A node has an assignment exactly when some usable one is for it, and then it is
      the last such. */
  lemma {:induction false} ByNodeIsLast(assignments: seq<Assignment>, id: string)
    ensures id in ByNode(assignments) <==> exists k :: 0 <= k < |assignments| && IsFor(assignments[k], id)
    ensures id in ByNode(assignments) ==>
              exists k: nat :: LastFor(assignments, id, k) && ByNode(assignments)[id] == assignments[k]
  {
    if assignments != [] {
      var n := |assignments| - 1;
      var init := assignments[..n];
      ByNodeIsLast(init, id);
      assert forall k :: 0 <= k < n ==> init[k] == assignments[k];
      if IsFor(assignments[n], id) {
        assert LastFor(assignments, id, n);
      } else if id in ByNode(init) {
        var k: nat :| LastFor(init, id, k) && ByNode(init)[id] == init[k];
        assert LastFor(assignments, id, k);
      }
    }
  }

  function Needs(asg: Assigned, id: string): seq<string> {
    if id in asg && asg[id].For? then asg[id].needs else []
  }

  function Makes(asg: Assigned, id: string): seq<string> {
    if id in asg && asg[id].For? then asg[id].makes else []
  }

  function Resolved(asg: Assigned, id: string): seq<Output> {
    if id in asg && asg[id].For? then asg[id].resolved else []
  }

  /** What a node needs, makes and resolves is what its last assignment says; without
      one it is nothing. */
  lemma AssignedIsLast(assignments: seq<Assignment>, id: string)
    ensures var asg := ByNode(assignments);
            if exists k :: 0 <= k < |assignments| && IsFor(assignments[k], id)
            then exists k: nat :: LastFor(assignments, id, k)
                   && Needs(asg, id) == assignments[k].needs && Makes(asg, id) == assignments[k].makes
                   && Resolved(asg, id) == assignments[k].resolved
            else Needs(asg, id) == [] && Makes(asg, id) == [] && Resolved(asg, id) == []
  {
    ByNodeIsLast(assignments, id);
  }

  /** `artifacts_resolved_kv`. */
  function Display(outputs: seq<Output>): seq<string> {
    seq(|outputs|, i requires 0 <= i < |outputs| => outputs[i].key + "=" + outputs[i].value)
  }

  // ----- reaching definitions -----

  /** The latest chain position before `i` that makes a fact. */
  function LastProducer(chain: seq<string>, asg: Assigned, i: nat, fact: string): (p: Option<nat>)
    requires i <= |chain|
    ensures p.Some? ==>
              && p.value < i && fact != "" && fact in Makes(asg, chain[p.value])
              && forall k :: p.value < k < i ==> fact !in Makes(asg, chain[k])
    ensures p.None? ==> fact == "" || forall k :: 0 <= k < i ==> fact !in Makes(asg, chain[k])
  {
    if i == 0 || fact == "" then None
    else if fact in Makes(asg, chain[i - 1]) then Some(i - 1)
    else LastProducer(chain, asg, i - 1, fact)
  }

  /** The facts position `i` needs whose latest producer is position `j`. */
  function FactsBetween(chain: seq<string>, asg: Assigned, i: nat, j: nat, needs: seq<string>): seq<string>
    requires i <= |chain|
  {
    if needs == [] then []
    else
      var f := needs[|needs| - 1];
      FactsBetween(chain, asg, i, j, needs[..|needs| - 1]) +
      if LastProducer(chain, asg, i, f) == Some(j) then [f] else []
  }

  function TheFacts(chain: seq<string>, asg: Assigned, i: nat, j: nat): seq<string>
    requires i < |chain|
  {
    FactsBetween(chain, asg, i, j, Needs(asg, chain[i]))
  }

  function TheDependency(chain: seq<string>, asg: Assigned, i: nat, j: nat): Dependency
    requires j < i < |chain|
  {
    Dependency(j + 1, chain[j], chain[i], TheFacts(chain, asg, i, j), Resolved(asg, chain[j]))
  }

  /** Some fact that position `i` needs was last made at position `j`. */
  predicate Connects(chain: seq<string>, asg: Assigned, i: nat, j: nat) {
    j < i < |chain| && TheFacts(chain, asg, i, j) != []
  }

  /** The record says that the node at `i` depends on the node at `j`, and why. */
  predicate Records(chain: seq<string>, asg: Assigned, i: nat, j: nat, d: Dependency) {
    Connects(chain, asg, i, j) && d == TheDependency(chain, asg, i, j)
  }

  ghost predicate Justified(chain: seq<string>, asg: Assigned, n: nat, d: Dependency) {
    exists i: nat, j: nat :: i < n && Records(chain, asg, i, j, d)
  }

  /** The records of the first `n` targets: one per pair of positions that some
      fact connects, carrying exactly the facts that connect it, and no other. */
  ghost predicate ReachingDefinitions(chain: seq<string>, asg: Assigned, n: nat, deps: seq<Dependency>)
    requires n <= |chain|
  {
    && (forall k :: 0 <= k < |deps| ==> Justified(chain, asg, n, deps[k]))
    && (forall i: nat, j: nat :: i < n && Connects(chain, asg, i, j) ==> TheDependency(chain, asg, i, j) in deps)
    && (forall k, l :: 0 <= k < l < |deps| ==>
          deps[k].source != deps[l].source || deps[k].target != deps[l].target)
  }

  /** What the producer map holds while target `i` is handled. */
  ghost predicate Produced(chain: seq<string>, asg: Assigned, i: nat, producers: map<string, string>)
    requires i <= |chain|
  {
    forall f :: (f in producers <==> LastProducer(chain, asg, i, f).Some?)
             && (f in producers ==> producers[f] == chain[LastProducer(chain, asg, i, f).value])
  }

  function FactsFrom(needs: seq<string>, producers: map<string, string>, source: string): seq<string> {
    if needs == [] then []
    else
      var f := needs[|needs| - 1];
      FactsFrom(needs[..|needs| - 1], producers, source) + if f in producers && producers[f] == source then [f] else []
  }

  lemma {:induction false} FactsFromIsFactsBetween(chain: seq<string>, asg: Assigned, i: nat, j: nat,
                                                  producers: map<string, string>, needs: seq<string>)
    requires Distinct(chain) && j < i <= |chain| && Produced(chain, asg, i, producers)
    ensures FactsFrom(needs, producers, chain[j]) == FactsBetween(chain, asg, i, j, needs)
  {
    if needs != [] {
      FactsFromIsFactsBetween(chain, asg, i, j, producers, needs[..|needs| - 1]);
      var f := needs[|needs| - 1];
      assert f in producers <==> LastProducer(chain, asg, i, f).Some?;
      if f in producers {
        var p := LastProducer(chain, asg, i, f).value;
        assert chain[p] == chain[j] <==> p == j;
      }
    }
  }

  predicate GroupOk(needs: seq<string>, producers: map<string, string>,
                    sources: seq<string>, facts: map<string, seq<string>>, source: string)
  {
    && (source in sources <==> source in facts)
    && (source in facts <==> FactsFrom(needs, producers, source) != [])
    && (source in facts ==> facts[source] == FactsFrom(needs, producers, source))
  }

  ghost predicate Grouped(needs: seq<string>, producers: map<string, string>,
                          sources: seq<string>, facts: map<string, seq<string>>)
  {
    Distinct(sources) && forall s :: GroupOk(needs, producers, sources, facts, s)
  }

  lemma GroupGrows(needs: seq<string>, f: string, producers: map<string, string>,
                   sources: seq<string>, facts: map<string, seq<string>>)
    requires Grouped(needs, producers, sources, facts)
    ensures f !in producers ==> Grouped(needs + [f], producers, sources, facts)
    ensures f in producers ==>
              var source := producers[f];
              Grouped(needs + [f], producers,
                      if source in facts then sources else sources + [source],
                      facts[source := (if source in facts then facts[source] else []) + [f]])
  {
    if f !in producers {
      forall s ensures GroupOk(needs + [f], producers, sources, facts, s) {
        assert GroupOk(needs, producers, sources, facts, s);
      }
    } else {
      var source := producers[f];
      var sources' := if source in facts then sources else sources + [source];
      var facts' := facts[source := (if source in facts then facts[source] else []) + [f]];
      assert GroupOk(needs, producers, sources, facts, source);
      forall s ensures GroupOk(needs + [f], producers, sources', facts', s) {
        assert GroupOk(needs, producers, sources, facts, s);
      }
    }
  }

  /** `dependency_facts`: the sources in order of appearance, each with its facts. */
  method GroupBySource(needs: seq<string>, producers: map<string, string>)
    returns (sources: seq<string>, facts: map<string, seq<string>>)
    requires forall f :: f in producers ==> producers[f] != ""
    ensures Grouped(needs, producers, sources, facts)
  {
    sources := [];
    facts := map[];
    for k := 0 to |needs|
      invariant Grouped(needs[..k], producers, sources, facts)
    {
      var fact := needs[k];
      GroupGrows(needs[..k], fact, producers, sources, facts);
      assert needs[..k + 1] == needs[..k] + [fact];
      var source := if fact in producers then producers[fact] else "";
      if source != "" {
        var listed := [];
        if source in facts {
          listed := facts[source];
        } else {
          sources := sources + [source];
        }
        facts := facts[source := listed + [fact]];
      }
    }
    assert needs[..|needs|] == needs;
  }

  function IndexOf(chain: seq<string>, id: string): (k: nat)
    requires id in chain
    ensures k < |chain| && chain[k] == id
  {
    if chain[0] == id then 0 else 1 + IndexOf(chain[1..], id)
  }

  /** The producer map after one more node. */
  method RecordProducts(chain: seq<string>, asg: Assigned, i: nat, before: map<string, string>)
    returns (producers: map<string, string>)
    requires i < |chain| && Produced(chain, asg, i, before)
    ensures Produced(chain, asg, i + 1, producers)
  {
    producers := before;
    var makes := Makes(asg, chain[i]);
    for k := 0 to |makes|
      invariant MadeBy(makes[..k], chain[i], before, producers)
    {
      assert makes[..k + 1] == makes[..k] + [makes[k]];
      if makes[k] != "" {
        producers := producers[makes[k] := chain[i]];
      }
    }
    assert makes[..|makes|] == makes;
    ProducedGrows(chain, asg, i, before, producers);
  }

  ghost predicate MadeBy(makes: seq<string>, node: string, before: map<string, string>, producers: map<string, string>) {
    && (forall f :: f in producers <==> (f != "" && f in makes) || f in before)
    && (forall f :: f in producers ==> producers[f] == if f != "" && f in makes then node else before[f])
  }

  lemma ProducedGrows(chain: seq<string>, asg: Assigned, i: nat, before: map<string, string>, producers: map<string, string>)
    requires i < |chain| && Produced(chain, asg, i, before)
    requires MadeBy(Makes(asg, chain[i]), chain[i], before, producers)
    ensures Produced(chain, asg, i + 1, producers)
  {
    forall f ensures (f in producers <==> LastProducer(chain, asg, i + 1, f).Some?)
                  && (f in producers ==> producers[f] == chain[LastProducer(chain, asg, i + 1, f).value])
    {
      assert f in before <==> LastProducer(chain, asg, i, f).Some?;
    }
  }

  /** The record for one source of a target. */
  function RecordFor(chain: seq<string>, asg: Assigned, target: string, source: string,
                     facts: map<string, seq<string>>): Dependency
    requires source in chain && source in facts
  {
    Dependency(IndexOf(chain, source) + 1, source, target, facts[source], Resolved(asg, source))
  }

  /** The second loop of `attack_graph_from_flow_state`. */
  method FactDependencies(chain: seq<string>, asg: Assigned) returns (deps: seq<Dependency>)
    requires "" !in chain
    ensures Distinct(chain) ==> ReachingDefinitions(chain, asg, |chain|, deps)
  {
    deps := [];
    var producers: map<string, string> := map[];
    for i := 0 to |chain|
      invariant Produced(chain, asg, i, producers)
      invariant Distinct(chain) ==> ReachingDefinitions(chain, asg, i, deps)
    {
      ProducersInChain(chain, asg, i, producers);
      var needs := Needs(asg, chain[i]);
      var sources, facts := GroupBySource(needs, producers);
      GroupsInChain(chain, needs, producers, sources, facts);
      var records := seq(|sources|, k requires 0 <= k < |sources| => RecordFor(chain, asg, chain[i], sources[k], facts));
      if Distinct(chain) {
        RecordsOfTarget(chain, asg, i, producers, sources, facts, records);
        ReachingDefinitionsGrow(chain, asg, i, deps, records);
      }
      deps := deps + records;
      producers := RecordProducts(chain, asg, i, producers);
    }
  }

  lemma ProducersInChain(chain: seq<string>, asg: Assigned, i: nat, producers: map<string, string>)
    requires "" !in chain && i <= |chain| && Produced(chain, asg, i, producers)
    ensures forall f :: f in producers ==> producers[f] != "" && producers[f] in chain
  {
    forall f | f in producers ensures producers[f] != "" && producers[f] in chain {
      assert LastProducer(chain, asg, i, f).Some?;
    }
  }

  lemma GroupsInChain(chain: seq<string>, needs: seq<string>, producers: map<string, string>,
                      sources: seq<string>, facts: map<string, seq<string>>)
    requires forall f :: f in producers ==> producers[f] in chain
    requires Grouped(needs, producers, sources, facts)
    ensures forall k :: 0 <= k < |sources| ==> sources[k] in chain && sources[k] in facts
  {
    forall k | 0 <= k < |sources| ensures sources[k] in chain && sources[k] in facts {
      assert GroupOk(needs, producers, sources, facts, sources[k]);
      SourceInChain(needs, producers, sources[k], chain);
    }
  }

  lemma {:induction false} SourceInChain(needs: seq<string>, producers: map<string, string>, source: string, chain: seq<string>)
    requires forall f :: f in producers ==> producers[f] in chain
    requires FactsFrom(needs, producers, source) != []
    ensures source in chain
  {
    if needs != [] && FactsFrom(needs[..|needs| - 1], producers, source) != [] {
      SourceInChain(needs[..|needs| - 1], producers, source, chain);
    }
  }

  ghost predicate Recorded(chain: seq<string>, asg: Assigned, i: nat, d: Dependency) {
    exists j: nat :: Records(chain, asg, i, j, d)
  }

  /** The records of one target. */
  ghost predicate RecordsOf(chain: seq<string>, asg: Assigned, i: nat, records: seq<Dependency>) {
    && (forall k :: 0 <= k < |records| ==> Recorded(chain, asg, i, records[k]))
    && (forall j: nat :: Connects(chain, asg, i, j) ==> TheDependency(chain, asg, i, j) in records)
    && (forall k, l :: 0 <= k < l < |records| ==> records[k].source != records[l].source)
  }

  lemma RecordsOfTarget(chain: seq<string>, asg: Assigned, i: nat, producers: map<string, string>,
                        sources: seq<string>, facts: map<string, seq<string>>, records: seq<Dependency>)
    requires Distinct(chain) && i < |chain| && Produced(chain, asg, i, producers)
    requires Grouped(Needs(asg, chain[i]), producers, sources, facts)
    requires forall k :: 0 <= k < |sources| ==> sources[k] in chain && sources[k] in facts
    requires |records| == |sources| && forall k :: 0 <= k < |sources| ==>
               records[k] == RecordFor(chain, asg, chain[i], sources[k], facts)
    ensures RecordsOf(chain, asg, i, records)
  {
    var needs := Needs(asg, chain[i]);
    forall k | 0 <= k < |records| ensures Recorded(chain, asg, i, records[k]) {
      assert GroupOk(needs, producers, sources, facts, sources[k]);
      var j := SourcePosition(chain, asg, i, producers, needs, sources[k]);
      RecordIsRight(chain, asg, i, j, producers, sources, facts);
      assert Records(chain, asg, i, j, records[k]);
    }
    forall j: nat | Connects(chain, asg, i, j) ensures TheDependency(chain, asg, i, j) in records {
      FactsFromIsFactsBetween(chain, asg, i, j, producers, needs);
      assert GroupOk(needs, producers, sources, facts, chain[j]);
      RecordIsRight(chain, asg, i, j, producers, sources, facts);
      var k :| 0 <= k < |sources| && sources[k] == chain[j];
      assert records[k] == TheDependency(chain, asg, i, j);
    }
  }

  lemma RecordIsRight(chain: seq<string>, asg: Assigned, i: nat, j: nat, producers: map<string, string>,
                      sources: seq<string>, facts: map<string, seq<string>>)
    requires Distinct(chain) && j < i < |chain| && Produced(chain, asg, i, producers)
    requires Grouped(Needs(asg, chain[i]), producers, sources, facts) && chain[j] in sources
    ensures chain[j] in facts && Connects(chain, asg, i, j)
    ensures RecordFor(chain, asg, chain[i], chain[j], facts) == TheDependency(chain, asg, i, j)
  {
    var needs := Needs(asg, chain[i]);
    assert GroupOk(needs, producers, sources, facts, chain[j]);
    FactsFromIsFactsBetween(chain, asg, i, j, producers, needs);
    var k := IndexOf(chain, chain[j]);
    assert k == j;
  }

  lemma {:induction false} SourcePosition(chain: seq<string>, asg: Assigned, i: nat, producers: map<string, string>,
                                         needs: seq<string>, source: string) returns (j: nat)
    requires i <= |chain| && Produced(chain, asg, i, producers) && FactsFrom(needs, producers, source) != []
    ensures j < i && chain[j] == source
  {
    var f := needs[|needs| - 1];
    if f in producers && producers[f] == source {
      j := LastProducer(chain, asg, i, f).value;
    } else {
      j := SourcePosition(chain, asg, i, producers, needs[..|needs| - 1], source);
    }
  }

  lemma ReachingDefinitionsGrow(chain: seq<string>, asg: Assigned, i: nat, deps: seq<Dependency>, records: seq<Dependency>)
    requires Distinct(chain) && i < |chain|
    requires ReachingDefinitions(chain, asg, i, deps) && RecordsOf(chain, asg, i, records)
    ensures ReachingDefinitions(chain, asg, i + 1, deps + records)
  {
    var all := deps + records;
    forall k | 0 <= k < |all| ensures Justified(chain, asg, i + 1, all[k]) {
      if k < |deps| {
        assert Justified(chain, asg, i, deps[k]);
      } else {
        assert all[k] == records[k - |deps|] && Recorded(chain, asg, i, records[k - |deps|]);
        var j: nat :| Records(chain, asg, i, j, records[k - |deps|]);
      }
    }
    forall k, l | 0 <= k < l < |all| ensures all[k].source != all[l].source || all[k].target != all[l].target {
      if k < |deps| && l >= |deps| {
        OldTargetsDiffer(chain, asg, i, deps, records, k, l - |deps|);
      }
    }
  }

  lemma OldTargetsDiffer(chain: seq<string>, asg: Assigned, i: nat, deps: seq<Dependency>, records: seq<Dependency>,
                         k: nat, l: nat)
    requires Distinct(chain) && i < |chain| && k < |deps| && l < |records|
    requires ReachingDefinitions(chain, asg, i, deps) && RecordsOf(chain, asg, i, records)
    ensures deps[k].target != records[l].target
  {
    assert Justified(chain, asg, i, deps[k]);
    var i': nat, j': nat :| i' < i && Records(chain, asg, i', j', deps[k]);
    assert Recorded(chain, asg, i, records[l]);
    var j: nat :| Records(chain, asg, i, j, records[l]);
    assert chain[i'] != chain[i];
  }

  // ----- the graph and its validator -----

  predicate Usable(raw: RawNode) {
    raw.Raw? && raw.id != ""
  }

  /** The node made of the entry at position `i` of the saved chain. */
  predicate MadeOf(n: Node, raw: RawNode, i: nat) {
    && Usable(raw) && n.id == raw.id && n.index == i + 1
    && n.title == (if raw.title != "" then raw.title else raw.id)
    && n.kind == raw.kind && n.isVuln == raw.isVuln
  }

  predicate ComesFrom(n: Node, chain: seq<RawNode>) {
    0 < n.index <= |chain| && MadeOf(n, chain[n.index - 1], n.index - 1)
  }

  predicate IndexesAscend(nodes: seq<Node>) {
    forall k, l :: 0 <= k < l < |nodes| ==> nodes[k].index < nodes[l].index
  }

  ghost predicate Listed(nodes: seq<Node>, i: nat) {
    exists n :: n in nodes && n.index == i + 1
  }

  /** The nodes are those of the usable entries, in order and numbered by position. */
  ghost predicate NodesOf(nodes: seq<Node>, chain: seq<RawNode>) {
    && (forall k :: 0 <= k < |nodes| ==> ComesFrom(nodes[k], chain)) && IndexesAscend(nodes)
    && (forall i: nat :: i < |chain| && Usable(chain[i]) ==> Listed(nodes, i))
  }

  lemma ListedStays(nodes: seq<Node>, n: Node, i: nat)
    requires Listed(nodes, i) || n.index == i + 1
    ensures Listed(nodes + [n], i)
  {
    if Listed(nodes, i) {
      var x :| x in nodes && x.index == i + 1;
      assert x in nodes + [n];
    } else {
      assert n in nodes + [n];
    }
  }

  lemma SkipNode(nodes: seq<Node>, chain: seq<RawNode>, raw: RawNode)
    requires NodesOf(nodes, chain) && !Usable(raw)
    ensures NodesOf(nodes, chain + [raw])
  {
    forall k | 0 <= k < |nodes| ensures ComesFrom(nodes[k], chain + [raw]) {
      assert ComesFrom(nodes[k], chain);
    }
  }

  lemma AddNode(nodes: seq<Node>, chain: seq<RawNode>, raw: RawNode, n: Node)
    requires NodesOf(nodes, chain) && MadeOf(n, raw, |chain|)
    ensures NodesOf(nodes + [n], chain + [raw])
  {
    var more, all := nodes + [n], chain + [raw];
    forall k | 0 <= k < |more| ensures ComesFrom(more[k], all) {
      assert k < |nodes| ==> ComesFrom(nodes[k], chain);
    }
    forall k, l | 0 <= k < l < |more| ensures more[k].index < more[l].index {
      assert ComesFrom(nodes[k], chain);
    }
    forall i: nat | i < |all| && Usable(all[i]) ensures Listed(more, i) {
      ListedStays(nodes, n, i);
    }
  }

  function NodeFrom(raw: RawNode, i: nat): Node
    requires raw.Raw?
  {
    Node(raw.id, i + 1, if raw.title != "" then raw.title else raw.id, raw.kind, raw.isVuln)
  }

  function NodesFrom(chain: seq<RawNode>): (r: seq<Node>)
    ensures |r| == |Ids(chain)| && forall k :: 0 <= k < |r| ==> r[k].id == Ids(chain)[k]
  {
    if chain == [] then []
    else
      var last := chain[|chain| - 1];
      NodesFrom(chain[..|chain| - 1]) + if last.Junk? || last.id == "" then [] else [NodeFrom(last, |chain| - 1)]
  }

  lemma OneMoreEntry(nodes: seq<Node>, chain: seq<RawNode>, raw: RawNode)
    requires NodesOf(nodes, chain)
    ensures NodesOf(nodes + if raw.Junk? || raw.id == "" then [] else [NodeFrom(raw, |chain|)], chain + [raw])
  {
    if Usable(raw) {
      AddNode(nodes, chain, raw, NodeFrom(raw, |chain|));
    } else {
      SkipNode(nodes, chain, raw);
      assert nodes + [] == nodes;
    }
  }

  lemma {:induction false} NodesAreUsableEntries(chain: seq<RawNode>)
    ensures NodesOf(NodesFrom(chain), chain)
  {
    if chain != [] {
      var init, last := chain[..|chain| - 1], chain[|chain| - 1];
      NodesAreUsableEntries(init);
      OneMoreEntry(NodesFrom(init), init, last);
      assert chain == init + [last];
    }
  }

  /** The first loop: the nodes of the chain in order. */
  method NodesOfChain(chain: seq<RawNode>) returns (order: seq<string>, nodes: seq<Node>)
    ensures order == Ids(chain) && nodes == NodesFrom(chain)
  {
    order := [];
    nodes := [];
    for i := 0 to |chain|
      invariant order == Ids(chain[..i]) && nodes == NodesFrom(chain[..i])
    {
      TakeOneMore(chain, i);
      var raw := chain[i];
      if raw.Junk? || raw.id == "" {
        continue;
      }
      order := order + [raw.id];
      nodes := nodes + [Node(raw.id, i + 1, if raw.title != "" then raw.title else raw.id, raw.kind, raw.isVuln)];
    }
    TakeAll(chain);
  }

  /** `dependency_by_pair`: the last record for a pair. */
  function ForPair(deps: seq<Dependency>, source: string, target: string): Option<Dependency> {
    if deps == [] then None
    else
      var d := deps[|deps| - 1];
      if d.source == source && d.target == target then Some(d) else ForPair(deps[..|deps| - 1], source, target)
  }

  /** The sequence edge from position `k` to the next. */
  function EdgeAt(order: seq<string>, deps: seq<Dependency>, k: nat): Edge
    requires k + 1 < |order|
  {
    var d := ForPair(deps, order[k], order[k + 1]);
    Edge(k + 1, order[k], order[k + 1],
         if d.Some? then d.value.facts else [], if d.Some? then d.value.resolved else [])
  }

  function EdgesOf(order: seq<string>, deps: seq<Dependency>): seq<Edge> {
    seq(if order == [] then 0 else |order| - 1, k requires 0 <= k < |order| - 1 => EdgeAt(order, deps, k))
  }

  /** What the schema and the validator check of the parts modelled here. */
  predicate Valid(g: Graph) {
    && "" !in g.order && Distinct(g.order)
    && (forall k :: 0 <= k < |g.dependencies| ==> ListsAreSets(g.dependencies[k].facts, g.dependencies[k].resolved))
    && (forall k :: 0 <= k < |g.edges| ==> ListsAreSets(g.edges[k].facts, g.edges[k].resolved))
    && PathInvariants(g)
  }

  /** The schema's string lists: no empty and no repeated entry. */
  predicate ListsAreSets(facts: seq<string>, resolved: seq<Output>) {
    Distinct(facts) && "" !in facts && Distinct(Display(resolved)) && "" !in Display(resolved)
  }

  /** Nodes in chain order, and edges exactly the consecutive pairs. */
  predicate PathInvariants(g: Graph) {
    && |g.nodes| == |g.order|
    && (forall k :: 0 <= k < |g.nodes| ==> g.nodes[k].id == g.order[k])
    && |g.edges| == (if g.order == [] then 0 else |g.order| - 1)
    && (forall k :: 0 <= k < |g.edges| ==> g.edges[k].source == g.order[k] && g.edges[k].target == g.order[k + 1])
  }

  /** No node lists a requirement twice that an earlier node makes. */
  predicate NoRepeatedNeed(chain: seq<string>, asg: Assigned) {
    forall i :: 0 <= i < |chain| ==>
      forall a, b :: 0 <= a < b < |Needs(asg, chain[i])| ==>
        Needs(asg, chain[i])[a] == Needs(asg, chain[i])[b] ==>
        LastProducer(chain, asg, i, Needs(asg, chain[i])[a]).None?
  }

  /** No producer that a later node depends on displays two outputs alike. */
  ghost predicate OutputsShownOnce(chain: seq<string>, asg: Assigned) {
    forall i: nat, j: nat :: Connects(chain, asg, i, j) ==> Distinct(Display(Resolved(asg, chain[j])))
  }

  lemma {:induction false} FactsBetweenMembers(chain: seq<string>, asg: Assigned, i: nat, j: nat, needs: seq<string>, f: string)
    requires i <= |chain|
    ensures f in FactsBetween(chain, asg, i, j, needs) <==> f in needs && LastProducer(chain, asg, i, f) == Some(j)
  {
    if needs != [] {
      FactsBetweenMembers(chain, asg, i, j, needs[..|needs| - 1], f);
      assert needs == needs[..|needs| - 1] + [needs[|needs| - 1]];
    }
  }

  lemma DistinctGrows<T>(s: seq<T>, x: T)
    ensures Distinct(s + [x]) <==> Distinct(s) && x !in s
  {
    var t := s + [x];
    if Distinct(t) {
      assert forall i :: 0 <= i < |s| ==> s[i] == t[i] && t[i] != t[|s|];
    }
  }

  /** No fact is needed twice that position `j` is the latest to make. */
  predicate NeededOnce(chain: seq<string>, asg: Assigned, i: nat, j: nat, needs: seq<string>)
    requires i <= |chain|
  {
    forall a, b :: 0 <= a < b < |needs| && needs[a] == needs[b] ==> LastProducer(chain, asg, i, needs[a]) != Some(j)
  }

  lemma NeededOnceGrows(chain: seq<string>, asg: Assigned, i: nat, j: nat, needs: seq<string>, f: string)
    requires i <= |chain|
    ensures NeededOnce(chain, asg, i, j, needs + [f]) <==>
            NeededOnce(chain, asg, i, j, needs) && !(f in needs && LastProducer(chain, asg, i, f) == Some(j))
  {
    var all := needs + [f];
    assert forall a :: 0 <= a < |needs| ==> all[a] == needs[a];
    assert all[|needs|] == f;
    if NeededOnce(chain, asg, i, j, all) && f in needs {
      var a :| 0 <= a < |needs| && needs[a] == f;
      assert all[a] == all[|needs|];
    }
  }

  lemma {:induction false} FactsBetweenDistinct(chain: seq<string>, asg: Assigned, i: nat, j: nat, needs: seq<string>)
    requires i <= |chain|
    ensures Distinct(FactsBetween(chain, asg, i, j, needs)) <==> NeededOnce(chain, asg, i, j, needs)
  {
    if needs != [] {
      var init, f := needs[..|needs| - 1], needs[|needs| - 1];
      assert needs == init + [f];
      var facts := FactsBetween(chain, asg, i, j, init);
      FactsBetweenDistinct(chain, asg, i, j, init);
      FactsBetweenMembers(chain, asg, i, j, init, f);
      NeededOnceGrows(chain, asg, i, j, init, f);
      if LastProducer(chain, asg, i, f) == Some(j) {
        DistinctGrows(facts, f);
        assert FactsBetween(chain, asg, i, j, needs) == facts + [f];
      } else {
        assert FactsBetween(chain, asg, i, j, needs) == facts;
      }
    }
  }

  lemma RepeatsShow(chain: seq<string>, asg: Assigned)
    ensures NoRepeatedNeed(chain, asg) <==>
            forall i: nat, j: nat :: Connects(chain, asg, i, j) ==> Distinct(TheFacts(chain, asg, i, j))
  {
    if NoRepeatedNeed(chain, asg) {
      forall i: nat, j: nat | Connects(chain, asg, i, j) ensures Distinct(TheFacts(chain, asg, i, j)) {
        FactsBetweenDistinct(chain, asg, i, j, Needs(asg, chain[i]));
      }
    }
    if forall i: nat, j: nat :: Connects(chain, asg, i, j) ==> Distinct(TheFacts(chain, asg, i, j)) {
      forall i, a, b | 0 <= i < |chain| && 0 <= a < b < |Needs(asg, chain[i])|
                    && Needs(asg, chain[i])[a] == Needs(asg, chain[i])[b]
        ensures LastProducer(chain, asg, i, Needs(asg, chain[i])[a]).None?
      {
        var needs := Needs(asg, chain[i]);
        var p := LastProducer(chain, asg, i, needs[a]);
        if p.Some? {
          FactsBetweenMembers(chain, asg, i, p.value, needs, needs[a]);
          FactsBetweenDistinct(chain, asg, i, p.value, needs);
          assert Connects(chain, asg, i, p.value);
        }
      }
    }
  }

  lemma {:induction false} ForPairFinds(deps: seq<Dependency>, source: string, target: string)
    ensures var d := ForPair(deps, source, target);
            && (d.Some? ==> d.value in deps && d.value.source == source && d.value.target == target)
            && (d.None? ==> forall k :: 0 <= k < |deps| ==> deps[k].source != source || deps[k].target != target)
  {
    if deps != [] {
      ForPairFinds(deps[..|deps| - 1], source, target);
    }
  }

  lemma PairHasOneRecord(chain: seq<string>, asg: Assigned, deps: seq<Dependency>, d: Dependency, k: nat)
    requires Distinct(chain) && k + 1 < |chain| && ReachingDefinitions(chain, asg, |chain|, deps)
    requires d in deps && d.source == chain[k] && d.target == chain[k + 1]
    ensures Connects(chain, asg, k + 1, k) && d == TheDependency(chain, asg, k + 1, k)
  {
    var l :| 0 <= l < |deps| && deps[l] == d;
    assert Justified(chain, asg, |chain|, deps[l]);
    var i: nat, j: nat :| i < |chain| && Records(chain, asg, i, j, deps[l]);
    assert chain[i] == chain[k + 1] && chain[j] == chain[k];
    assert i == k + 1 && j == k;
  }

  /** Each sequence edge carries exactly what its pair's record says. */
  lemma EdgeFacts(chain: seq<string>, asg: Assigned, deps: seq<Dependency>, k: nat)
    requires Distinct(chain) && k + 1 < |chain| && ReachingDefinitions(chain, asg, |chain|, deps)
    ensures Carries(EdgeAt(chain, deps, k), chain, asg, k)
  {
    var d := ForPair(deps, chain[k], chain[k + 1]);
    ForPairFinds(deps, chain[k], chain[k + 1]);
    assert Connects(chain, asg, k + 1, k) ==> TheDependency(chain, asg, k + 1, k) in deps;
    if d.Some? {
      PairHasOneRecord(chain, asg, deps, d.value, k);
    }
  }

  /** The facts on the edge to the next node are those it needs that this one makes. */
  lemma EdgeFactIff(chain: seq<string>, asg: Assigned, k: nat, f: string)
    requires k + 1 < |chain|
    ensures f in TheFacts(chain, asg, k + 1, k) <==>
            f != "" && f in Needs(asg, chain[k + 1]) && f in Makes(asg, chain[k])
  {
    FactsBetweenMembers(chain, asg, k + 1, k, Needs(asg, chain[k + 1]), f);
  }

  lemma FactsAreNamed(chain: seq<string>, asg: Assigned, i: nat, j: nat)
    requires i < |chain|
    ensures "" !in TheFacts(chain, asg, i, j)
  {
    FactsBetweenMembers(chain, asg, i, j, Needs(asg, chain[i]), "");
  }

  lemma ListsOfPair(chain: seq<string>, asg: Assigned, i: nat, j: nat)
    requires Connects(chain, asg, i, j) && NoRepeatedNeed(chain, asg) && OutputsShownOnce(chain, asg)
    ensures ListsAreSets(TheFacts(chain, asg, i, j), Resolved(asg, chain[j]))
  {
    RepeatsShow(chain, asg);
    FactsAreNamed(chain, asg, i, j);
  }

  lemma ListsOfRecord(chain: seq<string>, asg: Assigned, deps: seq<Dependency>, k: nat)
    requires k < |deps| && ReachingDefinitions(chain, asg, |chain|, deps)
    requires NoRepeatedNeed(chain, asg) && OutputsShownOnce(chain, asg)
    ensures ListsAreSets(deps[k].facts, deps[k].resolved)
  {
    assert Justified(chain, asg, |chain|, deps[k]);
    var i: nat, j: nat :| i < |chain| && Records(chain, asg, i, j, deps[k]);
    ListsOfPair(chain, asg, i, j);
  }

  lemma EmptyListsAreSets()
    ensures ListsAreSets([], [])
  {
    assert Display([]) == [];
  }

  lemma ListsOfEdge(chain: seq<string>, asg: Assigned, deps: seq<Dependency>, k: nat)
    requires Distinct(chain) && k + 1 < |chain| && ReachingDefinitions(chain, asg, |chain|, deps)
    requires NoRepeatedNeed(chain, asg) && OutputsShownOnce(chain, asg)
    ensures ListsAreSets(EdgeAt(chain, deps, k).facts, EdgeAt(chain, deps, k).resolved)
  {
    EdgeFacts(chain, asg, deps, k);
    assert Carries(EdgeAt(chain, deps, k), chain, asg, k);
    if Connects(chain, asg, k + 1, k) {
      ListsOfPair(chain, asg, k + 1, k);
    } else {
      EmptyListsAreSets();
    }
  }

  lemma ValidMeans(chain: seq<string>, asg: Assigned, g: Graph)
    requires Valid(g) && ReachingDefinitions(chain, asg, |chain|, g.dependencies)
    ensures NoRepeatedNeed(chain, asg) && OutputsShownOnce(chain, asg)
  {
    forall i: nat, j: nat | Connects(chain, asg, i, j)
      ensures Distinct(TheFacts(chain, asg, i, j)) && Distinct(Display(Resolved(asg, chain[j])))
    {
      var d := TheDependency(chain, asg, i, j);
      assert d in g.dependencies;
      var k :| 0 <= k < |g.dependencies| && g.dependencies[k] == d;
    }
    RepeatsShow(chain, asg);
  }

  /** A distinct chain's graph passes the validator unless a requirement is repeated
      or a producer that is depended on displays two outputs alike. */
  lemma ValidIff(chain: seq<string>, asg: Assigned, g: Graph)
    requires "" !in chain && Distinct(chain) && g.order == chain && PathInvariants(g)
    requires g.edges == EdgesOf(chain, g.dependencies)
    requires ReachingDefinitions(chain, asg, |chain|, g.dependencies)
    ensures Valid(g) <==> NoRepeatedNeed(chain, asg) && OutputsShownOnce(chain, asg)
  {
    if NoRepeatedNeed(chain, asg) && OutputsShownOnce(chain, asg) {
      forall k | 0 <= k < |g.dependencies| ensures ListsAreSets(g.dependencies[k].facts, g.dependencies[k].resolved) {
        ListsOfRecord(chain, asg, g.dependencies, k);
      }
      forall k | 0 <= k < |g.edges| ensures ListsAreSets(g.edges[k].facts, g.edges[k].resolved) {
        ListsOfEdge(chain, asg, g.dependencies, k);
      }
    }
    if Valid(g) {
      ValidMeans(chain, asg, g);
    }
  }

  /** Different outputs can be displayed alike. */
  lemma OutputsCanLookAlike()
    ensures var outputs := [Output("a", "b=c"), Output("a=b", "c")];
            outputs[0].key != outputs[1].key && !Distinct(Display(outputs))
  {
    var shown := Display([Output("a", "b=c"), Output("a=b", "c")]);
    assert shown[0] == "a=b=c" && shown[1] == "a=b=c";
  }

  /** What a graph built from a chain of distinct ids says. */
  ghost predicate Describes(g: Graph, chain: seq<string>, asg: Assigned) {
    && g.order == chain && PathInvariants(g)
    && ReachingDefinitions(chain, asg, |chain|, g.dependencies)
    && (forall k :: 0 <= k < |g.edges| ==> k + 1 < |chain| && Carries(g.edges[k], chain, asg, k))
  }

  /** The edge from position `k` to the next carries that pair's facts and, if there
      are any, the outputs of its source. */
  predicate Carries(e: Edge, chain: seq<string>, asg: Assigned, k: nat)
    requires k + 1 < |chain|
  {
    && e.index == k + 1 && e.facts == TheFacts(chain, asg, k + 1, k)
    && e.resolved == if Connects(chain, asg, k + 1, k) then Resolved(asg, chain[k]) else []
  }

  lemma GraphDescribes(chain: seq<string>, asg: Assigned, g: Graph)
    requires Distinct(chain) && g.order == chain && PathInvariants(g) && g.edges == EdgesOf(chain, g.dependencies)
    requires ReachingDefinitions(chain, asg, |chain|, g.dependencies)
    ensures Describes(g, chain, asg)
  {
    forall k | 0 <= k < |g.edges| ensures k + 1 < |chain| && Carries(g.edges[k], chain, asg, k) {
      EdgeFacts(chain, asg, g.dependencies, k);
    }
  }

  /** `attack_graph_from_flow_state`: it succeeds exactly on a non-empty chain of
      distinct ids in which no requirement with a producer is repeated and no such
      producer displays two outputs alike; then the graph is valid and describes the
      chain. */
  method AttackGraphFromFlowState(rawChain: seq<RawNode>, assignments: seq<Assignment>) returns (r: Result<Graph>)
    ensures r == Failure(EmptyChain) <==> Ids(rawChain) == []
    ensures var chain, asg := Ids(rawChain), ByNode(assignments);
            && (r.Success? <==> chain != [] && Distinct(chain) && NoRepeatedNeed(chain, asg) && OutputsShownOnce(chain, asg))
            && (r.Success? ==> Valid(r.value) && Describes(r.value, chain, asg) && r.value.nodes == NodesFrom(rawChain))
  {
    var order, nodes := NodesOfChain(rawChain);
    if order == [] {
      return Failure(EmptyChain);
    }
    var asg := ByNode(assignments);
    var deps := FactDependencies(order, asg);
    var g := Graph(order, nodes, EdgesOf(order, deps), deps);
    if Distinct(order) {
      ValidIff(order, asg, g);
      GraphDescribes(order, asg, g);
    }
    if !Valid(g) {
      return Failure(Invalid);
    }
    return Success(g);
  }

  // ----- reading it back -----

  datatype Role = Start | Exploit | Pivot | Technique
  datatype Visit = Visit(id: string, title: string, role: Role)
  datatype Link = Link(source: string, target: string, artifacts: seq<string>)

  function RoleOf(n: Node, root: string): Role {
    if n.id == root then Start
    else if n.isVuln then Exploit
    else if Lower(n.kind) == "docker" then Pivot
    else Technique
  }

  function Visits(g: Graph, k: nat): seq<Visit>
    requires k <= |g.nodes| && |g.order| > 0
  {
    seq(k, i requires 0 <= i < k => Visit(g.nodes[i].id, g.nodes[i].title, RoleOf(g.nodes[i], g.order[0])))
  }

  function Links(g: Graph, k: nat): seq<Link>
    requires k <= |g.edges|
  {
    seq(k, i requires 0 <= i < k => Link(g.edges[i].source, g.edges[i].target, g.edges[i].facts))
  }

  /** The artifacts of the first edge between two nodes. */
  function ArtifactsOf(edges: seq<Edge>, source: string, target: string): seq<string> {
    if edges == [] then []
    else if edges[0].source == source && edges[0].target == target then edges[0].facts
    else ArtifactsOf(edges[1..], source, target)
  }

  lemma {:induction false} ArtifactsOfEdge(edges: seq<Edge>, k: nat)
    requires k < |edges| && forall i :: 0 <= i < k ==> edges[i].source != edges[k].source
    ensures ArtifactsOf(edges, edges[k].source, edges[k].target) == edges[k].facts
  {
    if k > 0 {
      ArtifactsOfEdge(edges[1..], k - 1);
    }
  }

  /** The traversal of `parse_reference_graph` and what it accumulates. */
  class Traversal {
    const graph: Graph
    const nodeOf: map<string, Node>
    const childrenOf: map<string, seq<string>>
    var nodes: seq<Visit>
    var edges: seq<Link>
    var visited: set<string>

    ghost predicate Prepared() {
      && Valid(graph) && graph.order != []
      && (forall k :: 0 <= k < |graph.order| ==> graph.order[k] in nodeOf && nodeOf[graph.order[k]] == graph.nodes[k])
      && (forall k :: 0 <= k < |graph.order| - 1 ==>
            graph.order[k] in childrenOf && childrenOf[graph.order[k]] == [graph.order[k + 1]])
      && graph.order[|graph.order| - 1] !in childrenOf
    }

    /** The traversal has been through the first `k` nodes of the chain. */
    ghost predicate Reached(k: nat)
      reads this
    {
      && Valid(graph) && graph.order != [] && k <= |graph.order|
      && nodes == Visits(graph, k)
      && edges == Links(graph, if k == 0 then 0 else k - 1)
      && (forall x :: x in visited <==> x in graph.order[..k])
    }

    constructor (graph: Graph, nodeOf: map<string, Node>, childrenOf: map<string, seq<string>>)
      requires Valid(graph) && graph.order != []
      ensures this.graph == graph && this.nodeOf == nodeOf && this.childrenOf == childrenOf && Reached(0)
    {
      this.graph := graph;
      this.nodeOf := nodeOf;
      this.childrenOf := childrenOf;
      nodes := [];
      edges := [];
      visited := {};
    }

    /** The node itself, and the link that led to it. */
    method Note(nid: string, parent: Option<string>, ghost k: nat)
      requires Prepared() && Reached(k) && k < |graph.order| && nid == graph.order[k]
      requires parent == if k == 0 then None else Some(graph.order[k - 1])
      modifies this
      ensures Reached(k + 1)
    {
      visited := visited + {nid};
      var n := nodeOf[nid];
      nodes := nodes + [Visit(n.id, n.title, RoleOf(n, graph.order[0]))];
      if parent.Some? {
        edges := edges + [Link(parent.value, nid, ArtifactsOf(graph.edges, parent.value, nid))];
        LinksGrow(graph, k - 1);
      }
      VisitsGrow(graph, k);
      assert graph.order[..k + 1] == graph.order[..k] + [nid];
    }

    /** Visiting the next node of the chain visits all the rest of it; a node
        already visited is left alone. */
    method Traverse(nid: string, parent: Option<string>, ghost k: nat, ghost reached: nat)
      requires Prepared() && Reached(reached)
      requires k <= reached && k < |graph.order| && nid == graph.order[k]
      requires k == reached ==> parent == if k == 0 then None else Some(graph.order[k - 1])
      modifies this
      ensures Reached(if k < reached then reached else |graph.order|)
      decreases |graph.order| - k
    {
      VisitedSoFar(k, reached);
      if nid in visited {
        return;
      }
      Note(nid, parent, k);
      var children := if nid in childrenOf then childrenOf[nid] else [];
      ChildrenAt(k, children);
      for c := 0 to |children|
        invariant c == 0 ==> Reached(k + 1)
        invariant c > 0 ==> Reached(|graph.order|)
      {
        Traverse(children[c], Some(nid), k + 1, k + 1);
      }
    }

    lemma ChildrenAt(k: nat, children: seq<string>)
      requires Prepared() && k < |graph.order|
      requires children == if graph.order[k] in childrenOf then childrenOf[graph.order[k]] else []
      ensures children == if k + 1 < |graph.order| then [graph.order[k + 1]] else []
    {
    }

    lemma VisitedSoFar(k: nat, reached: nat)
      requires Prepared() && Reached(reached) && k <= reached && k < |graph.order|
      ensures graph.order[k] in visited <==> k < reached
    {
      if k < reached {
        assert graph.order[..reached][k] == graph.order[k];
      }
    }
  }

  lemma VisitsGrow(g: Graph, k: nat)
    requires k < |g.nodes| && |g.order| > 0
    ensures Visits(g, k + 1)
         == Visits(g, k) + [Visit(g.nodes[k].id, g.nodes[k].title, RoleOf(g.nodes[k], g.order[0]))]
  {
  }

  lemma LinksGrow(g: Graph, k: nat)
    requires Valid(g) && k < |g.edges|
    ensures Links(g, k + 1)
         == Links(g, k) + [Link(g.order[k], g.order[k + 1], ArtifactsOf(g.edges, g.order[k], g.order[k + 1]))]
  {
    ArtifactsOfEdge(g.edges, k);
  }

  /** The targets of the edges that leave a node, in edge order. */
  function ChildrenIn(edges: seq<Edge>, source: string): seq<string> {
    if edges == [] then []
    else
      var e := edges[|edges| - 1];
      ChildrenIn(edges[..|edges| - 1], source) + if e.source == source then [e.target] else []
  }

  lemma {:induction false} ChildrenOnPath(g: Graph, k: nat, n: nat)
    requires Valid(g) && k < |g.order| && n <= |g.edges|
    ensures ChildrenIn(g.edges[..n], g.order[k]) == if k < n then [g.order[k + 1]] else []
  {
    if n > 0 {
      ChildrenOnPath(g, k, n - 1);
      assert g.edges[..n][..n - 1] == g.edges[..n - 1];
      var e := g.edges[..n][n - 1];
      assert e.source == g.order[n - 1] && e.target == g.order[n];
    }
  }

  /** The map leads from each source to its targets, and from nothing else. */
  ghost predicate LeadsToChildren(childrenOf: map<string, seq<string>>, edges: seq<Edge>) {
    forall x :: LeadsFrom(childrenOf, edges, x)
  }

  predicate LeadsFrom(childrenOf: map<string, seq<string>>, edges: seq<Edge>, x: string) {
    && (x in childrenOf <==> ChildrenIn(edges, x) != [])
    && (x in childrenOf ==> childrenOf[x] == ChildrenIn(edges, x))
  }

  lemma ChildrenGrow(childrenOf: map<string, seq<string>>, edges: seq<Edge>, e: Edge)
    requires LeadsToChildren(childrenOf, edges)
    ensures var before := if e.source in childrenOf then childrenOf[e.source] else [];
            LeadsToChildren(childrenOf[e.source := before + [e.target]], edges + [e])
  {
    var before := if e.source in childrenOf then childrenOf[e.source] else [];
    var next, all := childrenOf[e.source := before + [e.target]], edges + [e];
    assert all[..|all| - 1] == edges;
    forall x ensures LeadsFrom(next, all, x) {
      assert LeadsFrom(childrenOf, edges, x);
    }
  }

  /** `children_map`, for any list of edges. */
  method ChildrenMap(edges: seq<Edge>) returns (childrenOf: map<string, seq<string>>)
    ensures LeadsToChildren(childrenOf, edges)
  {
    childrenOf := map[];
    for k := 0 to |edges|
      invariant LeadsToChildren(childrenOf, edges[..k])
    {
      var e := edges[k];
      TakeOneMore(edges, k);
      ChildrenGrow(childrenOf, edges[..k], e);
      var before := if e.source in childrenOf then childrenOf[e.source] else [];
      childrenOf := childrenOf[e.source := before + [e.target]];
    }
    TakeAll(edges);
  }

  /** The traversal from the first node, over maps built from nodes and edges. */
  method ParseReferenceGraph(g: Graph) returns (nodes: seq<Visit>, edges: seq<Link>, root: string)
    requires Valid(g) && g.order != []
    ensures root == g.order[0]
    ensures nodes == Visits(g, |g.order|)
    ensures edges == Links(g, |g.order| - 1)
  {
    var nodeOf: map<string, Node> := map[];
    for k := 0 to |g.nodes|
      invariant forall i :: 0 <= i < k ==> g.order[i] in nodeOf && nodeOf[g.order[i]] == g.nodes[i]
    {
      nodeOf := nodeOf[g.nodes[k].id := g.nodes[k]];
    }
    var childrenOf := ChildrenMap(g.edges);
    assert g.edges[..|g.edges|] == g.edges;
    forall k | 0 <= k < |g.order|
      ensures g.order[k] in childrenOf <==> k < |g.order| - 1
      ensures k < |g.order| - 1 ==> childrenOf[g.order[k]] == [g.order[k + 1]]
    {
      ChildrenOnPath(g, k, |g.edges|);
      assert LeadsFrom(childrenOf, g.edges, g.order[k]);
    }
    root := g.order[0];
    var t := new Traversal(g, nodeOf, childrenOf);
    t.Traverse(root, None, 0, 0);
    nodes, edges := t.nodes, t.edges;
  }

  /** What is shown of a node: its id, its title or else its id, and its role. */
  predicate ShownAs(v: Visit, raw: RawNode, first: bool) {
    && Usable(raw) && v.id == raw.id && v.title == (if raw.title != "" then raw.title else raw.id)
    && match v.role
       case Start => first
       case Exploit => !first && raw.isVuln
       case Pivot => !first && !raw.isVuln && Lower(raw.kind) == "docker"
       case Technique => !first && !raw.isVuln && Lower(raw.kind) != "docker"
  }

  /** Each node of the chain is shown by what its saved entry says. */
  ghost predicate Shows(nodes: seq<Visit>, chain: seq<string>, rawChain: seq<RawNode>) {
    |nodes| == |chain| && forall k :: 0 <= k < |chain| ==> nodes[k].id == chain[k] && ShownFrom(nodes, rawChain, k)
  }

  ghost predicate ShownFrom(nodes: seq<Visit>, rawChain: seq<RawNode>, k: nat) {
    k < |nodes| && exists raw :: raw in rawChain && ShownAs(nodes[k], raw, k == 0)
  }

  lemma VisitsShow(g: Graph, rawChain: seq<RawNode>)
    requires Valid(g) && g.order != [] && g.nodes == NodesFrom(rawChain)
    ensures Shows(Visits(g, |g.order|), g.order, rawChain)
  {
    NodesAreUsableEntries(rawChain);
    var nodes := Visits(g, |g.order|);
    forall k | 0 <= k < |g.order| ensures nodes[k].id == g.order[k] && ShownFrom(nodes, rawChain, k) {
      var raw := rawChain[g.nodes[k].index - 1];
      assert ComesFrom(g.nodes[k], rawChain);
      assert g.order[k] == g.order[0] <==> k == 0;
      assert raw in rawChain && ShownAs(nodes[k], raw, k == 0);
    }
  }

  /** From a saved flow to what the dashboard shows: the nodes are the chain in
      order, the links its consecutive pairs, and each link carries exactly the
      facts its target needs that its source was the last to make. */
  method ReferenceGraphOfFlow(rawChain: seq<RawNode>, assignments: seq<Assignment>)
    returns (ok: bool, nodes: seq<Visit>, links: seq<Link>)
    ensures var chain, asg := Ids(rawChain), ByNode(assignments);
            && (ok <==> chain != [] && Distinct(chain) && NoRepeatedNeed(chain, asg) && OutputsShownOnce(chain, asg))
            && (ok ==>
                  && |nodes| == |chain| && |links| == |chain| - 1
                  && Shows(nodes, chain, rawChain)
                  && (forall k :: 0 <= k < |chain| - 1 ==>
                        links[k] == Link(chain[k], chain[k + 1], TheFacts(chain, asg, k + 1, k))))
  {
    var r := AttackGraphFromFlowState(rawChain, assignments);
    if r.Failure? {
      return false, [], [];
    }
    var root;
    nodes, links, root := ParseReferenceGraph(r.value);
    VisitsShow(r.value, rawChain);
    return true, nodes, links;
  }
}
