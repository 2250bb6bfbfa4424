/** The pivot edges that Flow's chain requires, merged from the records on its
    assignments (`flow_pivot_relationships` in webapp/artifact_checks.py). */
module FlowPivots {
  import opened Optional
  import opened Sequences
  import opened Text

  /** A raw port: a value that is or is not a number, or text with commas whose
      parts are. */
  datatype RawPort = Plain(number: Option<int>) | Csv(parts: seq<Option<int>>)

  /** A pivot record of an assignment, its texts already trimmed. `role` is lower
      case; the flags say whether its requirements and products mention a pivot. */
  datatype Entry =
    | Junk
    | Entry(role: string, requiresPivot: bool, producesPivot: bool, source: string, target: string,
            provider: string, providerLabel: string, exposure: string,
            ports: seq<RawPort>, inferredPorts: seq<RawPort>, protocols: seq<string>)

  datatype Side = TargetSide | SourceSide | NoSide

  function SideOf(e: Entry): Side {
    if e.Junk? then NoSide
    else if e.role == "target" then TargetSide
    else if e.role == "source" then SourceSide
    else if e.role == "" && e.requiresPivot then TargetSide
    else if e.role == "" && e.producesPivot then SourceSide
    else NoSide
  }

  /** A record's role decides its side; without one, what it requires does, and then
      what it produces. */
  lemma SideIff(e: Entry)
    ensures SideOf(e) == TargetSide <==> e.Entry? && (e.role == "target" || (e.role == "" && e.requiresPivot))
    ensures SideOf(e) == SourceSide <==>
            e.Entry? && (e.role == "source" || (e.role == "" && !e.requiresPivot && e.producesPivot))
  {
  }

  /** A record with the position of its assignment. */
  datatype Item = Item(index: nat, entry: Entry)

  /** The records of one side, in order; an assignment that is not a mapping has none. */
  function OfSide(assignments: seq<seq<Entry>>, side: Side): seq<Item> {
    if assignments == [] then []
    else
      var n := |assignments| - 1;
      OfSide(assignments[..n], side) + OfSideAt(assignments[n], n, side)
  }

  function OfSideAt(entries: seq<Entry>, index: nat, side: Side): seq<Item> {
    if entries == [] then []
    else
      var e := entries[|entries| - 1];
      OfSideAt(entries[..|entries| - 1], index, side) + if SideOf(e) == side then [Item(index, e)] else []
  }

  /** Target-side records if there are any, else source-side ones. */
  function Selected(assignments: seq<seq<Entry>>): seq<Item> {
    if OfSide(assignments, TargetSide) != [] then OfSide(assignments, TargetSide)
    else OfSide(assignments, SourceSide)
  }

  /** Record `j` of assignment `i` stands on the side. */
  predicate StandsAt(assignments: seq<seq<Entry>>, i: nat, j: nat, side: Side) {
    i < |assignments| && j < |assignments[i]| && SideOf(assignments[i][j]) == side
  }

  lemma {:induction false} PlaceInAssignment(entries: seq<Entry>, index: nat, side: Side, j: nat)
    requires j < |entries| && SideOf(entries[j]) == side
    ensures var items, before := OfSideAt(entries, index, side), |OfSideAt(entries[..j], index, side)|;
            before < |items| && items[before] == Item(index, entries[j])
  {
    var init := entries[..|entries| - 1];
    if j < |init| {
      assert init[..j] == entries[..j];
      PlaceInAssignment(init, index, side, j);
    }
  }

  /** Each record of the side is collected, behind those of the side that stand before it. */
  lemma {:induction false} PlaceOfRecord(assignments: seq<seq<Entry>>, i: nat, j: nat, side: Side)
    requires StandsAt(assignments, i, j, side)
    ensures var items := OfSide(assignments, side);
            var before := |OfSide(assignments[..i], side)| + |OfSideAt(assignments[i][..j], i, side)|;
            before < |items| && items[before] == Item(i, assignments[i][j])
  {
    var n := |assignments| - 1;
    if i < n {
      assert assignments[..n][..i] == assignments[..i];
      PlaceOfRecord(assignments[..n], i, j, side);
    } else {
      PlaceInAssignment(assignments[i], i, side, j);
    }
  }

  lemma {:induction false} ItemInAssignment(entries: seq<Entry>, index: nat, side: Side, it: Item)
    requires it in OfSideAt(entries, index, side)
    ensures it.index == index && exists j :: 0 <= j < |entries| && entries[j] == it.entry && SideOf(entries[j]) == side
  {
    var n := |entries| - 1;
    if it in OfSideAt(entries[..n], index, side) {
      ItemInAssignment(entries[..n], index, side, it);
      var j :| 0 <= j < n && entries[..n][j] == it.entry && SideOf(entries[..n][j]) == side;
      assert entries[j] == it.entry;
    }
  }

  /** And nothing else is. */
  lemma {:induction false} ItemStands(assignments: seq<seq<Entry>>, side: Side, it: Item)
    requires it in OfSide(assignments, side)
    ensures exists j: nat :: StandsAt(assignments, it.index, j, side) && assignments[it.index][j] == it.entry
  {
    var n := |assignments| - 1;
    if it in OfSide(assignments[..n], side) {
      ItemStands(assignments[..n], side, it);
      var j: nat :| StandsAt(assignments[..n], it.index, j, side) && assignments[..n][it.index][j] == it.entry;
      assert StandsAt(assignments, it.index, j, side);
    } else {
      ItemInAssignment(assignments[n], n, side, it);
      var j :| 0 <= j < |assignments[n]| && assignments[n][j] == it.entry && SideOf(assignments[n][j]) == side;
      assert StandsAt(assignments, it.index, j, side);
    }
  }

  /** If any record stands on the target side, the selected ones are those, else those on
      the source side; either way all of them and no other. */
  lemma SelectedIff(assignments: seq<seq<Entry>>, it: Item)
    ensures var side := if exists i: nat, j: nat :: StandsAt(assignments, i, j, TargetSide) then TargetSide else SourceSide;
            it in Selected(assignments) <==>
            exists j: nat :: StandsAt(assignments, it.index, j, side) && assignments[it.index][j] == it.entry
  {
    if exists i: nat, j: nat :: StandsAt(assignments, i, j, TargetSide) {
      var i: nat, j: nat :| StandsAt(assignments, i, j, TargetSide);
      PlaceOfRecord(assignments, i, j, TargetSide);
    } else if OfSide(assignments, TargetSide) != [] {
      ItemStands(assignments, TargetSide, OfSide(assignments, TargetSide)[0]);
    }
    var side := if OfSide(assignments, TargetSide) != [] then TargetSide else SourceSide;
    if it in OfSide(assignments, side) {
      ItemStands(assignments, side, it);
    }
    if j: nat :| StandsAt(assignments, it.index, j, side) && assignments[it.index][j] == it.entry {
      PlaceOfRecord(assignments, it.index, j, side);
    }
  }

  // ----- ports and protocols -----

  predicate InRange(n: int) {
    1 <= n <= 65535
  }

  function AddPort(out: seq<int>, v: Option<int>): seq<int> {
    if v.Some? && InRange(v.value) && v.value !in out then out + [v.value] else out
  }

  function PortsOfParts(parts: seq<Option<int>>): seq<int> {
    if parts == [] then [] else AddPort(PortsOfParts(parts[..|parts| - 1]), parts[|parts| - 1])
  }

  /** `_ports`: the parts of a comma-separated text are appended without comparing
      them with what is there, so this list may repeat a port. */
  function PortsOf(raws: seq<RawPort>): seq<int> {
    if raws == [] then []
    else
      var out := PortsOf(raws[..|raws| - 1]);
      match raws[|raws| - 1]
      case Plain(v) => AddPort(out, v)
      case Csv(parts) => out + PortsOfParts(parts)
  }

  function DeclaredPorts(e: Entry): seq<int>
    requires e.Entry?
  {
    PortsOf(if e.ports != [] then e.ports else e.inferredPorts)
  }

  function CommasToBlanks(s: string): string {
    seq(|s|, i requires 0 <= i < |s| => if s[i] == ',' then ' ' else s[i])
  }

  /** `_protocols`. */
  function ProtocolsOf(raws: seq<string>): seq<string> {
    if raws == [] then []
    else AppendNew(ProtocolsOf(raws[..|raws| - 1]), UpperAll(Words(CommasToBlanks(raws[|raws| - 1]))))
  }

  function UpperAll(words: seq<string>): seq<string> {
    seq(|words|, i requires 0 <= i < |words| => Upper(words[i]))
  }

  /** Append what is not there yet, one after another. */
  function AppendNew<T(==)>(xs: seq<T>, ys: seq<T>): seq<T>
    decreases |ys|
  {
    if ys == [] then xs
    else AppendNew(if ys[0] in xs then xs else xs + [ys[0]], ys[1..])
  }

  // ----- merging -----

  /** The identity of an edge; a missing endpoint gets a name of its own. */
  datatype Key = Key(source: string, target: string)

  function MissingSource(i: nat): string {
    "<missing-source-" + Decimal(i) + ">"
  }

  function MissingTarget(i: nat): string {
    "<missing-target-" + Decimal(i) + ">"
  }

  predicate WellFormed(e: Entry) {
    e.Entry? && e.source != "" && e.target != ""
  }

  function KeyOf(it: Item): Key
    requires it.entry.Entry?
  {
    Key(if it.entry.source != "" then it.entry.source else MissingSource(it.index),
        if it.entry.target != "" then it.entry.target else MissingTarget(it.index))
  }

  datatype Edge = Edge(
    source: string, target: string, provider: string, providerLabel: string, exposure: string,
    ports: seq<int>, protocols: seq<string>, indexes: seq<nat>, malformed: bool)

  function NewEdge(e: Entry): Edge
    requires e.Entry?
  {
    Edge(e.source, e.target, e.provider, e.providerLabel, e.exposure, [], [], [], e.source == "" || e.target == "")
  }

  /** What every record adds to its edge. */
  function Absorb(c: Edge, it: Item): Edge
    requires it.entry.Entry?
  {
    var e := it.entry;
    c.(indexes := c.indexes + [it.index],
       ports := AppendNew(c.ports, DeclaredPorts(e)),
       protocols := AppendNew(c.protocols, ProtocolsOf(e.protocols)),
       provider := if c.provider == "" then e.provider else c.provider,
       providerLabel := if c.providerLabel == "" then e.providerLabel else c.providerLabel,
       exposure := if c.exposure == "" then e.exposure else c.exposure)
  }

  predicate Entries(items: seq<Item>) {
    forall i :: 0 <= i < |items| ==> items[i].entry.Entry?
  }

  /** The edge keys in order of first appearance. */
  function Keys(items: seq<Item>): (ks: seq<Key>)
    requires Entries(items)
  {
    if items == [] then []
    else
      var ks, k := Keys(items[..|items| - 1]), KeyOf(items[|items| - 1]);
      if k in ks then ks else ks + [k]
  }

  /** The records of one edge, in order. */
  function Group(items: seq<Item>, k: Key): (g: seq<Item>)
    requires Entries(items)
    ensures Entries(g)
  {
    if items == [] then []
    else
      var it := items[|items| - 1];
      Group(items[..|items| - 1], k) + if KeyOf(it) == k then [it] else []
  }

  /** The edge that a non-empty group of records describes. */
  function Summary(group: seq<Item>): Edge
    requires Entries(group) && group != []
  {
    var it := group[|group| - 1];
    Absorb(if |group| == 1 then NewEdge(it.entry) else Summary(group[..|group| - 1]), it)
  }

  lemma {:induction false} KeysAreGroups(items: seq<Item>)
    requires Entries(items)
    ensures forall k :: k in Keys(items) <==> Group(items, k) != []
    ensures forall i, j :: 0 <= i < j < |Keys(items)| ==> Keys(items)[i] != Keys(items)[j]
  {
    if items != [] {
      var init := items[..|items| - 1];
      KeysAreGroups(init);
      var ks := Keys(init);
      assert forall i :: 0 <= i < |ks| ==> ks[i] in ks;
    }
  }

  /** The edges are the summaries of the groups, in the order of the keys. */
  ghost predicate IsMerge(items: seq<Item>, relationships: seq<Edge>)
    requires Entries(items)
  {
    && |relationships| == |Keys(items)|
    && forall i :: 0 <= i < |relationships| ==> IsSummary(items, Keys(items)[i], relationships[i])
  }

  predicate IsSummary(items: seq<Item>, k: Key, e: Edge)
    requires Entries(items)
  {
    Group(items, k) != [] && e == Summary(Group(items, k))
  }

  /** The map leads from each key to its place among the keys. */
  ghost predicate Indexed(ks: seq<Key>, byEdge: map<Key, nat>) {
    && (forall k :: k in byEdge ==> byEdge[k] < |ks| && ks[byEdge[k]] == k)
    && (forall i :: 0 <= i < |ks| ==> ks[i] in byEdge)
  }

  lemma GroupGrows(items: seq<Item>, it: Item, k: Key)
    requires Entries(items) && it.entry.Entry?
    ensures Entries(items + [it])
    ensures Group(items + [it], k) == Group(items, k) + if KeyOf(it) == k then [it] else []
    ensures Keys(items + [it]) == if KeyOf(it) in Keys(items) then Keys(items) else Keys(items) + [KeyOf(it)]
  {
    var all := items + [it];
    assert all[..|all| - 1] == items && all[|all| - 1] == it;
  }

  /** The edge of one key after one more record. */
  lemma SummaryAfter(items: seq<Item>, it: Item, k: Key)
    requires Entries(items) && it.entry.Entry? && Group(items, k) != []
    ensures Entries(items + [it]) && Group(items + [it], k) != []
    ensures Summary(Group(items + [it], k)) ==
            if KeyOf(it) == k then Absorb(Summary(Group(items, k)), it) else Summary(Group(items, k))
  {
    GroupGrows(items, it, k);
    if KeyOf(it) == k {
    } else {
      assert Group(items, k) + [] == Group(items, k);
    }
  }

  lemma MergeExisting(items: seq<Item>, it: Item, relationships: seq<Edge>, n: nat)
    requires Entries(items) && it.entry.Entry? && IsMerge(items, relationships)
    requires n < |relationships| && Keys(items)[n] == KeyOf(it)
    ensures Entries(items + [it]) && Keys(items + [it]) == Keys(items)
    ensures IsMerge(items + [it], relationships[n := Absorb(relationships[n], it)])
  {
    var ks := Keys(items);
    var next := relationships[n := Absorb(relationships[n], it)];
    GroupGrows(items, it, KeyOf(it));
    KeysAreGroups(items);
    forall i | 0 <= i < |next| ensures IsSummary(items + [it], ks[i], next[i]) {
      assert IsSummary(items, ks[i], relationships[i]);
      SummaryAfter(items, it, ks[i]);
      assert i != n ==> ks[i] != ks[n];
    }
  }

  lemma MergeNew(items: seq<Item>, it: Item, relationships: seq<Edge>)
    requires Entries(items) && it.entry.Entry? && IsMerge(items, relationships) && KeyOf(it) !in Keys(items)
    ensures Entries(items + [it]) && Keys(items + [it]) == Keys(items) + [KeyOf(it)]
    ensures IsMerge(items + [it], relationships + [Absorb(NewEdge(it.entry), it)])
  {
    var ks := Keys(items);
    var next := relationships + [Absorb(NewEdge(it.entry), it)];
    GroupGrows(items, it, KeyOf(it));
    KeysAreGroups(items);
    forall i | 0 <= i < |next| ensures IsSummary(items + [it], (ks + [KeyOf(it)])[i], next[i]) {
      if i < |ks| {
        assert IsSummary(items, ks[i], relationships[i]);
        SummaryAfter(items, it, ks[i]);
        assert ks[i] in ks;
      } else {
        assert Group(items, KeyOf(it)) == [];
        assert [] + [it] == [it];
      }
    }
  }

  /** `AppendNew` as the source's loops do it. */
  method AppendMissing<T(==)>(current: seq<T>, more: seq<T>) returns (out: seq<T>)
    ensures out == AppendNew(current, more)
  {
    out := current;
    for i := 0 to |more|
      invariant AppendNew(current, more) == AppendNew(out, more[i..])
    {
      assert more[i..][1..] == more[i + 1..];
      if more[i] !in out {
        out := out + [more[i]];
      }
    }
  }

  /** The first loop: both lists of records. */
  method CollectEntries(assignments: seq<seq<Entry>>) returns (targets: seq<Item>, sources: seq<Item>)
    ensures targets == OfSide(assignments, TargetSide) && sources == OfSide(assignments, SourceSide)
  {
    targets, sources := [], [];
    for n := 0 to |assignments|
      invariant targets == OfSide(assignments[..n], TargetSide) && sources == OfSide(assignments[..n], SourceSide)
    {
      assert assignments[..n + 1][..n] == assignments[..n];
      var entries := assignments[n];
      ghost var t0, s0 := targets, sources;
      for i := 0 to |entries|
        invariant targets == t0 + OfSideAt(entries[..i], n, TargetSide)
        invariant sources == s0 + OfSideAt(entries[..i], n, SourceSide)
      {
        assert entries[..i + 1][..i] == entries[..i];
        var side := SideOf(entries[i]);
        if side == TargetSide {
          targets := targets + [Item(n, entries[i])];
        } else if side == SourceSide {
          sources := sources + [Item(n, entries[i])];
        }
      }
      assert entries[..|entries|] == entries;
    }
    assert assignments[..|assignments|] == assignments;
  }

  lemma {:induction false} SidesHoldEntries(assignments: seq<seq<Entry>>, side: Side)
    requires side != NoSide
    ensures Entries(OfSide(assignments, side))
    ensures forall it :: it in OfSide(assignments, side) ==> SideOf(it.entry) == side
  {
    if assignments != [] {
      SidesHoldEntries(assignments[..|assignments| - 1], side);
      SideHoldsEntries(assignments[|assignments| - 1], |assignments| - 1, side);
    }
  }

  lemma {:induction false} SideHoldsEntries(entries: seq<Entry>, index: nat, side: Side)
    requires side != NoSide
    ensures Entries(OfSideAt(entries, index, side))
    ensures forall it :: it in OfSideAt(entries, index, side) ==> SideOf(it.entry) == side
  {
    if entries != [] {
      SideHoldsEntries(entries[..|entries| - 1], index, side);
    }
  }

  /** The records that are merged all come from the same side. */
  lemma OneSideOnly(assignments: seq<seq<Entry>>)
    ensures Entries(Selected(assignments))
    ensures var side := if OfSide(assignments, TargetSide) != [] then TargetSide else SourceSide;
            forall it :: it in Selected(assignments) ==> SideOf(it.entry) == side
  {
    SidesHoldEntries(assignments, TargetSide);
    SidesHoldEntries(assignments, SourceSide);
  }

  /** One round of the merge loop. `byEdge` leads to the edge that `before` holds. */
  method MergeRecord(it: Item, before: seq<Edge>, byEdge: map<Key, nat>, ghost done: seq<Item>)
    returns (relationships: seq<Edge>, byEdge': map<Key, nat>)
    requires Entries(done) && it.entry.Entry? && IsMerge(done, before) && Indexed(Keys(done), byEdge)
    ensures Entries(done + [it]) && IsMerge(done + [it], relationships) && Indexed(Keys(done + [it]), byEdge')
  {
    var key := KeyOf(it);
    if key in byEdge {
      var at := byEdge[key];
      MergeExisting(done, it, before, at);
      var current := AddTo(before[at], it);
      relationships, byEdge' := before[at := current], byEdge;
    } else {
      MergeNew(done, it, before);
      var current := AddTo(NewEdge(it.entry), it);
      relationships, byEdge' := before + [current], byEdge[key := |before|];
    }
  }

  /** The merge loop. */
  method FlowPivotRelationships(assignments: seq<seq<Entry>>) returns (relationships: seq<Edge>)
    ensures Entries(Selected(assignments)) && IsMerge(Selected(assignments), relationships)
  {
    var targets, sources := CollectEntries(assignments);
    var selected := if targets != [] then targets else sources;
    OneSideOnly(assignments);
    relationships := [];
    var byEdge: map<Key, nat> := map[];
    ghost var done: seq<Item> := [];
    for n := 0 to |selected|
      invariant done == selected[..n] && Entries(done)
      invariant IsMerge(done, relationships) && Indexed(Keys(done), byEdge)
    {
      TakeOneMore(selected, n);
      relationships, byEdge := MergeRecord(selected[n], relationships, byEdge, done);
      done := done + [selected[n]];
    }
    TakeAll(selected);
  }

  method AddTo(c: Edge, it: Item) returns (current: Edge)
    requires it.entry.Entry?
    ensures current == Absorb(c, it)
  {
    var e := it.entry;
    current := c.(indexes := c.indexes + [it.index]);
    var ports := AppendMissing(current.ports, DeclaredPorts(e));
    var protocols := AppendMissing(current.protocols, ProtocolsOf(e.protocols));
    current := current.(ports := ports, protocols := protocols);
    if current.provider == "" && e.provider != "" {
      current := current.(provider := e.provider);
    }
    if current.providerLabel == "" && e.providerLabel != "" {
      current := current.(providerLabel := e.providerLabel);
    }
    if current.exposure == "" && e.exposure != "" {
      current := current.(exposure := e.exposure);
    }
  }

  // ----- what the merged edges are -----

  lemma {:induction false} AppendNewMembers<T>(xs: seq<T>, ys: seq<T>)
    requires Distinct(xs)
    ensures Distinct(AppendNew(xs, ys))
    ensures forall x :: x in AppendNew(xs, ys) <==> x in xs || x in ys
    ensures xs <= AppendNew(xs, ys)
    decreases |ys|
  {
    if ys != [] {
      var next := if ys[0] in xs then xs else xs + [ys[0]];
      assert Distinct(next);
      AppendNewMembers(next, ys[1..]);
      assert ys == [ys[0]] + ys[1..];
    }
  }

  /** A usable port number is among the raw values, by itself or between commas. */
  predicate Declares(raws: seq<RawPort>, n: int) {
    1 <= n <= 65535 && exists i :: 0 <= i < |raws| && Mentions(raws[i], n)
  }

  predicate Mentions(raw: RawPort, n: int) {
    match raw case Plain(v) => v == Some(n) case Csv(parts) => Some(n) in parts
  }

  lemma {:induction false} PartsMembers(parts: seq<Option<int>>, n: int)
    ensures n in PortsOfParts(parts) <==> InRange(n) && Some(n) in parts
  {
    if parts != [] {
      var init, last := parts[..|parts| - 1], parts[|parts| - 1];
      PartsMembers(init, n);
      assert parts == init + [last];
    }
  }

  /** The ports read are exactly the usable ones among the raw values. */
  lemma {:induction false} PortsIff(raws: seq<RawPort>, n: int)
    ensures n in PortsOf(raws) <==> Declares(raws, n)
  {
    if raws != [] {
      var init, last := raws[..|raws| - 1], raws[|raws| - 1];
      PortsIff(init, n);
      assert forall i :: 0 <= i < |init| ==> init[i] == raws[i];
      assert Mentions(last, n) <==> Mentions(raws[|init|], n);
      if last.Csv? {
        PartsMembers(last.parts, n);
      }
    }
  }

  /** Further values are read behind the earlier ones. */
  lemma {:induction false} PortsKeepOrder(raws: seq<RawPort>, k: nat)
    requires k <= |raws|
    ensures PortsOf(raws[..k]) <= PortsOf(raws)
  {
    if k < |raws| {
      PortsKeepOrder(raws[..|raws| - 1], k);
      assert raws[..|raws| - 1][..k] == raws[..k];
    } else {
      assert raws[..k] == raws;
    }
  }

  /** A comma separates the words of a protocol list as a blank does. */
  lemma CommaSeparates(a: string, b: string)
    ensures Words(CommasToBlanks(a + "," + b)) == Words(CommasToBlanks(a)) + Words(CommasToBlanks(b))
    ensures ',' !in a ==> CommasToBlanks(a) == a
  {
    assert CommasToBlanks(a + "," + b) == CommasToBlanks(a) + [' '] + CommasToBlanks(b);
    WordsAtBlank(CommasToBlanks(a), ' ', CommasToBlanks(b));
  }

  /** A record declares a port among its own ones if it has any, else among the inferred. */
  predicate DeclaresPort(e: Entry, n: int)
    requires e.Entry?
  {
    Declares(if e.ports != [] then e.ports else e.inferredPorts, n)
  }

  /** Some word of the raw values, in upper case; commas separate words as blanks do. */
  predicate DeclaresProtocol(e: Entry, protocol: string)
    requires e.Entry?
  {
    exists i :: 0 <= i < |e.protocols| && SpelledIn(e.protocols[i], protocol)
  }

  predicate SpelledIn(raw: string, protocol: string) {
    exists w :: w in Words(CommasToBlanks(raw)) && Upper(w) == protocol
  }

  lemma {:induction false} ProtocolsIff(raws: seq<string>, protocol: string)
    ensures Distinct(ProtocolsOf(raws))
    ensures protocol in ProtocolsOf(raws) <==> exists i :: 0 <= i < |raws| && SpelledIn(raws[i], protocol)
  {
    if raws != [] {
      var init, last := raws[..|raws| - 1], raws[|raws| - 1];
      ProtocolsIff(init, protocol);
      var words := Words(CommasToBlanks(last));
      AppendNewMembers(ProtocolsOf(init), UpperAll(words));
      assert forall i :: 0 <= i < |init| ==> init[i] == raws[i];
      assert protocol in UpperAll(words) <==> SpelledIn(last, protocol) by {
        if SpelledIn(last, protocol) {
          var w :| w in words && Upper(w) == protocol;
          var j :| 0 <= j < |words| && words[j] == w;
          assert UpperAll(words)[j] == protocol;
        }
      }
    }
  }

  /** Where a value stands first. */
  function FirstOf<T(==)>(ys: seq<T>, y: T): (k: nat)
    requires y in ys
    ensures k < |ys| && ys[k] == y && y !in ys[..k]
  {
    if ys[0] == y then 0 else 1 + FirstOf(ys[1..], y)
  }

  /** What is appended keeps its order of first appearance. */
  lemma {:induction false} AppendNewInOrder<T>(xs: seq<T>, ys: seq<T>, a: nat, b: nat)
    requires Distinct(xs)
    requires var r := AppendNew(xs, ys); |xs| <= a < b < |r| && r[a] in ys && r[b] in ys
    ensures var r := AppendNew(xs, ys); FirstOf(ys, r[a]) < FirstOf(ys, r[b])
    decreases |ys|
  {
    var r, y := AppendNew(xs, ys), ys[0];
    var next := if y in xs then xs else xs + [y];
    AppendNewMembers(xs, ys);
    AppendNewMembers(next, ys[1..]);
    assert ys == [y] + ys[1..] && next <= r;
    assert r[b] != y;
    if r[a] != y {
      AppendNewInOrder(next, ys[1..], a, b);
    }
  }

  function Indexes(group: seq<Item>): seq<nat> {
    seq(|group|, i requires 0 <= i < |group| => group[i].index)
  }

  /** The edge before its last record, and that record. */
  function BeforeLast(group: seq<Item>): Edge
    requires Entries(group) && group != []
  {
    if |group| == 1 then NewEdge(group[0].entry) else Summary(group[..|group| - 1])
  }

  lemma {:induction false} SummaryListsRecords(group: seq<Item>)
    requires Entries(group) && group != []
    ensures var c := Summary(group);
            && c.indexes == Indexes(group)
            && c.source == group[0].entry.source && c.target == group[0].entry.target
  {
    var init, it := group[..|group| - 1], group[|group| - 1];
    if |group| > 1 {
      SummaryListsRecords(init);
    }
    assert Indexes(group) == Indexes(init) + [it.index];
  }

  lemma {:induction false} SummaryPorts(group: seq<Item>)
    requires Entries(group) && group != []
    ensures var c := Summary(group);
            && Distinct(c.ports) && Distinct(c.protocols)
            && (forall n :: n in c.ports <==> exists it :: it in group && n in DeclaredPorts(it.entry))
            && (forall p :: p in c.protocols <==> exists it :: it in group && p in ProtocolsOf(it.entry.protocols))
  {
    var init, it, before := group[..|group| - 1], group[|group| - 1], BeforeLast(group);
    if |group| > 1 {
      SummaryPorts(init);
    }
    assert group == init + [it];
    AppendNewMembers(before.ports, DeclaredPorts(it.entry));
    AppendNewMembers(before.protocols, ProtocolsOf(it.entry.protocols));
  }

  /** An edge lists its assignments in order, and its ports are distinct, within
      range, and exactly those its records declare. */
  lemma SummaryMeaning(group: seq<Item>)
    requires Entries(group) && group != []
    ensures var c := Summary(group);
            && c.indexes == Indexes(group)
            && c.source == group[0].entry.source && c.target == group[0].entry.target
            && Distinct(c.ports) && Distinct(c.protocols)
            && (forall n :: n in c.ports ==> InRange(n))
            && (forall n :: n in c.ports <==> exists it :: it in group && DeclaresPort(it.entry, n))
            && (forall p :: p in c.protocols <==> exists it :: it in group && DeclaresProtocol(it.entry, p))
  {
    SummaryListsRecords(group);
    SummaryPorts(group);
    forall it, n | it in group ensures n in DeclaredPorts(it.entry) <==> DeclaresPort(it.entry, n) {
      PortsIff(if it.entry.ports != [] then it.entry.ports else it.entry.inferredPorts, n);
    }
    forall it, p | it in group ensures p in ProtocolsOf(it.entry.protocols) <==> DeclaresProtocol(it.entry, p) {
      ProtocolsIff(it.entry.protocols, p);
    }
  }

  predicate AllBlank(values: seq<string>) {
    forall i :: 0 <= i < |values| ==> values[i] == ""
  }

  predicate NamedAt(values: seq<string>, i: nat, value: string) {
    i < |values| && values[i] == value && AllBlank(values[..i])
  }

  /** The first value that is not blank, if there is one. */
  ghost predicate FirstNamed(values: seq<string>, value: string) {
    if value == "" then AllBlank(values) else exists i: nat :: NamedAt(values, i, value)
  }

  lemma FirstNamedGrows(values: seq<string>, value: string, more: string)
    requires FirstNamed(values, value)
    ensures FirstNamed(values + [more], if value == "" then more else value)
  {
    var all := values + [more];
    if value != "" {
      var i: nat :| NamedAt(values, i, value);
      assert all[..i] == values[..i];
      assert NamedAt(all, i, value);
    } else if more != "" {
      assert all[..|values|] == values;
      assert NamedAt(all, |values|, more);
    }
  }

  /** The texts that an edge takes from its records. */
  datatype Field = Provider | ProviderLabel | Exposure

  function OfEntry(e: Entry, field: Field): string
    requires e.Entry?
  {
    match field case Provider => e.provider case ProviderLabel => e.providerLabel case Exposure => e.exposure
  }

  function OfEdge(c: Edge, field: Field): string {
    match field case Provider => c.provider case ProviderLabel => c.providerLabel case Exposure => c.exposure
  }

  function Given(group: seq<Item>, field: Field): seq<string>
    requires Entries(group)
  {
    seq(|group|, i requires 0 <= i < |group| => OfEntry(group[i].entry, field))
  }

  lemma AbsorbNames(c: Edge, it: Item, field: Field)
    requires it.entry.Entry?
    ensures OfEdge(Absorb(c, it), field) == if OfEdge(c, field) == "" then OfEntry(it.entry, field) else OfEdge(c, field)
  {
  }

  /** The provider, its label and the exposure are each the first that a record gives. */
  lemma {:induction false} SummaryNamesFirst(group: seq<Item>, field: Field)
    requires Entries(group) && group != []
    ensures FirstNamed(Given(group, field), OfEdge(Summary(group), field))
  {
    var init, it := group[..|group| - 1], group[|group| - 1];
    AbsorbNames(BeforeLast(group), it, field);
    assert Summary(group) == Absorb(BeforeLast(group), it);
    var value := OfEntry(it.entry, field);
    if |group| == 1 {
      FirstNamedGrows([], "", value);
      assert Given(group, field) == [] + [value];
      assert OfEdge(BeforeLast(group), field) == value;
    } else {
      SummaryNamesFirst(init, field);
      FirstNamedGrows(Given(init, field), OfEdge(Summary(init), field), value);
      assert Given(group, field) == Given(init, field) + [value];
    }
  }

  lemma {:induction false} GroupMembers(items: seq<Item>, k: Key)
    requires Entries(items)
    ensures forall it :: it in Group(items, k) <==> it in items && KeyOf(it) == k
  {
    if items != [] {
      GroupMembers(items[..|items| - 1], k);
      assert items == items[..|items| - 1] + [items[|items| - 1]];
    }
  }

  /** Edges with both endpoints never repeat a pair of endpoints. */
  lemma WellFormedEdgesDistinct(items: seq<Item>, relationships: seq<Edge>, i: nat, j: nat)
    requires Entries(items) && IsMerge(items, relationships) && i < j < |relationships|
    requires !relationships[i].malformed && !relationships[j].malformed
    ensures (relationships[i].source, relationships[i].target) != (relationships[j].source, relationships[j].target)
  {
    KeysAreGroups(items);
    EdgeKey(items, relationships, i);
    EdgeKey(items, relationships, j);
  }

  lemma EdgeKey(items: seq<Item>, relationships: seq<Edge>, i: nat)
    requires Entries(items) && IsMerge(items, relationships) && i < |relationships|
    ensures relationships[i].malformed <==> relationships[i].source == "" || relationships[i].target == ""
    ensures !relationships[i].malformed ==> Keys(items)[i] == Key(relationships[i].source, relationships[i].target)
  {
    var g := Group(items, Keys(items)[i]);
    assert IsSummary(items, Keys(items)[i], relationships[i]);
    GroupMembers(items, Keys(items)[i]);
    SummaryMeaning(g);
    MalformedOfFirst(g);
    assert g[0] in g;
  }

  lemma {:induction false} MalformedOfFirst(group: seq<Item>)
    requires Entries(group) && group != []
    ensures Summary(group).malformed <==> group[0].entry.source == "" || group[0].entry.target == ""
  {
    if |group| > 1 {
      MalformedOfFirst(group[..|group| - 1]);
    }
  }

  /** The position of the first record of an edge. */
  function FirstAt(items: seq<Item>, k: Key): (n: nat)
    requires Entries(items) && k in Keys(items)
    ensures n < |items| && KeyOf(items[n]) == k && forall m :: 0 <= m < n ==> KeyOf(items[m]) != k
  {
    var init := items[..|items| - 1];
    KeysCoverItems(init);
    if k in Keys(init) then
      assert forall m :: 0 <= m < |init| ==> init[m] == items[m];
      FirstAt(init, k)
    else |items| - 1
  }

  lemma {:induction false} KeysCoverItems(items: seq<Item>)
    requires Entries(items)
    ensures forall m :: 0 <= m < |items| ==> KeyOf(items[m]) in Keys(items)
  {
    if items != [] {
      KeysCoverItems(items[..|items| - 1]);
    }
  }

  /** Edges stand in the order in which their first records do. */
  lemma {:induction false} KeysInFirstAppearanceOrder(items: seq<Item>, i: nat, j: nat)
    requires Entries(items) && i < j < |Keys(items)|
    ensures FirstAt(items, Keys(items)[i]) < FirstAt(items, Keys(items)[j])
  {
    var init := items[..|items| - 1];
    var ks := Keys(init);
    KeysCoverItems(init);
    KeysAreGroups(init);
    assert i < |ks| && ks[i] == Keys(items)[i] && ks[i] in ks;
    if j < |ks| {
      assert ks[j] == Keys(items)[j] && ks[j] in ks;
      KeysInFirstAppearanceOrder(init, i, j);
    }
  }

  function AllIndexes(relationships: seq<Edge>): multiset<nat> {
    if relationships == [] then multiset{}
    else AllIndexes(relationships[..|relationships| - 1]) + multiset(relationships[|relationships| - 1].indexes)
  }

  lemma {:induction false} AllIndexesUpdate(relationships: seq<Edge>, n: nat, e: Edge, x: nat)
    requires n < |relationships| && e.indexes == relationships[n].indexes + [x]
    ensures AllIndexes(relationships[n := e]) == AllIndexes(relationships) + multiset{x}
  {
    var m := |relationships| - 1;
    var next := relationships[n := e];
    assert multiset(e.indexes) == multiset(relationships[n].indexes) + multiset{x};
    if n < m {
      AllIndexesUpdate(relationships[..m], n, e, x);
      assert next[..m] == relationships[..m][n := e];
    } else {
      assert next[..m] == relationships[..m];
    }
  }

  lemma MergeIsUnique(items: seq<Item>, a: seq<Edge>, b: seq<Edge>)
    requires Entries(items) && IsMerge(items, a) && IsMerge(items, b)
    ensures a == b
  {
    forall i | 0 <= i < |a| ensures a[i] == b[i] {
      assert IsSummary(items, Keys(items)[i], a[i]) && IsSummary(items, Keys(items)[i], b[i]);
    }
  }

  /** The merge of any records, as a value, with its count of indexes. */
  lemma {:induction false} MergeOf(items: seq<Item>) returns (relationships: seq<Edge>)
    requires Entries(items)
    ensures IsMerge(items, relationships) && AllIndexes(relationships) == multiset(Indexes(items))
  {
    if items == [] {
      assert Indexes(items) == [];
      relationships := [];
    } else {
      var init, it := items[..|items| - 1], items[|items| - 1];
      assert items == init + [it];
      assert Indexes(items) == Indexes(init) + [it.index];
      var before := MergeOf(init);
      if KeyOf(it) in Keys(init) {
        var n: nat :| n < |Keys(init)| && Keys(init)[n] == KeyOf(it);
        MergeExisting(init, it, before, n);
        AllIndexesUpdate(before, n, Absorb(before[n], it), it.index);
        relationships := before[n := Absorb(before[n], it)];
      } else {
        MergeNew(init, it, before);
        relationships := before + [Absorb(NewEdge(it.entry), it)];
        AllIndexesPush(before, Absorb(NewEdge(it.entry), it));
      }
    }
  }

  lemma AllIndexesPush(relationships: seq<Edge>, e: Edge)
    ensures AllIndexes(relationships + [e]) == AllIndexes(relationships) + multiset(e.indexes)
  {
    assert (relationships + [e])[..|relationships + [e]| - 1] == relationships;
  }

  /** Every selected record is counted in exactly one edge: the assignment indexes
      of all edges together are the indexes of the records, each as often. */
  lemma EveryRecordCountedOnce(items: seq<Item>, relationships: seq<Edge>)
    requires Entries(items) && IsMerge(items, relationships)
    ensures AllIndexes(relationships) == multiset(Indexes(items))
  {
    var r := MergeOf(items);
    MergeIsUnique(items, r, relationships);
  }

  /** Record `b` has an endpoint spelled like the name given to the one `a` lacks,
      and they agree about the other endpoint. */
  predicate PosesAs(b: Item, a: Item)
    requires a.entry.Entry? && b.entry.Entry?
  {
    || (a.entry.source == "" && b.entry.source == MissingSource(a.index) && KeyOf(a).target == KeyOf(b).target)
    || (a.entry.target == "" && b.entry.target == MissingTarget(a.index) && KeyOf(a).source == KeyOf(b).source)
  }

  predicate NobodyPoses(items: seq<Item>)
    requires Entries(items)
  {
    forall i, j :: 0 <= i < |items| && 0 <= j < |items| ==> !PosesAs(items[i], items[j])
  }

  /** All records of an edge have its endpoints. */
  predicate KeepsEndpoints(items: seq<Item>, k: Key)
    requires Entries(items) && Group(items, k) != []
  {
    var g := Group(items, k);
    forall i :: 0 <= i < |g| ==> g[i].entry.source == Summary(g).source && g[i].entry.target == Summary(g).target
  }

  lemma NobodyPosesKeeps(items: seq<Item>, k: Key)
    requires Entries(items) && Group(items, k) != [] && NobodyPoses(items)
    ensures KeepsEndpoints(items, k)
  {
    var g := Group(items, k);
    GroupMembers(items, k);
    SummaryMeaning(g);
    forall i | 0 <= i < |g| ensures g[i].entry.source == g[0].entry.source && g[i].entry.target == g[0].entry.target {
      assert g[i] in items && g[0] in items;
    }
  }

  lemma PoserSpoils(items: seq<Item>, i: nat, j: nat)
    requires Entries(items) && i < |items| && j < |items| && PosesAs(items[i], items[j])
    ensures Group(items, KeyOf(items[i])) != [] && !KeepsEndpoints(items, KeyOf(items[i]))
  {
    var g := Group(items, KeyOf(items[i]));
    GroupMembers(items, KeyOf(items[i]));
    assert items[i] in g && items[j] in g;
  }

  /** Every record, well formed or not, is merged into an edge with its own endpoints
      exactly when no selected record is spelled like a placeholder of another. */
  lemma EndpointsAgreeIff(items: seq<Item>)
    requires Entries(items)
    ensures (forall k :: k in Keys(items) ==> Group(items, k) != [] && KeepsEndpoints(items, k)) <==> NobodyPoses(items)
  {
    KeysAreGroups(items);
    if NobodyPoses(items) {
      forall k | k in Keys(items) ensures Group(items, k) != [] && KeepsEndpoints(items, k) {
        NobodyPosesKeeps(items, k);
      }
    }
    forall i, j | 0 <= i < |items| && 0 <= j < |items| && PosesAs(items[i], items[j])
      ensures exists k :: k in Keys(items) && (Group(items, k) == [] || !KeepsEndpoints(items, k))
    {
      PoserSpoils(items, i, j);
      assert KeyOf(items[i]) in Keys(items);
    }
  }

  /** Then a record that lacks an endpoint is reported as such, and no other is. */
  lemma MalformedAreReported(items: seq<Item>, n: nat)
    requires Entries(items) && n < |items| && NobodyPoses(items)
    ensures var g := Group(items, KeyOf(items[n]));
            g != [] && (Summary(g).malformed <==> !WellFormed(items[n].entry))
  {
    var k := KeyOf(items[n]);
    GroupMembers(items, k);
    assert items[n] in Group(items, k);
    NobodyPosesKeeps(items, k);
    SummaryMeaning(Group(items, k));
    MalformedOfFirst(Group(items, k));
  }

  lemma TwoInOneGroup(a: Item, b: Item)
    requires a.entry.Entry? && b.entry.Entry? && KeyOf(a) == KeyOf(b)
    ensures Entries([a, b]) && Keys([a, b]) == [KeyOf(a)] && Group([a, b], KeyOf(a)) == [a, b]
  {
    assert [a, b] == [a] + [b] && [a] == [] + [a];
    GroupGrows([], a, KeyOf(a));
    GroupGrows([a], b, KeyOf(a));
  }

  /** A well-formed record that ends up in the edge of an earlier malformed one. */
  lemma PlaceholderCollision(e: Entry)
    requires e.Entry? && e.source == "" && e.target != ""
    ensures var items := [Item(0, e), Item(1, e.(source := "<missing-source-0>"))];
            && Entries(items) && WellFormed(items[1].entry)
            && Group(items, KeyOf(items[1])) == items && Summary(items).source == "" && Summary(items).malformed
  {
    assert Decimal(0) == "0" && MissingSource(0) == "<missing-source-0>";
    var a, b := Item(0, e), Item(1, e.(source := MissingSource(0)));
    TwoInOneGroup(a, b);
    SummaryMeaning([a, b]);
    MalformedOfFirst([a, b]);
  }

  /** The other way round, the malformed record's error is lost. */
  lemma LostMalformedRecord(e: Entry)
    requires e.Entry? && e.source != "" && e.target == ""
    ensures var items := [Item(0, e.(target := "<missing-target-1>")), Item(1, e)];
            && Entries(items) && !WellFormed(items[1].entry)
            && Group(items, KeyOf(items[1])) == items && !Summary(items).malformed
  {
    assert Decimal(1) == "1" && MissingTarget(1) == "<missing-target-1>";
    var a, b := Item(0, e.(target := MissingTarget(1))), Item(1, e);
    TwoInOneGroup(a, b);
    SummaryMeaning([a, b]);
    MalformedOfFirst([a, b]);
  }
}
