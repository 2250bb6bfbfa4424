/** Which installed packs are disabled: the maps built from the state file, the lookup by
    id, and what they mean for the catalog (scenarioforge/generator_manifests.py). */
module InstalledState {
  import Catalog
  import opened Optional
  import opened Text

  /** An item of a pack. `kind` is normalised; `dir` is the directory its recorded
      path leads to, if that exists; `markerIds` are the ids in its marker file. */
  datatype Item =
    | BadItem
    | Item(id: string, kind: string, disabled: bool, uninstalled: bool, dir: Option<string>, markerIds: seq<string>)

  datatype Pack = BadPack | Pack(disabled: bool, uninstalled: bool, items: seq<Item>)

  datatype Info = Info(packDisabled: bool, packUninstalled: bool, itemDisabled: bool, itemUninstalled: bool) {
    predicate Disabled() {
      packDisabled || itemDisabled || itemUninstalled
    }
  }

  /** What the state file says about one item, and the names it goes by. */
  datatype Record = Record(kind: string, ids: seq<string>, dir: Option<string>, info: Info)

  function InfoOf(p: Pack, it: Item): Info
    requires p.Pack? && it.Item?
  {
    Info(p.disabled || p.uninstalled, p.uninstalled, it.disabled || it.uninstalled, it.uninstalled)
  }

  predicate Usable(it: Item) {
    it.Item? && Strip(it.id) != "" && it.kind != ""
  }

  function RecordOf(p: Pack, it: Item): Record
    requires p.Pack? && it.Item?
  {
    Record(it.kind, [Strip(it.id)] + it.markerIds, it.dir, InfoOf(p, it))
  }

  function RecordsOfItems(p: Pack, items: seq<Item>): seq<Record>
    requires p.Pack?
  {
    if items == [] then []
    else
      var last := items[|items| - 1];
      RecordsOfItems(p, items[..|items| - 1]) + if Usable(last) then [RecordOf(p, last)] else []
  }

  /** All records of the state file, in order. */
  function Records(packs: seq<Pack>): seq<Record> {
    if packs == [] then []
    else
      var last := packs[|packs| - 1];
      Records(packs[..|packs| - 1]) + if last.Pack? then RecordsOfItems(last, last.items) else []
  }

  // ----- the two maps -----

  type Named = (string, string)

  predicate Goes(r: Record, key: Named) {
    r.kind == key.0 && key.1 in r.ids
  }

  function FirstNamed(records: seq<Record>, key: Named): Option<Record> {
    if records == [] then None
    else
      var earlier := FirstNamed(records[..|records| - 1], key);
      if earlier.Some? then earlier
      else if Goes(records[|records| - 1], key) then Some(records[|records| - 1])
      else None
  }

  function FirstAt(records: seq<Record>, dir: string): Option<Record> {
    if records == [] then None
    else
      var earlier := FirstAt(records[..|records| - 1], dir);
      if earlier.Some? then earlier
      else if records[|records| - 1].dir == Some(dir) then Some(records[|records| - 1])
      else None
  }

  function InfoIn(r: Option<Record>): Option<Info> {
    if r.Some? then Some(r.value.info) else None
  }

  predicate Holds<K(==)>(m: map<K, Info>, key: K, r: Option<Record>) {
    InfoIn(r) == if key in m then Some(m[key]) else None
  }

  ghost predicate NamesRecords(byKindId: map<Named, Info>, records: seq<Record>) {
    forall key :: Holds(byKindId, key, FirstNamed(records, key))
  }

  ghost predicate PlacesRecords(byPath: map<string, Info>, records: seq<Record>) {
    forall dir :: Holds(byPath, dir, FirstAt(records, dir))
  }

  lemma OneMoreRecord(records: seq<Record>, r: Record)
    ensures forall key :: FirstNamed(records + [r], key) ==
              if FirstNamed(records, key).Some? then FirstNamed(records, key) else if Goes(r, key) then Some(r) else None
    ensures forall dir :: FirstAt(records + [r], dir) ==
              if FirstAt(records, dir).Some? then FirstAt(records, dir) else if r.dir == Some(dir) then Some(r) else None
  {
    assert (records + [r])[..|records|] == records;
  }

  /** What the ids seen so far add to the map. */
  ghost predicate Added(before: map<Named, Info>, after: map<Named, Info>, kind: string, ids: seq<string>, info: Info) {
    forall key :: AddedAt(before, after, kind, ids, info, key)
  }

  predicate AddedAt(before: map<Named, Info>, after: map<Named, Info>, kind: string, ids: seq<string>, info: Info, key: Named) {
    if key in before then key in after && after[key] == before[key]
    else (key in after <==> key.0 == kind && key.1 in ids) && (key in after ==> after[key] == info)
  }

  /** `by_kind_id.setdefault` for every id of an item. */
  method AddNames(byKindId: map<Named, Info>, kind: string, ids: seq<string>, info: Info) returns (next: map<Named, Info>)
    ensures Added(byKindId, next, kind, ids, info)
  {
    next := byKindId;
    for n := 0 to |ids|
      invariant Added(byKindId, next, kind, ids[..n], info)
    {
      ghost var before, more := next, ids[..n + 1];
      assert more == ids[..n] + [ids[n]];
      if (kind, ids[n]) !in next {
        next := next[(kind, ids[n]) := info];
      }
      forall key ensures AddedAt(byKindId, next, kind, more, info, key) {
        assert AddedAt(byKindId, before, kind, ids[..n], info, key);
      }
    }
    assert ids[..|ids|] == ids;
  }

  lemma NamesGrow(before: map<Named, Info>, after: map<Named, Info>, records: seq<Record>, r: Record)
    requires NamesRecords(before, records) && Added(before, after, r.kind, r.ids, r.info)
    ensures NamesRecords(after, records + [r])
  {
    var next := records + [r];
    OneMoreRecord(records, r);
    forall key ensures Holds(after, key, FirstNamed(next, key)) {
      assert Holds(before, key, FirstNamed(records, key)) && AddedAt(before, after, r.kind, r.ids, r.info, key);
    }
  }

  method AddItem(byKindId: map<Named, Info>, byPath: map<string, Info>, p: Pack, it: Item, ghost records: seq<Record>)
    returns (byKindId': map<Named, Info>, byPath': map<string, Info>)
    requires p.Pack? && Usable(it)
    requires NamesRecords(byKindId, records) && PlacesRecords(byPath, records)
    ensures NamesRecords(byKindId', records + [RecordOf(p, it)]) && PlacesRecords(byPath', records + [RecordOf(p, it)])
  {
    var info := InfoOf(p, it);
    byPath' := byPath;
    if it.dir.Some? && it.dir.value !in byPath {
      byPath' := byPath[it.dir.value := info];
    }
    var ids := [Strip(it.id)] + it.markerIds;
    byKindId' := AddNames(byKindId, it.kind, ids, info);
    NamesGrow(byKindId, byKindId', records, RecordOf(p, it));
  }

  /** The nested loops over packs and their items. */
  method InstalledGeneratorStateMaps(packs: seq<Pack>) returns (byKindId: map<Named, Info>, byPath: map<string, Info>)
    ensures NamesRecords(byKindId, Records(packs)) && PlacesRecords(byPath, Records(packs))
  {
    byKindId, byPath := map[], map[];
    ghost var done: seq<Record> := [];
    for n := 0 to |packs|
      invariant done == Records(packs[..n])
      invariant NamesRecords(byKindId, done) && PlacesRecords(byPath, done)
    {
      assert packs[..n + 1][..n] == packs[..n];
      var p := packs[n];
      if p.BadPack? {
        continue;
      }
      ghost var before := done;
      for i := 0 to |p.items|
        invariant done == before + RecordsOfItems(p, p.items[..i])
        invariant NamesRecords(byKindId, done) && PlacesRecords(byPath, done)
      {
        ItemsGrow(p, before, i);
        if Usable(p.items[i]) {
          byKindId, byPath := AddItem(byKindId, byPath, p, p.items[i], done);
          done := done + [RecordOf(p, p.items[i])];
        }
      }
      assert p.items[..|p.items|] == p.items;
    }
    assert packs[..|packs|] == packs;
  }

  lemma ItemsGrow(p: Pack, before: seq<Record>, i: nat)
    requires p.Pack? && i < |p.items|
    ensures before + RecordsOfItems(p, p.items[..i + 1]) ==
            if Usable(p.items[i]) then before + RecordsOfItems(p, p.items[..i]) + [RecordOf(p, p.items[i])]
            else before + RecordsOfItems(p, p.items[..i])
  {
    assert p.items[..i + 1][..i] == p.items[..i];
  }

  // ----- the lookup -----

  /** The first candidate, blanks aside, that any record of the kind goes by. */
  function FirstCandidate(records: seq<Record>, kind: string, candidates: seq<string>): Option<Record> {
    if candidates == [] then None
    else
      var id := Strip(candidates[0]);
      if id != "" && FirstNamed(records, (kind, id)).Some? then FirstNamed(records, (kind, id))
      else FirstCandidate(records, kind, candidates[1..])
  }

  /** The scan with its set of ids seen. */
  method LookupInstalledGeneratorState(byKindId: map<Named, Info>, kind: string, candidates: seq<string>,
                                       ghost records: seq<Record>) returns (r: Option<Info>)
    requires NamesRecords(byKindId, records)
    ensures r == InfoIn(FirstCandidate(records, kind, candidates))
  {
    var seen: set<string> := {};
    for n := 0 to |candidates|
      invariant forall id :: id in seen ==> FirstNamed(records, (kind, id)).None?
      invariant FirstCandidate(records, kind, candidates) == FirstCandidate(records, kind, candidates[n..])
    {
      assert candidates[n..][1..] == candidates[n + 1..];
      var id := Strip(candidates[n]);
      if id == "" || id in seen {
        continue;
      }
      seen := seen + {id};
      assert Holds(byKindId, (kind, id), FirstNamed(records, (kind, id)));
      if (kind, id) in byKindId {
        return Some(byKindId[(kind, id)]);
      }
    }
    return None;
  }

  // ----- the record that decides -----

  /** Directory first, ids only for a pack whose directory is not recorded. */
  function Deciding(records: seq<Record>, kind: string, dir: string, candidates: seq<string>): Option<Record> {
    if FirstAt(records, dir).Some? then FirstAt(records, dir) else FirstCandidate(records, kind, candidates)
  }

  lemma {:induction false} FirstAtIsThere(records: seq<Record>, dir: string)
    ensures var r := FirstAt(records, dir);
            && (r.Some? ==> r.value in records && r.value.dir == Some(dir))
            && (r.None? ==> forall x :: x in records ==> x.dir != Some(dir))
  {
    if records != [] {
      FirstAtIsThere(records[..|records| - 1], dir);
      assert records == records[..|records| - 1] + [records[|records| - 1]];
    }
  }

  lemma {:induction false} FirstNamedGoes(records: seq<Record>, key: Named)
    ensures var r := FirstNamed(records, key);
            && (r.Some? ==> r.value in records && Goes(r.value, key))
            && (r.None? ==> forall x :: x in records ==> !Goes(x, key))
  {
    if records != [] {
      FirstNamedGoes(records[..|records| - 1], key);
      assert records == records[..|records| - 1] + [records[|records| - 1]];
    }
  }

  lemma {:induction false} CandidateIsRecorded(records: seq<Record>, kind: string, candidates: seq<string>)
    ensures var r := FirstCandidate(records, kind, candidates); r.Some? ==> r.value in records
  {
    if candidates != [] {
      FirstNamedGoes(records, (kind, Strip(candidates[0])));
      CandidateIsRecorded(records, kind, candidates[1..]);
    }
  }

  /** The first record that meets the condition. */
  predicate FirstWith(records: seq<Record>, meets: Record -> bool, k: nat) {
    k < |records| && meets(records[k]) && forall h :: 0 <= h < k ==> !meets(records[h])
  }

  lemma {:induction false} FirstNamedIsFirst(records: seq<Record>, key: Named)
    requires FirstNamed(records, key).Some?
    ensures exists k: nat :: FirstWith(records, r => Goes(r, key), k) && FirstNamed(records, key) == Some(records[k])
  {
    var n := |records| - 1;
    if FirstNamed(records[..n], key).Some? {
      FirstNamedIsFirst(records[..n], key);
      var k: nat :| FirstWith(records[..n], r => Goes(r, key), k) && FirstNamed(records[..n], key) == Some(records[..n][k]);
      assert FirstWith(records, r => Goes(r, key), k);
    } else {
      FirstNamedGoes(records[..n], key);
      assert FirstWith(records, r => Goes(r, key), n);
    }
  }

  /** The lookup finds the record of the first candidate that names one. */
  lemma {:induction false} FirstCandidateIsFirst(records: seq<Record>, kind: string, candidates: seq<string>)
    ensures var r := FirstCandidate(records, kind, candidates);
            if exists j :: 0 <= j < |candidates| && NamesSome(records, kind, candidates[j])
            then exists j :: 0 <= j < |candidates| && NamesSome(records, kind, candidates[j])
                   && r == FirstNamed(records, (kind, Strip(candidates[j])))
                   && forall h :: 0 <= h < j ==> !NamesSome(records, kind, candidates[h])
            else r == None
  {
    if candidates != [] {
      var rest := candidates[1..];
      FirstNamedGoes(records, (kind, Strip(candidates[0])));
      if !NamesSome(records, kind, candidates[0]) {
        FirstCandidateIsFirst(records, kind, rest);
        assert forall h :: 0 < h < |candidates| ==> candidates[h] == rest[h - 1];
        if j :| 0 <= j < |rest| && NamesSome(records, kind, rest[j])
                && FirstCandidate(records, kind, rest) == FirstNamed(records, (kind, Strip(rest[j])))
                && forall h :: 0 <= h < j ==> !NamesSome(records, kind, rest[h]) {
          assert candidates[j + 1] == rest[j];
        }
      }
    }
  }

  /** A candidate, blanks aside, is an id that some record of the kind goes by. */
  ghost predicate NamesSome(records: seq<Record>, kind: string, candidate: string) {
    Strip(candidate) != "" && exists r :: r in records && r.kind == kind && Strip(candidate) in r.ids
  }

  // ----- what the state file says -----

  /** Item `j` of pack `i` is usable and lies in the directory. */
  predicate PlacedAt(packs: seq<Pack>, i: nat, j: nat, dir: string) {
    && i < |packs| && packs[i].Pack? && j < |packs[i].items|
    && var it := packs[i].items[j];
       it.Item? && Strip(it.id) != "" && it.kind != "" && it.dir == Some(dir)
  }

  /** The record says what the item and its pack do: it is disabled if either is disabled
      or uninstalled, and goes by the item's id and its marker's. */
  predicate Tells(r: Record, p: Pack, it: Item)
    requires p.Pack? && it.Item?
  {
    && r.kind == it.kind && r.dir == it.dir && r.ids == [Strip(it.id)] + it.markerIds
    && (r.info.Disabled() <==> p.disabled || p.uninstalled || it.disabled || it.uninstalled)
  }

  ghost predicate TellsFirst(packs: seq<Pack>, dir: string, i: nat, j: nat, r: Record) {
    && PlacedAt(packs, i, j, dir) && Tells(r, packs[i], packs[i].items[j])
    && forall i': nat, j': nat :: PlacedAt(packs, i', j', dir) ==> i < i' || (i == i' && j <= j')
  }

  lemma {:induction false} FirstAtAppend(a: seq<Record>, b: seq<Record>, dir: string)
    ensures FirstAt(a + b, dir) == if FirstAt(a, dir).Some? then FirstAt(a, dir) else FirstAt(b, dir)
  {
    if b == [] {
      assert a + b == a;
    } else {
      assert (a + b)[..|a + b| - 1] == a + b[..|b| - 1];
      FirstAtAppend(a, b[..|b| - 1], dir);
    }
  }

  predicate ItemIn(items: seq<Item>, j: nat, dir: string) {
    j < |items| && items[j].Item? && Strip(items[j].id) != "" && items[j].kind != "" && items[j].dir == Some(dir)
  }

  ghost predicate TellsFirstItem(p: Pack, items: seq<Item>, dir: string, j: nat, r: Record)
    requires p.Pack?
  {
    ItemIn(items, j, dir) && Tells(r, p, items[j]) && forall h: nat :: ItemIn(items, h, dir) ==> j <= h
  }

  lemma OneMoreItem(p: Pack, items: seq<Item>, last: Item, dir: string)
    requires p.Pack?
    ensures var before, now := FirstAt(RecordsOfItems(p, items), dir), FirstAt(RecordsOfItems(p, items + [last]), dir);
            now == if before.Some? then before
                   else if ItemIn(items + [last], |items|, dir) then Some(RecordOf(p, last)) else None
  {
    assert (items + [last])[..|items|] == items;
    if Usable(last) {
      OneMoreRecord(RecordsOfItems(p, items), RecordOf(p, last));
    } else {
      assert RecordsOfItems(p, items) + [] == RecordsOfItems(p, items);
    }
  }

  lemma {:induction false} FirstItem(p: Pack, items: seq<Item>, dir: string)
    requires p.Pack?
    ensures var r := FirstAt(RecordsOfItems(p, items), dir);
            if exists j: nat :: ItemIn(items, j, dir)
            then r.Some? && exists j: nat :: TellsFirstItem(p, items, dir, j, r.value)
            else r.None?
  {
    if items != [] {
      var n := |items| - 1;
      var init, last := items[..n], items[n];
      FirstItem(p, init, dir);
      assert items == init + [last];
      OneMoreItem(p, init, last, dir);
      assert forall j: nat :: ItemIn(init, j, dir) <==> j < n && ItemIn(items, j, dir);
      if exists j: nat :: ItemIn(init, j, dir) {
        var r := FirstAt(RecordsOfItems(p, init), dir).value;
        var j: nat :| TellsFirstItem(p, init, dir, j, r);
        assert TellsFirstItem(p, items, dir, j, r);
      } else if ItemIn(items, n, dir) {
        assert TellsFirstItem(p, items, dir, n, RecordOf(p, last));
      }
    }
  }

  /** The state of a directory is what the first usable item of the file that lies there
      and its pack say; there is none only if no such item lies there. */
  lemma {:induction false} FirstAtIsFirstItem(packs: seq<Pack>, dir: string)
    ensures var r := FirstAt(Records(packs), dir);
            if exists i: nat, j: nat :: PlacedAt(packs, i, j, dir)
            then r.Some? && exists i: nat, j: nat :: TellsFirst(packs, dir, i, j, r.value)
            else r.None?
  {
    if packs != [] {
      var n := |packs| - 1;
      var init, last := packs[..n], packs[n];
      FirstAtIsFirstItem(init, dir);
      assert forall i: nat, j: nat :: PlacedAt(init, i, j, dir) <==> i < n && PlacedAt(packs, i, j, dir);
      var added := if last.Pack? then RecordsOfItems(last, last.items) else [];
      FirstAtAppend(Records(init), added, dir);
      if last.Pack? {
        FirstItem(last, last.items, dir);
        assert forall j: nat :: ItemIn(last.items, j, dir) <==> PlacedAt(packs, n, j, dir);
      }
      if exists i: nat, j: nat :: PlacedAt(init, i, j, dir) {
        var r := FirstAt(Records(init), dir).value;
        var i: nat, j: nat :| TellsFirst(init, dir, i, j, r);
        assert TellsFirst(packs, dir, i, j, r);
      } else if last.Pack? && exists j: nat :: ItemIn(last.items, j, dir) {
        var r := FirstAt(added, dir).value;
        var j: nat :| TellsFirstItem(last, last.items, dir, j, r);
        assert TellsFirst(packs, dir, n, j, r);
      }
    }
  }

  /** A pack's state comes from the record of another directory, or of none, exactly
      when its own directory is not recorded. */
  lemma ForeignIff(records: seq<Record>, kind: string, dir: string, candidates: seq<string>)
    requires Deciding(records, kind, dir, candidates).Some?
    ensures var r := Deciding(records, kind, dir, candidates).value;
            && r in records
            && (r.dir != Some(dir) <==> forall x :: x in records ==> x.dir != Some(dir))
  {
    FirstAtIsThere(records, dir);
    CandidateIsRecorded(records, kind, candidates);
  }

  /** The collision of the two id spaces: pack 110 publishes source id 126 and is
      enabled, pack 126 is disabled. While 110's directory is not recorded, the
      disable of 126 lands on it; once it is, it does not. */
  lemma DisableCanLandElsewhere()
    ensures var other := Pack(false, false, [Item("126", "flag-generator", true, false, Some("/g/x__126"), ["126"])]);
            var own := Item("110", "flag-generator", false, false, None, ["126", "110"]);
            var ids := ["126", "126", "110", "110"];
            var lost := Records([other, Pack(false, false, [own])]);
            var kept := Records([other, Pack(false, false, [own.(dir := Some("/g/y__110"))])]);
            && Deciding(lost, "flag-generator", "/g/y__110", ids).Some?
            && Deciding(lost, "flag-generator", "/g/y__110", ids).value.info.Disabled()
            && Deciding(kept, "flag-generator", "/g/y__110", ids).Some?
            && !Deciding(kept, "flag-generator", "/g/y__110", ids).value.info.Disabled()
  {
    var other := Pack(false, false, [Item("126", "flag-generator", true, false, Some("/g/x__126"), ["126"])]);
    var own := Item("110", "flag-generator", false, false, None, ["126", "110"]);
    StripKeepsTrimmed("126");
    StripKeepsTrimmed("110");
    TwoRecords(other, Pack(false, false, [own]));
    TwoRecords(other, Pack(false, false, [own.(dir := Some("/g/y__110"))]));
  }

  lemma TwoRecords(a: Pack, b: Pack)
    requires a.Pack? && b.Pack? && |a.items| == 1 && |b.items| == 1 && Usable(a.items[0]) && Usable(b.items[0])
    ensures var x, y := RecordOf(a, a.items[0]), RecordOf(b, b.items[0]);
            && Records([a, b]) == [x, y]
            && (forall key :: FirstNamed([x, y], key) == if Goes(x, key) then Some(x) else if Goes(y, key) then Some(y) else None)
            && (forall dir :: FirstAt([x, y], dir) == if x.dir == Some(dir) then Some(x) else if y.dir == Some(dir) then Some(y) else None)
  {
    var x, y := RecordOf(a, a.items[0]), RecordOf(b, b.items[0]);
    assert [a, b][..1] == [a] && [a][..0] == [];
    assert RecordsOfItems(a, a.items[..0]) == [] && RecordsOfItems(b, b.items[..0]) == [];
    assert RecordsOfItems(a, a.items) == [x] && RecordsOfItems(b, b.items) == [y];
    assert Records([a]) == Records([]) + [x];
    assert Records([a, b]) == Records([a]) + [y];
    assert [x, y] == [x] + [y] && [x] == [] + [x];
    OneMoreRecord([], x);
    OneMoreRecord([x], y);
  }

  // ----- the catalog -----

  /** A manifest before its state is looked up: where it lies and the ids its marker
      and document give it. */
  datatype Found = Found(manifest: Catalog.Manifest, dir: string, assignedId: string)

  function Candidates(f: Found): seq<string> {
    [Catalog.Id(f.manifest), f.manifest.sourceId, f.assignedId, f.manifest.docId]
  }

  function StateOf(records: seq<Record>, kind: string, f: Found): Option<Record> {
    Deciding(records, kind, f.dir, Candidates(f))
  }

  /** A state is found exactly when the directory is recorded, or some record goes by one
      of the ids that marker and document give. */
  lemma StateFoundIff(records: seq<Record>, kind: string, f: Found)
    ensures StateOf(records, kind, f).Some? <==>
            || (exists r :: r in records && r.dir == Some(f.dir))
            || NamesSome(records, kind, f.manifest.sourceId) || NamesSome(records, kind, f.assignedId)
            || NamesSome(records, kind, f.manifest.docId)
  {
    var ids := Candidates(f);
    FirstAtIsThere(records, f.dir);
    FirstCandidateIsFirst(records, kind, ids);
    forall id ensures NamesSome(records, kind, id) ==> FirstNamed(records, (kind, Strip(id))).Some? {
      FirstNamedGoes(records, (kind, Strip(id)));
    }
    assert ids[0] == Catalog.Id(f.manifest) && ids[1] == f.manifest.sourceId;
    assert ids[2] == f.assignedId && ids[3] == f.manifest.docId;
  }

  function Load(records: seq<Record>, kind: string, f: Found): Catalog.Manifest {
    var r := StateOf(records, kind, f);
    f.manifest.(stateDisabled := f.manifest.installed && r.Some? && r.value.info.Disabled())
  }

  function LoadAll(records: seq<Record>, kind: string, found: seq<Found>): seq<Catalog.Manifest> {
    seq(|found|, i requires 0 <= i < |found| => Load(records, kind, found[i]))
  }

  /** The directory of every installed manifest is recorded. */
  predicate AllPlaced(records: seq<Record>, found: seq<Found>) {
    forall f :: f in found && f.manifest.installed ==> FirstAt(records, f.dir).Some?
  }

  /** With every directory recorded, an id is suppressed exactly when a pack that
      publishes it is disabled by the record of its own directory: no collision of
      ids between packs has any part in it. */
  lemma SuppressedByOwnRecord(records: seq<Record>, kind: string, found: seq<Found>, id: string)
    requires AllPlaced(records, found)
    ensures Catalog.AnyDisabled(LoadAll(records, kind, found), id) <==>
            exists f :: f in found && OwnRecordDisables(records, f, id)
  {
    var ms := LoadAll(records, kind, found);
    if Catalog.AnyDisabled(ms, id) {
      var m :| m in ms && Catalog.Gate(m).None? && Catalog.Id(m) == id && m.installed && m.stateDisabled;
      var i :| 0 <= i < |ms| && ms[i] == m;
      assert found[i] in found && OwnRecordDisables(records, found[i], id);
    }
    if exists f :: f in found && OwnRecordDisables(records, f, id) {
      var f :| f in found && OwnRecordDisables(records, f, id);
      var i :| 0 <= i < |found| && found[i] == f;
      assert ms[i] in ms && ms[i].stateDisabled;
    }
  }

  predicate OwnRecordDisables(records: seq<Record>, f: Found, id: string) {
    && f.manifest.installed && Catalog.Gate(f.manifest).None? && Catalog.Id(f.manifest) == id
    && FirstAt(records, f.dir).Some? && FirstAt(records, f.dir).value.info.Disabled()
  }

  /** Two state files that record every installed directory and agree there publish
      the same winners, whatever else they record and under whatever ids. */
  lemma StateElsewhereDoesNotMatter(a: seq<Record>, b: seq<Record>, kind: string, found: seq<Found>,
                                    id: string, includeDisabled: bool)
    requires AllPlaced(a, found) && AllPlaced(b, found)
    requires forall f :: f in found && f.manifest.installed ==>
               InfoIn(FirstAt(a, f.dir)) == InfoIn(FirstAt(b, f.dir))
    ensures Catalog.Winner(LoadAll(a, kind, found), id, includeDisabled)
         == Catalog.Winner(LoadAll(b, kind, found), id, includeDisabled)
  {
    forall i | 0 <= i < |found| ensures Load(a, kind, found[i]) == Load(b, kind, found[i]) {
      assert found[i] in found;
    }
    assert LoadAll(a, kind, found) == LoadAll(b, kind, found);
  }
}
