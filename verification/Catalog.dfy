/** Resolution of generator manifests into one catalog
    (`discover_generator_manifests` in scenarioforge/generator_manifests.py). */
module Catalog {
  import opened Optional
  import opened Ordering
  import opened Sequences

  /** One manifest file as the resolution loop sees it: the outcome of loading
      it, its ids (already trimmed), where it was found, and the two facts that
      can disable it. `sourceId` is the pack marker's `source_generator_id`;
      `stateDisabled` is the installed-pack state found for it; `blocked` says
      its compose stack cannot share one network namespace. */
  datatype Manifest = Manifest(
    path: string, parsed: bool, isMapping: bool, version: int, docId: string, kindMatches: bool,
    sourceId: string, installed: bool, stateDisabled: bool, blocked: bool, sortName: string)

  datatype Reason = Unparsable | NotAMapping | WrongVersion | MissingId | KindMismatch

  datatype CatalogError =
    | Rejected(path: string, reason: Reason)
    | Duplicate(path: string, id: string)
    | Conflict(path: string, id: string)

  /** The reason a manifest is skipped before resolution, if any. */
  function Gate(m: Manifest): Option<Reason> {
    if !m.parsed then Some(Unparsable)
    else if !m.isMapping then Some(NotAMapping)
    else if m.version != 1 then Some(WrongVersion)
    else if m.docId == "" then Some(MissingId)
    else if !m.kindMatches then Some(KindMismatch)
    else None
  }

  /** Installed packs go by their stable source id. */
  function Id(m: Manifest): string {
    if m.installed && m.sourceId != "" then m.sourceId else m.docId
  }

  /** The view's `_disabled` mark. */
  predicate Disabled(m: Manifest) {
    (m.installed && m.stateDisabled) || m.blocked
  }

  /** An entry of the working list; a withdrawn entry is overwritten by `{}`. */
  datatype Entry = Gone | Live(manifest: Manifest)

  datatype State = State(
    generators: seq<Entry>,
    plugins: map<string, Manifest>,
    index: map<string, nat>,
    isInstalled: map<string, bool>,
    conflicting: set<string>,
    suppressed: set<string>,
    errors: seq<CatalogError>)

  const INIT := State([], map[], map[], map[], {}, {}, [])

  /** A disabled installed copy withdraws the id; its list entry goes stale. */
  function Suppress(s: State, id: string): State {
    s.(suppressed := s.suppressed + {id},
       plugins := s.plugins - {id}, index := s.index - {id}, isInstalled := s.isInstalled - {id})
  }

  /** A first copy enters the maps and the list. */
  function Publish(s: State, id: string, m: Manifest): State {
    s.(plugins := s.plugins[id := m],
       index := s.index[id := |s.generators|],
       isInstalled := s.isInstalled[id := m.installed],
       generators := s.generators + [Live(m)])
  }

  /** An installed copy takes the place of a repository copy. */
  function Replace(s: State, id: string, m: Manifest): State {
    if id in s.index && s.index[id] < |s.generators| then
      s.(plugins := s.plugins[id := m],
         generators := s.generators[s.index[id] := Live(m)],
         isInstalled := s.isInstalled[id := true])
    else
      Publish(s, id, m).(isInstalled := s.isInstalled[id := true])
  }

  /** Two installed copies: the id is ambiguous and its entry is emptied. */
  function Withdraw(s: State, id: string, m: Manifest): State {
    s.(errors := s.errors + [Duplicate(m.path, id)],
       conflicting := s.conflicting + {id},
       plugins := s.plugins - {id},
       generators := if id in s.index && s.index[id] < |s.generators|
                     then s.generators[s.index[id] := Gone] else s.generators,
       index := s.index - {id}, isInstalled := s.isInstalled - {id})
  }

  /** The loop body, branch by branch. */
  function Step(s: State, m: Manifest, includeDisabled: bool): State {
    var id := Id(m);
    if Gate(m).Some? then s.(errors := s.errors + [Rejected(m.path, Gate(m).value)])
    else if m.installed && !includeDisabled && m.stateDisabled then Suppress(s, id)
    else if !m.installed && !includeDisabled && id in s.suppressed then s
    else if id in s.plugins then
      var prevInstalled := id in s.isInstalled && s.isInstalled[id];
      if m.installed && !prevInstalled then Replace(s, id, m)
      else if m.installed && prevInstalled then Withdraw(s, id, m)
      else s.(errors := s.errors + [Duplicate(m.path, id)])
    else if id in s.conflicting then s.(errors := s.errors + [Conflict(m.path, id)])
    else Publish(s, id, m)
  }

  function Run(ms: seq<Manifest>, includeDisabled: bool): State {
    if ms == [] then INIT
    else Step(Run(ms[..|ms| - 1], includeDisabled), ms[|ms| - 1], includeDisabled)
  }

  // ----- the order-free rule -----

  /** The copies of an id that a repository base contributes. */
  function RepoCopies(ms: seq<Manifest>, id: string): seq<Manifest> {
    if ms == [] then []
    else
      var m := ms[|ms| - 1];
      RepoCopies(ms[..|ms| - 1], id) + if Gate(m).None? && Id(m) == id && !m.installed then [m] else []
  }

  /** Installed copies that count: disabled ones do not when only enabled ones are wanted. */
  function InstalledCopies(ms: seq<Manifest>, id: string, includeDisabled: bool): seq<Manifest> {
    if ms == [] then []
    else
      var m := ms[|ms| - 1];
      InstalledCopies(ms[..|ms| - 1], id, includeDisabled) +
      if Gate(m).None? && Id(m) == id && m.installed && (includeDisabled || !m.stateDisabled) then [m] else []
  }

  predicate AnyDisabled(ms: seq<Manifest>, id: string) {
    exists m :: m in ms && Gate(m).None? && Id(m) == id && m.installed && m.stateDisabled
  }

  /** Who represents an id before the last filter. */
  function Candidate(ms: seq<Manifest>, id: string, includeDisabled: bool): Option<Manifest> {
    var repo, installed := RepoCopies(ms, id), InstalledCopies(ms, id, includeDisabled);
    if !includeDisabled && AnyDisabled(ms, id) then None
    else if |installed| == 1 then Some(installed[0])
    else if |installed| == 0 && repo != [] then Some(repo[0])
    else None
  }

  /** The published entry of an id: no entry when an installed copy is disabled
      or two compete; else the installed copy, else the first repository copy;
      and when only enabled entries are wanted, none that is marked disabled. */
  function Winner(ms: seq<Manifest>, id: string, includeDisabled: bool): Option<Manifest> {
    var c := Candidate(ms, id, includeDisabled);
    if c.Some? && !includeDisabled && Disabled(c.value) then None else c
  }

  // ----- the invariant of the loop -----

  /** The maps know the same ids and agree about this one, whose list entry is live. */
  ghost predicate IdLinked(s: State, id: string) {
    && (id in s.plugins <==> id in s.index)
    && (id in s.plugins <==> id in s.isInstalled)
    && (id in s.plugins ==>
          && id !in s.conflicting
          && s.index[id] < |s.generators|
          && s.generators[s.index[id]] == Live(s.plugins[id])
          && Id(s.plugins[id]) == id
          && s.isInstalled[id] == s.plugins[id].installed)
  }

  /** A live entry is the one its id points at, or stale and of a suppressed id. */
  ghost predicate EntryLinked(s: State, k: nat)
    requires k < |s.generators|
  {
    s.generators[k].Live? ==>
      var id := Id(s.generators[k].manifest);
      id in s.suppressed || (id in s.index && s.index[id] == k)
  }

  ghost predicate Linked(s: State) {
    && (forall id :: IdLinked(s, id))
    && (forall k :: 0 <= k < |s.generators| ==> EntryLinked(s, k))
  }

  /** What the loop knows about one id is what the rule says about the prefix. */
  ghost predicate Agrees(s: State, ms: seq<Manifest>, id: string, includeDisabled: bool) {
    && (id in s.suppressed <==> !includeDisabled && AnyDisabled(ms, id))
    && (id !in s.suppressed ==>
          && (id in s.conflicting <==> |InstalledCopies(ms, id, includeDisabled)| >= 2)
          && (id in s.plugins <==> Candidate(ms, id, includeDisabled).Some?)
          && (id in s.plugins ==> Candidate(ms, id, includeDisabled) == Some(s.plugins[id])))
  }

  lemma SuppressKeepsLinks(s: State, id: string)
    requires Linked(s)
    ensures Linked(Suppress(s, id))
  {
    var t := Suppress(s, id);
    forall other ensures IdLinked(t, other) {
      assert IdLinked(s, other);
    }
    forall k | 0 <= k < |t.generators| ensures EntryLinked(t, k) {
      assert EntryLinked(s, k);
    }
  }

  lemma PublishKeepsLinks(s: State, m: Manifest)
    requires Linked(s) && Id(m) !in s.plugins && Id(m) !in s.conflicting
    ensures Linked(Publish(s, Id(m), m))
  {
    var t := Publish(s, Id(m), m);
    forall other ensures IdLinked(t, other) {
      assert IdLinked(s, other);
    }
    forall k | 0 <= k < |t.generators| ensures EntryLinked(t, k) {
      if k < |s.generators| {
        assert EntryLinked(s, k);
        assert IdLinked(s, Id(m));
      }
    }
  }

  lemma ReplaceKeepsLinks(s: State, m: Manifest)
    requires Linked(s) && Id(m) in s.plugins && m.installed
    ensures Linked(Replace(s, Id(m), m))
  {
    var t := Replace(s, Id(m), m);
    assert IdLinked(s, Id(m));
    forall other ensures IdLinked(t, other) {
      OwnSlot(s, Id(m), other);
    }
    forall k | 0 <= k < |t.generators| ensures EntryLinked(t, k) {
      assert EntryLinked(s, k);
    }
  }

  lemma WithdrawKeepsLinks(s: State, m: Manifest)
    requires Linked(s) && Id(m) in s.plugins
    ensures Linked(Withdraw(s, Id(m), m))
  {
    var t := Withdraw(s, Id(m), m);
    assert IdLinked(s, Id(m));
    forall other ensures IdLinked(t, other) {
      OwnSlot(s, Id(m), other);
    }
    forall k | 0 <= k < |t.generators| ensures EntryLinked(t, k) {
      assert EntryLinked(s, k);
    }
  }

  /** No two ids share a list entry. */
  lemma OwnSlot(s: State, id: string, other: string)
    requires Linked(s) && id in s.plugins
    ensures IdLinked(s, id) && IdLinked(s, other)
    ensures other in s.index && other != id ==> s.index[other] != s.index[id]
  {
    assert IdLinked(s, id) && IdLinked(s, other);
  }

  lemma StepKeepsLinks(s: State, m: Manifest, includeDisabled: bool)
    requires Linked(s)
    ensures Linked(Step(s, m, includeDisabled))
  {
    var id := Id(m);
    if Gate(m).Some? {
      ErrorsDoNotMatter(s, s.errors + [Rejected(m.path, Gate(m).value)]);
    } else if m.installed && !includeDisabled && m.stateDisabled {
      SuppressKeepsLinks(s, id);
    } else if id in s.plugins {
      ErrorsDoNotMatter(s, s.errors + [Duplicate(m.path, id)]);
      WithdrawKeepsLinks(s, m);
      if m.installed {
        ReplaceKeepsLinks(s, m);
      }
    } else if id !in s.conflicting {
      PublishKeepsLinks(s, m);
    } else {
      ErrorsDoNotMatter(s, s.errors + [Conflict(m.path, id)]);
    }
  }

  lemma ErrorsDoNotMatter(s: State, errors: seq<CatalogError>)
    requires Linked(s)
    ensures Linked(s.(errors := errors))
  {
    var t := s.(errors := errors);
    forall id ensures IdLinked(t, id) {
      assert IdLinked(s, id);
    }
    forall k | 0 <= k < |t.generators| ensures EntryLinked(t, k) {
      assert EntryLinked(s, k);
    }
  }

  lemma CopiesComeFromList(ms: seq<Manifest>, id: string, includeDisabled: bool)
    ensures forall m :: m in RepoCopies(ms, id) ==> m in ms && Gate(m).None? && Id(m) == id && !m.installed
    ensures forall m :: m in InstalledCopies(ms, id, includeDisabled) ==>
              m in ms && Gate(m).None? && Id(m) == id && m.installed
  {
    if ms != [] {
      var init := ms[..|ms| - 1];
      CopiesComeFromList(init, id, includeDisabled);
      assert forall m :: m in init ==> m in ms;
      assert ms[|ms| - 1] in ms;
    }
  }

  lemma CopiesGrow(ms: seq<Manifest>, m: Manifest, id: string, includeDisabled: bool)
    ensures RepoCopies(ms + [m], id)
         == RepoCopies(ms, id) + if Gate(m).None? && Id(m) == id && !m.installed then [m] else []
    ensures InstalledCopies(ms + [m], id, includeDisabled)
         == InstalledCopies(ms, id, includeDisabled) +
            if Gate(m).None? && Id(m) == id && m.installed && (includeDisabled || !m.stateDisabled) then [m] else []
  {
    assert (ms + [m])[..|ms + [m]| - 1] == ms;
  }

  lemma OtherIdsUntouched(s: State, m: Manifest, id: string, includeDisabled: bool)
    requires id != Id(m) || Gate(m).Some?
    ensures var t := Step(s, m, includeDisabled);
            && (id in t.suppressed <==> id in s.suppressed)
            && (id in t.conflicting <==> id in s.conflicting)
            && (id in t.plugins <==> id in s.plugins)
            && (id in s.plugins ==> t.plugins[id] == s.plugins[id])
  {
  }

  /** All that the loop knows about one id. */
  datatype View = View(suppressed: bool, conflicting: bool, plugin: Option<Manifest>)

  function ViewOf(s: State, id: string): View {
    View(id in s.suppressed, id in s.conflicting, if id in s.plugins then Some(s.plugins[id]) else None)
  }

  function StepView(v: View, m: Manifest, includeDisabled: bool): View {
    if m.installed && !includeDisabled && m.stateDisabled then View(true, v.conflicting, None)
    else if !m.installed && !includeDisabled && v.suppressed then v
    else match v.plugin
      case Some(p) =>
        if !m.installed then v
        else if p.installed then View(v.suppressed, true, None)
        else v.(plugin := Some(m))
      case None =>
        if v.conflicting then v else v.(plugin := Some(m))
  }

  lemma StepSeenByItsId(s: State, m: Manifest, includeDisabled: bool)
    requires Linked(s) && Gate(m).None?
    ensures ViewOf(Step(s, m, includeDisabled), Id(m)) == StepView(ViewOf(s, Id(m)), m, includeDisabled)
  {
    assert IdLinked(s, Id(m));
  }

  lemma StepKeepsAgreement(s: State, ms: seq<Manifest>, m: Manifest, id: string, includeDisabled: bool)
    requires Linked(s) && Agrees(s, ms, id, includeDisabled)
    ensures Agrees(Step(s, m, includeDisabled), ms + [m], id, includeDisabled)
  {
    CopiesGrow(ms, m, id, includeDisabled);
    var repo, installed := RepoCopies(ms, id), InstalledCopies(ms, id, includeDisabled);
    if id != Id(m) || Gate(m).Some? {
      OtherIdsUntouched(s, m, id, includeDisabled);
      assert repo + [] == repo && installed + [] == installed;
    } else {
      CopiesOfTheirKind(ms, id, includeDisabled);
      StepSeenByItsId(s, m, includeDisabled);
      ViewKeepsAgreement(ViewOf(s, id), repo, installed, AnyDisabled(ms, id), m, includeDisabled);
    }
  }

  lemma CopiesOfTheirKind(ms: seq<Manifest>, id: string, includeDisabled: bool)
    ensures var repo := RepoCopies(ms, id); repo != [] ==> !repo[0].installed
    ensures var installed := InstalledCopies(ms, id, includeDisabled); installed != [] ==> installed[0].installed
  {
    CopiesComeFromList(ms, id, includeDisabled);
    var repo, installed := RepoCopies(ms, id), InstalledCopies(ms, id, includeDisabled);
    assert repo == [] || repo[0] in repo;
    assert installed == [] || installed[0] in installed;
  }

  /** The rule again, in terms of the copies of one id. */
  predicate ViewAgrees(v: View, repo: seq<Manifest>, installed: seq<Manifest>, anyDisabled: bool,
                       includeDisabled: bool)
  {
    && v.suppressed == (!includeDisabled && anyDisabled)
    && (!v.suppressed ==>
          && (v.conflicting <==> |installed| >= 2)
          && v.plugin == if |installed| == 1 then Some(installed[0])
                         else if |installed| == 0 && repo != [] then Some(repo[0]) else None)
  }

  lemma ViewKeepsAgreement(v: View, repo: seq<Manifest>, installed: seq<Manifest>, anyDisabled: bool,
                           m: Manifest, includeDisabled: bool)
    requires ViewAgrees(v, repo, installed, anyDisabled, includeDisabled)
    requires repo != [] ==> !repo[0].installed
    requires installed != [] ==> installed[0].installed
    ensures var dis := m.installed && m.stateDisabled;
            ViewAgrees(StepView(v, m, includeDisabled),
                       repo + (if !m.installed then [m] else []),
                       installed + (if m.installed && (includeDisabled || !m.stateDisabled) then [m] else []),
                       anyDisabled || dis, includeDisabled)
  {
  }

  lemma {:induction false} RunInvariant(ms: seq<Manifest>, includeDisabled: bool)
    ensures Linked(Run(ms, includeDisabled))
    ensures forall id :: Agrees(Run(ms, includeDisabled), ms, id, includeDisabled)
  {
    if ms != [] {
      var init, m := ms[..|ms| - 1], ms[|ms| - 1];
      RunInvariant(init, includeDisabled);
      assert init + [m] == ms;
      StepKeepsLinks(Run(init, includeDisabled), m, includeDisabled);
      forall id ensures Agrees(Run(ms, includeDisabled), ms, id, includeDisabled) {
        StepKeepsAgreement(Run(init, includeDisabled), init, m, id, includeDisabled);
      }
    }
  }

  // ----- the final filters and the sort -----

  function EntryId(e: Entry): string {
    match e case Gone => "" case Live(m) => Id(m)
  }

  /** The list comprehension that drops the entries of a set of ids. */
  function DropIds(es: seq<Entry>, ids: set<string>): seq<Entry> {
    if es == [] then []
    else DropIds(es[..|es| - 1], ids) + if EntryId(es[|es| - 1]) in ids then [] else [es[|es| - 1]]
  }

  /** The same filter on the plugin contracts. */
  function Without(plugins: map<string, Manifest>, ids: set<string>): (r: map<string, Manifest>)
    ensures forall id :: id in r <==> id in plugins && id !in ids
    ensures forall id :: id in r ==> r[id] == plugins[id]
    ensures ids == {} ==> r == plugins
  {
    map id | id in plugins && id !in ids :: plugins[id]
  }

  /** ... and the one that drops the emptied entries. */
  function Living(es: seq<Entry>): seq<Manifest> {
    if es == [] then []
    else Living(es[..|es| - 1]) + match es[|es| - 1] case Gone => [] case Live(m) => [m]
  }

  function DropDisabled(ms: seq<Manifest>, ids: set<string>): seq<Manifest> {
    if ms == [] then []
    else DropDisabled(ms[..|ms| - 1], ids) + if Id(ms[|ms| - 1]) in ids then [] else [ms[|ms| - 1]]
  }

  predicate KeyLess(a: Manifest, b: Manifest) {
    Less(a.sortName, b.sortName) || (a.sortName == b.sortName && Less(Id(a), Id(b)))
  }

  function Insert(m: Manifest, sorted: seq<Manifest>): seq<Manifest> {
    if sorted == [] then [m]
    else if KeyLess(sorted[0], m) then [sorted[0]] + Insert(m, sorted[1..])
    else [m] + sorted
  }

  function Sort(ms: seq<Manifest>): seq<Manifest> {
    if ms == [] then [] else Insert(ms[0], Sort(ms[1..]))
  }

  ghost predicate IdsDistinct(ms: seq<Manifest>) {
    forall i, j :: 0 <= i < j < |ms| ==> Id(ms[i]) != Id(ms[j])
  }

  ghost predicate Sorted(ms: seq<Manifest>) {
    forall i, j :: 0 <= i < j < |ms| ==> KeyLess(ms[i], ms[j])
  }

  /** What a caller may rely on: exactly one entry per winning id, in key order,
      and the plugin contracts of exactly those ids. */
  ghost predicate Published(generators: seq<Manifest>, plugins: map<string, Manifest>,
                            ms: seq<Manifest>, includeDisabled: bool)
  {
    && Lists(generators, ms, includeDisabled) && Contracts(plugins, ms, includeDisabled)
    && IdsDistinct(generators) && Sorted(generators)
  }

  ghost predicate Lists(generators: seq<Manifest>, ms: seq<Manifest>, includeDisabled: bool) {
    forall m :: m in generators <==> Winner(ms, Id(m), includeDisabled) == Some(m)
  }

  ghost predicate Contracts(plugins: map<string, Manifest>, ms: seq<Manifest>, includeDisabled: bool) {
    forall id :: Winner(ms, id, includeDisabled) == if id in plugins then Some(plugins[id]) else None
  }

  lemma {:induction false} DropIdsKeepsOthers(es: seq<Entry>, ids: set<string>)
    ensures forall m :: m in Living(DropIds(es, ids)) <==> Live(m) in es && Id(m) !in ids
  {
    if es != [] {
      var init, last := es[..|es| - 1], es[|es| - 1];
      DropIdsKeepsOthers(init, ids);
      var kept := DropIds(init, ids);
      assert es == init + [last];
      if EntryId(last) in ids {
        assert DropIds(es, ids) == kept;
      } else {
        assert (kept + [last])[..|kept + [last]| - 1] == kept;
      }
    }
  }

  /** Entries the index points at have pairwise distinct ids. */
  lemma {:induction false} LiveIdsDistinct(es: seq<Entry>, ids: set<string>, index: map<string, nat>)
    requires forall k :: 0 <= k < |es| && es[k].Live? ==>
               var id := Id(es[k].manifest); id in ids || (id in index && index[id] == k)
    ensures IdsDistinct(Living(DropIds(es, ids)))
    ensures forall m :: m in Living(DropIds(es, ids)) ==> Id(m) in index && index[Id(m)] < |es|
  {
    if es != [] {
      var init, last := es[..|es| - 1], es[|es| - 1];
      assert forall k :: 0 <= k < |init| ==> init[k] == es[k];
      LiveIdsDistinct(init, ids, index);
      var kept := DropIds(init, ids);
      assert last == es[|es| - 1];
      if EntryId(last) in ids {
        assert DropIds(es, ids) == kept;
      } else {
        assert (kept + [last])[..|kept + [last]| - 1] == kept;
        var ms := Living(kept);
        assert forall i :: 0 <= i < |ms| ==> ms[i] in ms;
      }
    }
  }

  lemma {:induction false} DropDisabledKeepsOthers(ms: seq<Manifest>, ids: set<string>)
    requires IdsDistinct(ms)
    ensures forall m :: m in DropDisabled(ms, ids) <==> m in ms && Id(m) !in ids
    ensures IdsDistinct(DropDisabled(ms, ids))
  {
    if ms != [] {
      var init, last := ms[..|ms| - 1], ms[|ms| - 1];
      DropDisabledKeepsOthers(init, ids);
      assert ms == init + [last];
      var kept := DropDisabled(init, ids);
      forall i | 0 <= i < |kept| ensures Id(kept[i]) != Id(last) {
        assert kept[i] in init;
      }
    }
  }

  lemma {:induction false} InsertAdds(m: Manifest, sorted: seq<Manifest>)
    ensures multiset(Insert(m, sorted)) == multiset(sorted) + multiset{m}
    ensures forall x :: x in Insert(m, sorted) ==> x == m || x in sorted
  {
    if sorted != [] {
      InsertAdds(m, sorted[1..]);
      assert sorted == [sorted[0]] + sorted[1..];
    }
  }

  lemma {:induction false} InsertKeepsOrder(m: Manifest, sorted: seq<Manifest>)
    requires Sorted(sorted)
    requires forall x :: x in sorted ==> Id(x) != Id(m)
    ensures Sorted(Insert(m, sorted))
  {
    if sorted != [] {
      var h, t := sorted[0], sorted[1..];
      assert h in sorted && forall x :: x in t ==> x in sorted;
      if KeyLess(h, m) {
        InsertKeepsOrder(m, t);
        InsertAdds(m, t);
        var r := Insert(m, t);
        forall i | 0 <= i < |r| ensures KeyLess(h, r[i]) {
          assert r[i] in r;
        }
      } else {
        LessTotal(h.sortName, m.sortName);
        LessTotal(Id(h), Id(m));
        forall i | 0 <= i < |sorted| ensures KeyLess(m, sorted[i]) {
          KeyLessTransitive(m, h, sorted[i]);
        }
      }
    }
  }

  lemma KeyLessTransitive(a: Manifest, b: Manifest, c: Manifest)
    requires KeyLess(a, b) && (KeyLess(b, c) || b == c)
    ensures KeyLess(a, c)
  {
    if b != c {
      if Less(a.sortName, b.sortName) && Less(b.sortName, c.sortName) {
        LessTransitive(a.sortName, b.sortName, c.sortName);
      }
      if Less(Id(a), Id(b)) && Less(Id(b), Id(c)) {
        LessTransitive(Id(a), Id(b), Id(c));
      }
    }
  }

  lemma {:induction false} SortIsRight(ms: seq<Manifest>)
    requires IdsDistinct(ms)
    ensures multiset(Sort(ms)) == multiset(ms)
    ensures Sorted(Sort(ms)) && IdsDistinct(Sort(ms))
  {
    if ms != [] {
      SortIsRight(ms[1..]);
      assert ms == [ms[0]] + ms[1..];
      var rest := Sort(ms[1..]);
      forall x | x in rest ensures Id(x) != Id(ms[0]) {
        assert x in multiset(rest);
        assert x in ms[1..];
      }
      InsertKeepsOrder(ms[0], rest);
      InsertAdds(ms[0], rest);
      SortedMeansDistinctIds(ms);
    }
  }

  lemma SortedMeansDistinctIds(ms: seq<Manifest>)
    requires IdsDistinct(ms) && Sorted(Sort(ms)) && multiset(Sort(ms)) == multiset(ms)
    ensures IdsDistinct(Sort(ms))
  {
    var r := Sort(ms);
    forall i, j | 0 <= i < j < |r| ensures Id(r[i]) != Id(r[j]) {
      assert KeyLess(r[i], r[j]);
      LessIrreflexive(r[i].sortName);
      LessIrreflexive(Id(r[i]));
      assert r[i] != r[j];
      assert r[i] in multiset(r) && r[j] in multiset(r);
      assert r[i] in ms && r[j] in ms;
    }
  }

  lemma SortKeepsMembers(ms: seq<Manifest>)
    requires multiset(Sort(ms)) == multiset(ms)
    ensures forall m :: m in Sort(ms) <==> m in ms
  {
    assert forall m :: m in Sort(ms) <==> m in multiset(Sort(ms));
  }

  lemma {:induction false} DropNoneDisabled(ms: seq<Manifest>)
    ensures DropDisabled(ms, {}) == ms
  {
    if ms != [] {
      DropNoneDisabled(ms[..|ms| - 1]);
    }
  }

  lemma CandidateId(ms: seq<Manifest>, id: string, includeDisabled: bool)
    ensures var c := Candidate(ms, id, includeDisabled); c.Some? ==> Id(c.value) == id
  {
    CopiesComeFromList(ms, id, includeDisabled);
    var repo, installed := RepoCopies(ms, id), InstalledCopies(ms, id, includeDisabled);
    if repo != [] { assert repo[0] in repo; }
    if installed != [] { assert installed[0] in installed; }
  }

  lemma ExcludedAreDisabled(published: seq<Manifest>, excluded: set<string>, id: string, ms: seq<Manifest>)
    requires forall m :: m in published <==> Candidate(ms, Id(m), false) == Some(m)
    requires excluded == set m | m in published && Disabled(m) :: Id(m)
    ensures id in excluded <==> Candidate(ms, id, false).Some? && Disabled(Candidate(ms, id, false).value)
  {
    CandidateId(ms, id, false);
    if id in excluded {
      var m :| m in published && Disabled(m) && Id(m) == id;
    }
    if Candidate(ms, id, false).Some? {
      assert Candidate(ms, id, false).value in published;
    }
  }

  lemma WinnersSurvive(published: seq<Manifest>, plugins: map<string, Manifest>, excluded: set<string>,
                       ms: seq<Manifest>)
    requires IdsDistinct(published) && Unsuppressed(published, plugins, ms, false)
    requires excluded == set m | m in published && Disabled(m) :: Id(m)
    ensures IdsDistinct(DropDisabled(published, excluded))
    ensures Lists(DropDisabled(published, excluded), ms, false)
    ensures Contracts(Without(plugins, excluded), ms, false)
  {
    DropDisabledKeepsOthers(published, excluded);
    var left := DropDisabled(published, excluded);
    forall m ensures m in left <==> Winner(ms, Id(m), false) == Some(m) {
      ExcludedAreDisabled(published, excluded, Id(m), ms);
    }
    var contracts := Without(plugins, excluded);
    forall id ensures Winner(ms, id, false) == if id in contracts then Some(contracts[id]) else None {
      ExcludedAreDisabled(published, excluded, id, ms);
    }
  }

  /** With disabled entries wanted, every candidate wins. */
  lemma CandidatesWin(published: seq<Manifest>, plugins: map<string, Manifest>, ms: seq<Manifest>)
    requires Unsuppressed(published, plugins, ms, true)
    ensures Lists(published, ms, true) && Contracts(plugins, ms, true)
  {
    forall id ensures Winner(ms, id, true) == Candidate(ms, id, true) {}
  }

  lemma {:induction false} DropNothing(es: seq<Entry>)
    ensures DropIds(es, {}) == es
  {
    if es != [] {
      DropNothing(es[..|es| - 1]);
    }
  }

  /** The situation between the two filters. */
  ghost predicate Unsuppressed(published: seq<Manifest>, plugins: map<string, Manifest>,
                               ms: seq<Manifest>, includeDisabled: bool)
  {
    && (forall m :: m in published <==> Candidate(ms, Id(m), includeDisabled) == Some(m))
    && CandidateContracts(plugins, ms, includeDisabled)
  }

  ghost predicate CandidateContracts(plugins: map<string, Manifest>, ms: seq<Manifest>, includeDisabled: bool) {
    forall id :: Candidate(ms, id, includeDisabled) == if id in plugins then Some(plugins[id]) else None
  }

  lemma CandidatesSurvive(ms: seq<Manifest>, includeDisabled: bool)
    ensures var s := Run(ms, includeDisabled);
            var published := Living(DropIds(s.generators, s.suppressed));
            var plugins := Without(s.plugins, s.suppressed);
            IdsDistinct(published) && Unsuppressed(published, plugins, ms, includeDisabled)
  {
    var s := Run(ms, includeDisabled);
    RunInvariant(ms, includeDisabled);
    forall k | 0 <= k < |s.generators| && s.generators[k].Live?
      ensures var id := Id(s.generators[k].manifest); id in s.suppressed || (id in s.index && s.index[id] == k)
    {
      assert EntryLinked(s, k);
    }
    LiveIdsDistinct(s.generators, s.suppressed, s.index);
    var published := Living(DropIds(s.generators, s.suppressed));
    forall m ensures m in published <==> Candidate(ms, Id(m), includeDisabled) == Some(m) {
      SurvivorIsCandidate(s, ms, m, includeDisabled);
    }
    var plugins := Without(s.plugins, s.suppressed);
    forall id ensures Candidate(ms, id, includeDisabled) == if id in plugins then Some(plugins[id]) else None {
      assert Agrees(s, ms, id, includeDisabled);
    }
  }

  lemma SurvivorIsCandidate(s: State, ms: seq<Manifest>, m: Manifest, includeDisabled: bool)
    requires Linked(s) && Agrees(s, ms, Id(m), includeDisabled)
    ensures m in Living(DropIds(s.generators, s.suppressed))
            <==> Candidate(ms, Id(m), includeDisabled) == Some(m)
  {
    DropIdsKeepsOthers(s.generators, s.suppressed);
    if Live(m) in s.generators && Id(m) !in s.suppressed {
      var k :| 0 <= k < |s.generators| && s.generators[k] == Live(m);
      assert EntryLinked(s, k) && IdLinked(s, Id(m));
    }
    if Candidate(ms, Id(m), includeDisabled) == Some(m) {
      assert IdLinked(s, Id(m));
      assert s.generators[s.index[Id(m)]] == Live(m);
    }
  }

  /** The filters after the loop. */
  method Finish(generators: seq<Entry>, working: map<string, Manifest>, suppressed: set<string>,
                includeDisabled: bool, ghost ms: seq<Manifest>)
    returns (published: seq<Manifest>, plugins: map<string, Manifest>)
    requires var s := Run(ms, includeDisabled);
             generators == s.generators && working == s.plugins && suppressed == s.suppressed
    ensures Published(published, plugins, ms, includeDisabled)
  {
    var entries := generators;
    plugins := working;
    CandidatesSurvive(ms, includeDisabled);
    if suppressed != {} {
      entries := DropIds(entries, suppressed);
      plugins := Without(plugins, suppressed);
    } else {
      DropNothing(entries);
    }
    published := Living(entries);
    if !includeDisabled {
      var excluded := set m | m in published && Disabled(m) :: Id(m);
      ghost var before, contracts := published, plugins;
      if excluded != {} {
        published := DropDisabled(published, excluded);
        plugins := Without(plugins, excluded);
      } else {
        DropNoneDisabled(before);
      }
      WinnersSurvive(before, contracts, excluded, ms);
    } else {
      CandidatesWin(published, plugins, ms);
    }
    SortIsRight(published);
    SortKeepsMembers(published);
    published := Sort(published);
  }

  /** The source's loop, filters and sort, against the order-free rule. */
  method DiscoverGeneratorManifests(ms: seq<Manifest>, includeDisabled: bool)
    returns (published: seq<Manifest>, plugins: map<string, Manifest>, errors: seq<CatalogError>)
    ensures Published(published, plugins, ms, includeDisabled)
    ensures errors == Run(ms, includeDisabled).errors && RejectsExactly(Rejections(errors), Unloadable(ms))
  {
    var generators: seq<Entry> := [];
    var index: map<string, nat> := map[];
    var isInstalled: map<string, bool> := map[];
    var conflicting: set<string> := {};
    var suppressed: set<string> := {};
    plugins := map[];
    errors := [];
    for i := 0 to |ms|
      invariant State(generators, plugins, index, isInstalled, conflicting, suppressed, errors)
             == Run(ms[..i], includeDisabled)
    {
      var m := ms[i];
      assert ms[..i + 1][..i] == ms[..i];
      if Gate(m).Some? {
        errors := errors + [Rejected(m.path, Gate(m).value)];
        continue;
      }
      var id := Id(m);
      if m.installed {
        if !includeDisabled && m.stateDisabled {
          suppressed := suppressed + {id};
          plugins := plugins - {id};
          index := index - {id};
          isInstalled := isInstalled - {id};
          continue;
        }
      } else if !includeDisabled && id in suppressed {
        continue;
      }
      if id in plugins {
        var prevInstalled := id in isInstalled && isInstalled[id];
        if m.installed && !prevInstalled {
          plugins := plugins[id := m];
          if id in index && index[id] < |generators| {
            generators := generators[index[id] := Live(m)];
          } else {
            index := index[id := |generators|];
            generators := generators + [Live(m)];
          }
          isInstalled := isInstalled[id := true];
          continue;
        }
        errors := errors + [Duplicate(m.path, id)];
        if m.installed && prevInstalled {
          conflicting := conflicting + {id};
          plugins := plugins - {id};
          if id in index && index[id] < |generators| {
            generators := generators[index[id] := Gone];
          }
          index := index - {id};
          isInstalled := isInstalled - {id};
        }
        continue;
      }
      if id in conflicting {
        errors := errors + [Conflict(m.path, id)];
        continue;
      }
      plugins := plugins[id := m];
      index := index[id := |generators|];
      isInstalled := isInstalled[id := m.installed];
      generators := generators + [Live(m)];
    }
    assert ms[..|ms|] == ms;
    RejectionsOfRun(ms, includeDisabled);
    published, plugins := Finish(generators, plugins, suppressed, includeDisabled, ms);
  }

  // ----- the order of the manifests does not matter -----

  function FirstRepo(ms: seq<Manifest>, id: string): Option<Manifest> {
    if RepoCopies(ms, id) == [] then None else Some(RepoCopies(ms, id)[0])
  }

  /** Two listings of the same manifests publish the same catalog, as long as
      each id meets the same repository copy first. */
  lemma OrderDoesNotMatter(a: seq<Manifest>, b: seq<Manifest>, includeDisabled: bool,
                           ga: seq<Manifest>, gb: seq<Manifest>,
                           pa: map<string, Manifest>, pb: map<string, Manifest>)
    requires multiset(a) == multiset(b)
    requires forall id :: FirstRepo(a, id) == FirstRepo(b, id)
    requires Published(ga, pa, a, includeDisabled) && Published(gb, pb, b, includeDisabled)
    ensures ga == gb && pa == pb
  {
    forall id ensures Winner(a, id, includeDisabled) == Winner(b, id, includeDisabled) {
      assert FirstRepo(a, id) == FirstRepo(b, id);
      WinnerOfMultiset(a, b, id, includeDisabled);
    }
    SameWinnersSameList(a, b, includeDisabled, ga, gb);
    SameWinnersSameContracts(a, b, includeDisabled, pa, pb);
  }

  lemma SameWinnersSameList(a: seq<Manifest>, b: seq<Manifest>, includeDisabled: bool,
                            ga: seq<Manifest>, gb: seq<Manifest>)
    requires forall id :: Winner(a, id, includeDisabled) == Winner(b, id, includeDisabled)
    requires Lists(ga, a, includeDisabled) && Lists(gb, b, includeDisabled) && Sorted(ga) && Sorted(gb)
    ensures ga == gb
  {
    forall m ensures m in ga <==> m in gb {
      assert m in ga <==> Winner(a, Id(m), includeDisabled) == Some(m);
      assert m in gb <==> Winner(b, Id(m), includeDisabled) == Some(m);
    }
    SortedListsAgree(ga, gb);
  }

  lemma SameWinnersSameContracts(a: seq<Manifest>, b: seq<Manifest>, includeDisabled: bool,
                                 pa: map<string, Manifest>, pb: map<string, Manifest>)
    requires forall id :: Winner(a, id, includeDisabled) == Winner(b, id, includeDisabled)
    requires Contracts(pa, a, includeDisabled) && Contracts(pb, b, includeDisabled)
    ensures pa == pb
  {
    forall id ensures (id in pa <==> id in pb) && (id in pa ==> pa[id] == pb[id]) {
      assert Winner(a, id, includeDisabled) == if id in pa then Some(pa[id]) else None;
      assert Winner(b, id, includeDisabled) == if id in pb then Some(pb[id]) else None;
    }
  }

  lemma InstalledOfMultiset(a: seq<Manifest>, b: seq<Manifest>, id: string, includeDisabled: bool)
    requires multiset(a) == multiset(b)
    ensures multiset(InstalledCopies(a, id, includeDisabled)) == multiset(InstalledCopies(b, id, includeDisabled))
  {
    forall m ensures multiset(InstalledCopies(a, id, includeDisabled))[m]
                  == multiset(InstalledCopies(b, id, includeDisabled))[m] {
      CountInstalled(a, id, includeDisabled, m);
      CountInstalled(b, id, includeDisabled, m);
    }
  }

  lemma SameSingleton(x: seq<Manifest>, y: seq<Manifest>)
    requires multiset(x) == multiset(y)
    ensures |x| == |y| && (|x| == 1 ==> x[0] == y[0])
  {
    assert |x| == |multiset(x)| && |y| == |multiset(y)|;
    if |x| == 1 {
      assert y == [y[0]];
      assert y[0] in multiset(x);
    }
  }

  lemma AnyDisabledOfMultiset(a: seq<Manifest>, b: seq<Manifest>, id: string)
    requires multiset(a) == multiset(b)
    ensures AnyDisabled(a, id) ==> AnyDisabled(b, id)
  {
    if AnyDisabled(a, id) {
      var d :| d in a && Gate(d).None? && Id(d) == id && d.installed && d.stateDisabled;
      assert d in multiset(a);
      assert d in b;
    }
  }

  lemma WinnerOfMultiset(a: seq<Manifest>, b: seq<Manifest>, id: string, includeDisabled: bool)
    requires multiset(a) == multiset(b) && FirstRepo(a, id) == FirstRepo(b, id)
    ensures Winner(a, id, includeDisabled) == Winner(b, id, includeDisabled)
  {
    AnyDisabledOfMultiset(a, b, id);
    AnyDisabledOfMultiset(b, a, id);
    InstalledOfMultiset(a, b, id, includeDisabled);
    SameSingleton(InstalledCopies(a, id, includeDisabled), InstalledCopies(b, id, includeDisabled));
  }

  lemma CountOfOneMore(ms: seq<Manifest>, m: Manifest, x: Manifest)
    ensures multiset(ms + [m])[x] == multiset(ms)[x] + if m == x then 1 else 0
  {
  }

  lemma AppendNone(ms: seq<Manifest>)
    ensures ms + [] == ms
  {
  }

  lemma {:induction false} CountInstalled(ms: seq<Manifest>, id: string, includeDisabled: bool, x: Manifest)
    ensures multiset(InstalledCopies(ms, id, includeDisabled))[x]
         == if Gate(x).None? && Id(x) == id && x.installed && (includeDisabled || !x.stateDisabled)
            then multiset(ms)[x] else 0
  {
    if ms != [] {
      var init, m := ms[..|ms| - 1], ms[|ms| - 1];
      CountInstalled(init, id, includeDisabled, x);
      assert ms == init + [m];
      CountOfOneMore(init, m, x);
      CountOfOneMore(InstalledCopies(init, id, includeDisabled), m, x);
      AppendNone(InstalledCopies(init, id, includeDisabled));
    }
  }

  lemma EmptyOrInhabited(y: seq<Manifest>)
    ensures y == [] || exists m :: m in y
  {
    if y != [] {
      assert y[0] in y;
    }
  }

  lemma {:induction false} SortedListsAgree(x: seq<Manifest>, y: seq<Manifest>)
    requires Sorted(x) && Sorted(y) && (forall m :: m in x <==> m in y)
    ensures x == y
  {
    if x == [] {
      EmptyOrInhabited(y);
    } else {
      assert x[0] in x && x[0] in y;
      assert y[0] in y && y[0] in x;
      SameLeast(x, y);
      var tx, ty := x[1..], y[1..];
      forall m ensures m in tx <==> m in ty {
        TailMembers(x, m);
        TailMembers(y, m);
      }
      SortedListsAgree(tx, ty);
      assert x == [x[0]] + tx && y == [y[0]] + ty;
    }
  }

  lemma KeyLessIrreflexive(m: Manifest)
    ensures !KeyLess(m, m)
  {
    LessIrreflexive(m.sortName);
    LessIrreflexive(Id(m));
  }

  lemma TailMembers(x: seq<Manifest>, m: Manifest)
    requires x != [] && Sorted(x)
    ensures m in x[1..] <==> m in x && m != x[0]
  {
    KeyLessIrreflexive(x[0]);
    if m in x[1..] {
      var i :| 1 <= i < |x| && x[i] == m;
      assert KeyLess(x[0], x[i]);
    }
  }

  lemma SameLeast(x: seq<Manifest>, y: seq<Manifest>)
    requires x != [] && y != [] && Sorted(x) && Sorted(y) && x[0] in y && y[0] in x
    ensures x[0] == y[0]
  {
    if x[0] != y[0] {
      var i :| 0 < i < |x| && x[i] == y[0];
      var j :| 0 < j < |y| && y[j] == x[0];
      assert KeyLess(x[0], x[i]) && KeyLess(y[0], y[j]);
      KeyLessTransitive(x[0], y[0], x[0]);
      KeyLessIrreflexive(x[0]);
    }
  }

  // ----- duplicate and conflict errors -----

  predicate Clashes(e: CatalogError, id: string) {
    !e.Rejected? && e.id == id
  }

  /** The errors about one id, in order. */
  function ClashesOf(errors: seq<CatalogError>, id: string): seq<CatalogError> {
    if errors == [] then []
    else
      var e := errors[|errors| - 1];
      ClashesOf(errors[..|errors| - 1], id) + if Clashes(e, id) then [e] else []
  }

  function ErrorsFor(errors: seq<CatalogError>, id: string): nat {
    |ClashesOf(errors, id)|
  }

  /** Each repository copy but the first is a duplicate. */
  function RepoClashes(repo: seq<Manifest>, id: string): seq<CatalogError> {
    seq(Surplus(repo), i requires 0 <= i < Surplus(repo) => Duplicate(repo[i + 1].path, id))
  }

  /** The second installed copy is a duplicate, the later ones meet a conflict. */
  function InstalledClashes(installed: seq<Manifest>, id: string): seq<CatalogError> {
    seq(Surplus(installed), i requires 0 <= i < Surplus(installed) =>
      if i == 0 then Duplicate(installed[1].path, id) else Conflict(installed[i + 1].path, id))
  }

  function Surplus(copies: seq<Manifest>): nat {
    if copies == [] then 0 else |copies| - 1
  }

  /** The source scans repository bases before installed ones. */
  predicate RepoFirst(ms: seq<Manifest>) {
    forall i, j :: 0 <= i < j < |ms| ==> ms[i].installed ==> ms[j].installed
  }

  lemma ErrorsForGrows(errors: seq<CatalogError>, e: CatalogError, id: string)
    ensures ClashesOf(errors + [e], id) == ClashesOf(errors, id) + if Clashes(e, id) then [e] else []
  {
    assert (errors + [e])[..|errors + [e]| - 1] == errors;
  }

  lemma {:induction false} NoInstalledYet(ms: seq<Manifest>, id: string, includeDisabled: bool)
    requires forall i :: 0 <= i < |ms| ==> !ms[i].installed
    ensures InstalledCopies(ms, id, includeDisabled) == []
  {
    if ms != [] {
      NoInstalledYet(ms[..|ms| - 1], id, includeDisabled);
    }
  }

  /** Each surplus copy of an id that is not suppressed costs exactly one error, which
      names its path. */
  lemma {:induction false} ErrorsOfOneId(ms: seq<Manifest>, id: string, includeDisabled: bool)
    requires RepoFirst(ms) && (includeDisabled || !AnyDisabled(ms, id))
    ensures ClashesOf(Run(ms, includeDisabled).errors, id)
         == RepoClashes(RepoCopies(ms, id), id) + InstalledClashes(InstalledCopies(ms, id, includeDisabled), id)
  {
    if ms != [] {
      var init, m := ms[..|ms| - 1], ms[|ms| - 1];
      assert init + [m] == ms;
      ErrorsOfOneId(init, id, includeDisabled);
      RunInvariant(init, includeDisabled);
      if !m.installed {
        forall i | 0 <= i < |init| ensures !init[i].installed {
          assert init[i] == ms[i];
        }
        NoInstalledYet(init, id, includeDisabled);
      }
      ErrorOfOneStep(Run(init, includeDisabled), init, m, id, includeDisabled);
    }
  }

  /** The clash, if any, that a manifest adds. */
  function NewClash(v: View, m: Manifest, includeDisabled: bool): seq<CatalogError> {
    if Gate(m).Some? || (m.installed && !includeDisabled && m.stateDisabled)
       || (!m.installed && !includeDisabled && v.suppressed) then []
    else match v.plugin
      case Some(p) => if m.installed && !p.installed then [] else [Duplicate(m.path, Id(m))]
      case None => if v.conflicting then [Conflict(m.path, Id(m))] else []
  }

  lemma ClashOfStep(s: State, m: Manifest, id: string, includeDisabled: bool)
    requires Linked(s)
    ensures ClashesOf(Step(s, m, includeDisabled).errors, id) == ClashesOf(s.errors, id)
            + if Id(m) == id then NewClash(ViewOf(s, id), m, includeDisabled) else []
  {
    assert IdLinked(s, Id(m));
    if Gate(m).Some? {
      ErrorsForGrows(s.errors, Rejected(m.path, Gate(m).value), id);
    } else if Id(m) in s.plugins {
      ErrorsForGrows(s.errors, Duplicate(m.path, Id(m)), id);
    } else {
      ErrorsForGrows(s.errors, Conflict(m.path, Id(m)), id);
    }
  }

  /** One more copy of a kind. */
  lemma ClashesGrow(copies: seq<Manifest>, m: Manifest, id: string)
    ensures RepoClashes(copies + [m], id) == RepoClashes(copies, id) + if copies == [] then [] else [Duplicate(m.path, id)]
    ensures InstalledClashes(copies + [m], id) == InstalledClashes(copies, id)
            + if copies == [] then [] else [if |copies| == 1 then Duplicate(m.path, id) else Conflict(m.path, id)]
  {
  }

  /** One more copy of an id, as the loop sees it and as the rule does. */
  lemma ClashOfCopy(v: View, repo: seq<Manifest>, installed: seq<Manifest>, m: Manifest, includeDisabled: bool)
    requires ViewAgrees(v, repo, installed, false, includeDisabled) && Gate(m).None?
    requires repo != [] ==> !repo[0].installed
    requires installed != [] ==> installed[0].installed
    requires includeDisabled || !(m.installed && m.stateDisabled)
    requires !m.installed ==> installed == []
    ensures RepoClashes(if m.installed then repo else repo + [m], Id(m))
            + InstalledClashes(if m.installed then installed + [m] else installed, Id(m))
         == RepoClashes(repo, Id(m)) + InstalledClashes(installed, Id(m)) + NewClash(v, m, includeDisabled)
  {
    if m.installed {
      ClashesGrow(installed, m, Id(m));
    } else {
      ClashesGrow(repo, m, Id(m));
    }
  }

  lemma ErrorOfOneStep(s: State, ms: seq<Manifest>, m: Manifest, id: string, includeDisabled: bool)
    requires Linked(s) && Agrees(s, ms, id, includeDisabled)
    requires includeDisabled || !AnyDisabled(ms + [m], id)
    requires !m.installed ==> InstalledCopies(ms, id, includeDisabled) == []
    requires ClashesOf(s.errors, id)
          == RepoClashes(RepoCopies(ms, id), id) + InstalledClashes(InstalledCopies(ms, id, includeDisabled), id)
    ensures ClashesOf(Step(s, m, includeDisabled).errors, id)
         == RepoClashes(RepoCopies(ms + [m], id), id) + InstalledClashes(InstalledCopies(ms + [m], id, includeDisabled), id)
  {
    ClashOfStep(s, m, id, includeDisabled);
    AnyDisabledGrows(ms, m, id);
    if Gate(m).Some? || Id(m) != id {
      CopiesOfOthers(ms, m, id, includeDisabled);
    } else {
      CopiesOfTheirKind(ms, id, includeDisabled);
      CopiesOfOneMore(ms, m, includeDisabled);
      ClashOfCopy(ViewOf(s, id), RepoCopies(ms, id), InstalledCopies(ms, id, includeDisabled), m, includeDisabled);
    }
  }

  lemma AnyDisabledGrows(ms: seq<Manifest>, m: Manifest, id: string)
    ensures AnyDisabled(ms + [m], id)
       <==> AnyDisabled(ms, id) || (Gate(m).None? && Id(m) == id && m.installed && m.stateDisabled)
  {
    assert m in ms + [m] && forall x :: x in ms ==> x in ms + [m];
  }

  lemma CopiesOfOthers(ms: seq<Manifest>, m: Manifest, id: string, includeDisabled: bool)
    requires Gate(m).Some? || Id(m) != id
    ensures RepoCopies(ms + [m], id) == RepoCopies(ms, id)
    ensures InstalledCopies(ms + [m], id, includeDisabled) == InstalledCopies(ms, id, includeDisabled)
  {
    CopiesGrow(ms, m, id, includeDisabled);
  }

  lemma CopiesOfOneMore(ms: seq<Manifest>, m: Manifest, includeDisabled: bool)
    requires Gate(m).None? && (includeDisabled || !(m.installed && m.stateDisabled))
    ensures var repo := RepoCopies(ms, Id(m)); RepoCopies(ms + [m], Id(m)) == if m.installed then repo else repo + [m]
    ensures var installed := InstalledCopies(ms, Id(m), includeDisabled);
            InstalledCopies(ms + [m], Id(m), includeDisabled) == if m.installed then installed + [m] else installed
  {
    CopiesGrow(ms, m, Id(m), includeDisabled);
  }

  function IdsOf(ms: seq<Manifest>): seq<string> {
    if ms == [] then []
    else
      var ids, id := IdsOf(ms[..|ms| - 1]), Id(ms[|ms| - 1]);
      if id in ids then ids else ids + [id]
  }

  function SurplusOver(ids: seq<string>, ms: seq<Manifest>, includeDisabled: bool): nat {
    if ids == [] then 0
    else Surplus(RepoCopies(ms, ids[0])) + Surplus(InstalledCopies(ms, ids[0], includeDisabled))
         + SurplusOver(ids[1..], ms, includeDisabled)
  }

  function ClashCount(errors: seq<CatalogError>): nat {
    if errors == [] then 0
    else ClashCount(errors[..|errors| - 1]) + if errors[|errors| - 1].Rejected? then 0 else 1
  }

  /** With no suppressed id, the duplicate and conflict errors number exactly the
      surplus repository copies plus the surplus installed copies of every id. */
  lemma ErrorsOfCatalog(ms: seq<Manifest>, includeDisabled: bool)
    requires RepoFirst(ms)
    requires includeDisabled || forall id :: !AnyDisabled(ms, id)
    ensures ClashCount(Run(ms, includeDisabled).errors) == SurplusOver(IdsOf(ms), ms, includeDisabled)
  {
    var errors := Run(ms, includeDisabled).errors;
    IdsOfDistinct(ms);
    ErrorsNameIds(ms, includeDisabled);
    ClashesPartition(errors, IdsOf(ms));
    SumsAgree(errors, IdsOf(ms), ms, includeDisabled);
  }

  function SumErrors(errors: seq<CatalogError>, ids: seq<string>): nat {
    if ids == [] then 0 else ErrorsFor(errors, ids[0]) + SumErrors(errors, ids[1..])
  }

  lemma {:induction false} SumsAgree(errors: seq<CatalogError>, ids: seq<string>, ms: seq<Manifest>, includeDisabled: bool)
    requires RepoFirst(ms) && errors == Run(ms, includeDisabled).errors
    requires includeDisabled || forall id :: !AnyDisabled(ms, id)
    ensures SumErrors(errors, ids) == SurplusOver(ids, ms, includeDisabled)
  {
    if ids != [] {
      ErrorsOfOneId(ms, ids[0], includeDisabled);
      SumsAgree(errors, ids[1..], ms, includeDisabled);
    }
  }

  lemma {:induction false} IdsOfDistinct(ms: seq<Manifest>)
    ensures Distinct(IdsOf(ms))
    ensures forall m :: m in ms ==> Id(m) in IdsOf(ms)
  {
    if ms != [] {
      IdsOfDistinct(ms[..|ms| - 1]);
      var before := IdsOf(ms[..|ms| - 1]);
      assert forall i :: 0 <= i < |before| ==> before[i] in before;
      assert ms == ms[..|ms| - 1] + [ms[|ms| - 1]];
    }
  }

  lemma {:induction false} ErrorsNameIds(ms: seq<Manifest>, includeDisabled: bool)
    ensures forall e :: e in Run(ms, includeDisabled).errors && !e.Rejected? ==> e.id in IdsOf(ms)
  {
    if ms != [] {
      ErrorsNameIds(ms[..|ms| - 1], includeDisabled);
    }
  }

  lemma {:induction false} SumErrorsGrows(errors: seq<CatalogError>, e: CatalogError, ids: seq<string>)
    requires Distinct(ids)
    ensures SumErrors(errors + [e], ids)
         == SumErrors(errors, ids) + if !e.Rejected? && e.id in ids then 1 else 0
  {
    if ids != [] {
      assert ids == [ids[0]] + ids[1..];
      ErrorsForGrows(errors, e, ids[0]);
      SumErrorsGrows(errors, e, ids[1..]);
    }
  }

  lemma {:induction false} NoErrorsSumToZero(ids: seq<string>)
    ensures SumErrors([], ids) == 0
  {
    if ids != [] {
      NoErrorsSumToZero(ids[1..]);
    }
  }

  lemma {:induction false} ClashesPartition(errors: seq<CatalogError>, ids: seq<string>)
    requires Distinct(ids)
    requires forall e :: e in errors && !e.Rejected? ==> e.id in ids
    ensures SumErrors(errors, ids) == ClashCount(errors)
  {
    if errors == [] {
      NoErrorsSumToZero(ids);
    } else {
      var init, e := errors[..|errors| - 1], errors[|errors| - 1];
      assert errors == init + [e];
      ClashesPartition(init, ids);
      SumErrorsGrows(init, e, ids);
    }
  }

  // ----- rejected manifests -----

  /** A manifest that can be used, by its fields. */
  predicate Loadable(m: Manifest) {
    m.parsed && m.isMapping && m.version == 1 && m.docId != "" && m.kindMatches
  }

  /** This is wrong with the manifest, and nothing that is tested before. */
  predicate FirstFault(m: Manifest, reason: Reason) {
    match reason
    case Unparsable => !m.parsed
    case NotAMapping => m.parsed && !m.isMapping
    case WrongVersion => m.parsed && m.isMapping && m.version != 1
    case MissingId => m.parsed && m.isMapping && m.version == 1 && m.docId == ""
    case KindMismatch => m.parsed && m.isMapping && m.version == 1 && m.docId != "" && !m.kindMatches
  }

  function Unloadable(ms: seq<Manifest>): seq<Manifest> {
    if ms == [] then []
    else Unloadable(ms[..|ms| - 1]) + if Loadable(ms[|ms| - 1]) then [] else [ms[|ms| - 1]]
  }

  function Rejections(errors: seq<CatalogError>): seq<CatalogError> {
    if errors == [] then []
    else Rejections(errors[..|errors| - 1]) + if errors[|errors| - 1].Rejected? then [errors[|errors| - 1]] else []
  }

  /** This reports this manifest, and why. */
  predicate Reports(e: CatalogError, m: Manifest) {
    e.Rejected? && e.path == m.path && FirstFault(m, e.reason)
  }

  ghost predicate RejectsExactly(rejections: seq<CatalogError>, bad: seq<Manifest>) {
    |rejections| == |bad| && forall k :: 0 <= k < |bad| ==> Reports(rejections[k], bad[k])
  }

  lemma RejectionsGrow(errors: seq<CatalogError>, e: CatalogError)
    ensures Rejections(errors + [e]) == Rejections(errors) + if e.Rejected? then [e] else []
  {
    assert (errors + [e])[..|errors + [e]| - 1] == errors;
  }

  lemma GateIsFirstFault(m: Manifest)
    ensures Gate(m).None? <==> Loadable(m)
    ensures Gate(m).Some? ==> FirstFault(m, Gate(m).value)
  {
  }

  /** What one manifest adds to the errors: its rejection, a clash, or nothing. */
  predicate AddsError(before: seq<CatalogError>, after: seq<CatalogError>, m: Manifest) {
    if Gate(m).Some? then after == before + [Rejected(m.path, Gate(m).value)]
    else after == before || after == before + [Duplicate(m.path, Id(m))] || after == before + [Conflict(m.path, Id(m))]
  }

  lemma StepAddsError(s: State, m: Manifest, includeDisabled: bool)
    ensures AddsError(s.errors, Step(s, m, includeDisabled).errors, m)
  {
  }

  lemma RejectionAdded(before: seq<CatalogError>, after: seq<CatalogError>, m: Manifest)
    requires AddsError(before, after, m)
    ensures Rejections(after) == Rejections(before) + if Loadable(m) then [] else [Rejected(m.path, Gate(m).value)]
  {
    GateIsFirstFault(m);
    if Gate(m).Some? {
      RejectionsGrow(before, Rejected(m.path, Gate(m).value));
    } else {
      RejectionsGrow(before, Duplicate(m.path, Id(m)));
      RejectionsGrow(before, Conflict(m.path, Id(m)));
    }
  }

  lemma RejectsOneMore(rejections: seq<CatalogError>, bad: seq<Manifest>, m: Manifest, reason: Reason)
    requires RejectsExactly(rejections, bad) && FirstFault(m, reason)
    ensures RejectsExactly(rejections + [Rejected(m.path, reason)], bad + [m])
  {
  }

  /** Exactly the manifests that cannot be used are reported as rejected, in order, each
      with its path and the first thing that is wrong with it. */
  lemma {:induction false} RejectionsOfRun(ms: seq<Manifest>, includeDisabled: bool)
    ensures RejectsExactly(Rejections(Run(ms, includeDisabled).errors), Unloadable(ms))
  {
    if ms != [] {
      var init, m := ms[..|ms| - 1], ms[|ms| - 1];
      RejectionsOfRun(init, includeDisabled);
      StepAddsError(Run(init, includeDisabled), m, includeDisabled);
      RejectionAdded(Run(init, includeDisabled).errors, Run(ms, includeDisabled).errors, m);
      GateIsFirstFault(m);
      var before := Rejections(Run(init, includeDisabled).errors);
      if Loadable(m) {
        assert before + [] == before && Unloadable(init) + [] == Unloadable(init);
      } else {
        RejectsOneMore(before, Unloadable(init), m, Gate(m).value);
      }
    }
  }

  // ----- who is published, by the fields -----

  /** Among enabled entries only, none is disabled by its record or by its ports. */
  lemma WinnerIsUsable(ms: seq<Manifest>, id: string, includeDisabled: bool)
    requires Winner(ms, id, includeDisabled).Some?
    ensures var m := Winner(ms, id, includeDisabled).value;
            m in ms && Loadable(m) && (!includeDisabled ==> !m.blocked && !(m.installed && m.stateDisabled))
  {
    CopiesComeFromList(ms, id, includeDisabled);
    var repo, installed := RepoCopies(ms, id), InstalledCopies(ms, id, includeDisabled);
    if repo != [] { assert repo[0] in repo; }
    if installed != [] { assert installed[0] in installed; }
    GateIsFirstFault(Winner(ms, id, includeDisabled).value);
  }

  /** A manifest alone is published unless it cannot be used or only enabled ones are
      wanted and it is disabled. */
  lemma LoneManifest(m: Manifest, includeDisabled: bool)
    ensures Winner([m], Id(m), includeDisabled) ==
            if Loadable(m) && (includeDisabled || (!m.blocked && !(m.installed && m.stateDisabled))) then Some(m) else None
  {
    GateIsFirstFault(m);
    CopiesGrow([], m, Id(m), includeDisabled);
    assert [] + [m] == [m];
  }

  lemma CopiesOfTwo(repo: Manifest, pack: Manifest, id: string, includeDisabled: bool)
    requires Gate(repo).None? && Gate(pack).None? && !repo.installed && pack.installed && !pack.stateDisabled
    ensures RepoCopies([repo, pack], id) == if Id(repo) == id then [repo] else []
    ensures InstalledCopies([repo, pack], id, includeDisabled) == if Id(pack) == id then [pack] else []
    ensures !AnyDisabled([repo, pack], id)
  {
    CopiesGrow([], repo, id, includeDisabled);
    CopiesGrow([repo], pack, id, includeDisabled);
    assert [] + [repo] == [repo] && [repo] + [pack] == [repo, pack];
  }

  /** An installed pack takes the place of a repository copy if it was made from it, or
      has no source and the same id; otherwise both are published. */
  lemma InstalledTakesPlaceIff(repo: Manifest, pack: Manifest, includeDisabled: bool)
    requires Loadable(repo) && Loadable(pack) && !repo.installed && pack.installed
    requires !repo.blocked && !pack.blocked && !pack.stateDisabled
    ensures var same := pack.sourceId == repo.docId || (pack.sourceId == "" && pack.docId == repo.docId);
            var ms := [repo, pack];
            && Winner(ms, repo.docId, includeDisabled) == Some(if same then pack else repo)
            && Winner(ms, if pack.sourceId != "" then pack.sourceId else pack.docId, includeDisabled) == Some(pack)
  {
    GateIsFirstFault(repo);
    GateIsFirstFault(pack);
    CopiesOfTwo(repo, pack, repo.docId, includeDisabled);
    CopiesOfTwo(repo, pack, Id(pack), includeDisabled);
  }
}
