/** Rewriting artifact paths when a reproduction bundle is imported: the choice among
    nested sources, whole JSON trees, and the inverse map (`_replace_path` and
    `_rewrite_value` in webapp/reproduction_bundle.py). */
module PathRewrite {
  import opened Optional
  import opened Text

  /** An entry of the path map, a dict whose items keep their insertion order. */
  datatype Move = Move(source: string, destination: string)

  function DropSlashes(s: string): (r: string)
    ensures r <= s && (r != "" ==> r[|r| - 1] != '/')
    ensures s == "" || s[|s| - 1] != '/' ==> r == s
  {
    if s != "" && s[|s| - 1] == '/' then DropSlashes(s[..|s| - 1]) else s
  }

  function ForwardSlashes(s: string): string {
    seq(|s|, i requires 0 <= i < |s| => if s[i] == '\\' then '/' else s[i])
  }

  function From(m: Move): string {
    ForwardSlashes(DropSlashes(m.source))
  }

  function To(m: Move): string {
    DropSlashes(m.destination)
  }

  /** A key's separators count as slashes whichever way they are written, and nothing
      else of it is changed. */
  lemma SeparatorsAreSlashes(m: Move)
    ensures var key, path := DropSlashes(m.source), From(m);
            && |path| == |key| && '\\' !in path
            && forall i :: 0 <= i < |key| ==> path[i] == key[i] || (path[i] == '/' && key[i] == '\\')
  {
  }

  /** The path itself or something below it, on a component boundary. */
  predicate Under(text: string, path: string) {
    text == path || path + "/" <= text
  }

  predicate Applies(m: Move, text: string) {
    From(m) != "" && Under(text, From(m))
  }

  function Moved(m: Move, text: string): string
    requires Applies(m, text)
  {
    To(m) + text[|From(m)|..]
  }

  /** `sorted(..., key=len(source), reverse=True)`: stable, longest source first. */
  function InsertByLength(m: Move, sorted: seq<Move>): seq<Move> {
    if sorted != [] && |sorted[0].source| > |m.source| then [sorted[0]] + InsertByLength(m, sorted[1..])
    else [m] + sorted
  }

  function ByLength(moves: seq<Move>): seq<Move> {
    if moves == [] then [] else InsertByLength(moves[0], ByLength(moves[1..]))
  }

  /** The first move of a list that applies. */
  function FirstOf(moves: seq<Move>, text: string): Option<Move> {
    if moves == [] then None
    else if Applies(moves[0], text) then Some(moves[0])
    else FirstOf(moves[1..], text)
  }

  function Chosen(moves: seq<Move>, text: string): (m: Option<Move>)
    ensures m.Some? ==> Applies(m.value, text)
  {
    FirstOfApplies(ByLength(moves), text);
    FirstOf(ByLength(moves), text)
  }

  lemma {:induction false} FirstOfApplies(moves: seq<Move>, text: string)
    ensures var m := FirstOf(moves, text);
            && (m.Some? ==> Applies(m.value, text) && m.value in moves)
            && (m.None? ==> forall x :: x in moves ==> !Applies(x, text))
  {
    if moves != [] {
      FirstOfApplies(moves[1..], text);
      assert moves == [moves[0]] + moves[1..];
    }
  }

  function Replaced(moves: seq<Move>, text: string): string {
    var m := Chosen(moves, text);
    if m.Some? then Moved(m.value, text) else text
  }

  /** The early-return scan. */
  method ReplacePath(text: string, moves: seq<Move>) returns (r: string)
    ensures r == Replaced(moves, text)
  {
    var sorted := ByLength(moves);
    for i := 0 to |sorted|
      invariant FirstOf(sorted[i..], text) == Chosen(moves, text)
    {
      assert sorted[i..][1..] == sorted[i + 1..];
      var source, destination := From(sorted[i]), To(sorted[i]);
      if source == "" {
        continue;
      }
      if text == source {
        assert text[|source|..] == "";
        return destination;
      }
      if source + "/" <= text {
        return destination + text[|source|..];
      }
    }
    return text;
  }

  // ----- the longest matching source -----

  predicate ProperAncestor(a: string, b: string) {
    a != b && Under(b, a)
  }

  /** Two paths above the same text are above one another. */
  lemma AncestorsNest(text: string, a: string, b: string)
    requires Under(text, a) && Under(text, b) && |a| <= |b|
    ensures Under(b, a)
  {
    assert a <= text && b <= text;
    assert a == b[..|a|];
    if |a| < |b| {
      assert (a + "/")[|a|] == '/';
      assert text[|a|] == '/' && b[|a|] == '/';
      assert b[..|a| + 1] == a + "/";
    }
  }

  lemma {:induction false} InsertKeepsMoves(m: Move, sorted: seq<Move>)
    ensures multiset(InsertByLength(m, sorted)) == multiset(sorted) + multiset{m}
  {
    if sorted != [] && |sorted[0].source| > |m.source| {
      InsertKeepsMoves(m, sorted[1..]);
      assert sorted == [sorted[0]] + sorted[1..];
    }
  }

  lemma {:induction false} SortPermutes(moves: seq<Move>)
    ensures multiset(ByLength(moves)) == multiset(moves)
  {
    if moves != [] {
      SortPermutes(moves[1..]);
      InsertKeepsMoves(moves[0], ByLength(moves[1..]));
      assert moves == [moves[0]] + moves[1..];
    }
  }

  lemma SortKeepsMoves(moves: seq<Move>)
    ensures forall m :: m in ByLength(moves) <==> m in moves
  {
    SortPermutes(moves);
    assert forall m :: m in ByLength(moves) <==> m in multiset(ByLength(moves));
  }

  predicate LongestFirst(sorted: seq<Move>) {
    forall i, j :: 0 <= i < j < |sorted| ==> |sorted[i].source| >= |sorted[j].source|
  }

  lemma {:induction false} InsertKeepsOrder(m: Move, sorted: seq<Move>)
    requires LongestFirst(sorted)
    ensures LongestFirst(InsertByLength(m, sorted))
    ensures forall x :: x in InsertByLength(m, sorted) ==> x == m || x in sorted
  {
    if sorted != [] && |sorted[0].source| > |m.source| {
      InsertKeepsOrder(m, sorted[1..]);
      var r := InsertByLength(m, sorted[1..]);
      forall i | 0 <= i < |r| ensures |r[i].source| <= |sorted[0].source| {
        assert r[i] == m || r[i] in sorted[1..];
      }
    }
  }

  lemma {:induction false} SortedLongestFirst(moves: seq<Move>)
    ensures LongestFirst(ByLength(moves))
  {
    if moves != [] {
      SortedLongestFirst(moves[1..]);
      InsertKeepsOrder(moves[0], ByLength(moves[1..]));
    }
  }

  /** The move chosen for a text has the longest source of all that apply. */
  predicate ChoosesLongest(moves: seq<Move>, text: string) {
    var c := Chosen(moves, text);
    forall m :: m in moves && Applies(m, text) ==> c.Some? && |From(m)| <= |From(c.value)|
  }

  /** In the sorted order, no source comes before one nested in it, unless that
      one's path has come up already. A caller can check it on the map. */
  predicate NestedFirst(sorted: seq<Move>) {
    forall i, j :: 0 <= i < j < |sorted| ==>
      From(sorted[i]) != "" && ProperAncestor(From(sorted[i]), From(sorted[j])) ==>
      exists k :: 0 <= k < i && From(sorted[k]) == From(sorted[j])
  }

  lemma {:induction false} FirstOfIndex(moves: seq<Move>, text: string) returns (s: nat)
    requires FirstOf(moves, text).Some?
    ensures s < |moves| && moves[s] == FirstOf(moves, text).value
    ensures forall k :: 0 <= k < s ==> !Applies(moves[k], text)
  {
    if Applies(moves[0], text) {
      s := 0;
    } else {
      var t := FirstOfIndex(moves[1..], text);
      s := t + 1;
      assert forall k :: 1 <= k < s ==> moves[k] == moves[1..][k - 1];
    }
  }

  lemma LongestIfNestedFirst(moves: seq<Move>, text: string)
    requires NestedFirst(ByLength(moves))
    ensures ChoosesLongest(moves, text)
  {
    var sorted := ByLength(moves);
    SortKeepsMoves(moves);
    FirstOfApplies(sorted, text);
    forall m | m in moves && Applies(m, text)
      ensures Chosen(moves, text).Some? && |From(m)| <= |From(Chosen(moves, text).value)|
    {
      assert m in sorted;
      var s := FirstOfIndex(sorted, text);
      var j :| 0 <= j < |sorted| && sorted[j] == m;
      NoShorterFirst(sorted, s, j, text);
    }
  }

  /** The first source that applies is not shorter than a later one that applies. */
  lemma NoShorterFirst(sorted: seq<Move>, s: nat, j: nat, text: string)
    requires NestedFirst(sorted) && s < |sorted| && j < |sorted|
    requires Applies(sorted[s], text) && Applies(sorted[j], text)
    requires forall k :: 0 <= k < s ==> !Applies(sorted[k], text)
    ensures |From(sorted[j])| <= |From(sorted[s])|
  {
    var first, later := From(sorted[s]), From(sorted[j]);
    assert forall k :: 0 <= k < s ==> From(sorted[k]) != later;
    if |first| < |later| {
      AncestorsNest(text, first, later);
    }
  }

  lemma NestedFirstIfLongest(moves: seq<Move>)
    requires forall text :: ChoosesLongest(moves, text)
    ensures NestedFirst(ByLength(moves))
  {
    var sorted := ByLength(moves);
    SortKeepsMoves(moves);
    forall i, j | 0 <= i < j < |sorted| && From(sorted[i]) != "" && ProperAncestor(From(sorted[i]), From(sorted[j]))
      ensures exists k :: 0 <= k < i && From(sorted[k]) == From(sorted[j])
    {
      var text := From(sorted[j]);
      assert sorted[j] in moves && Applies(sorted[j], text);
      assert ChoosesLongest(moves, text);
      var s := FirstOfIndex(sorted, text);
      assert Applies(sorted[i], text);
    }
  }

  /** Rewriting always applies the longest matching source exactly when the sorted
      map has no source ahead of one nested in it. */
  lemma LongestMatchIff(moves: seq<Move>)
    ensures (forall text :: ChoosesLongest(moves, text)) <==> NestedFirst(ByLength(moves))
  {
    if forall text :: ChoosesLongest(moves, text) {
      NestedFirstIfLongest(moves);
    }
    if NestedFirst(ByLength(moves)) {
      forall text ensures ChoosesLongest(moves, text) {
        LongestIfNestedFirst(moves, text);
      }
    }
  }

  /** A path without a trailing slash or any backslash: already in normal form. */
  predicate Clean(path: string) {
    '\\' !in path && (path == "" || path[|path| - 1] != '/')
  }

  predicate CleanSources(moves: seq<Move>) {
    forall m :: m in moves ==> Clean(m.source)
  }

  lemma CleanStays(m: Move)
    requires Clean(m.source)
    ensures From(m) == m.source
  {
  }

  /** Clean keys never put an outer source first. */
  lemma CleanIsNestedFirst(moves: seq<Move>)
    requires CleanSources(moves)
    ensures NestedFirst(ByLength(moves))
  {
    var sorted := ByLength(moves);
    SortKeepsMoves(moves);
    SortedLongestFirst(moves);
    forall i, j | 0 <= i < j < |sorted|
      ensures !ProperAncestor(From(sorted[i]), From(sorted[j]))
    {
      assert sorted[i] in moves && sorted[j] in moves;
      CleanStays(sorted[i]);
      CleanStays(sorted[j]);
    }
  }

  predicate DistinctSources(moves: seq<Move>) {
    forall a, b :: a in moves && b in moves && a.source == b.source ==> a == b
  }

  /** With clean keys the result does not depend on the order of the map. */
  lemma MapOrderDoesNotMatter(a: seq<Move>, b: seq<Move>, text: string)
    requires CleanSources(a) && DistinctSources(a)
    requires forall m :: m in a <==> m in b
    ensures Replaced(a, text) == Replaced(b, text)
  {
    CleanIsNestedFirst(a);
    CleanIsNestedFirst(b);
    LongestIfNestedFirst(a, text);
    LongestIfNestedFirst(b, text);
    ChosenIsMember(a, text);
    ChosenIsMember(b, text);
    var x, y := Chosen(a, text), Chosen(b, text);
    if x.Some? && y.Some? {
      CleanStays(x.value);
      CleanStays(y.value);
      assert x.value.source <= text && y.value.source <= text;
    }
  }

  lemma ChosenIsMember(moves: seq<Move>, text: string)
    ensures var c := Chosen(moves, text);
            && (c.Some? ==> c.value in moves && Applies(c.value, text))
            && (c.None? <==> forall m :: m in moves ==> !Applies(m, text))
  {
    FirstOfApplies(ByLength(moves), text);
    SortKeepsMoves(moves);
  }

  /** A text that is under no source stays as it is; in particular a sibling whose
      name merely begins like a source. */
  lemma SiblingsStay(moves: seq<Move>, path: string, more: string)
    requires more != "" && more[0] != '/'
    ensures !Under(path + more, path)
    ensures (forall m :: m in moves ==> !Applies(m, path + more)) ==> Replaced(moves, path + more) == path + more
  {
    var text := path + more;
    assert text[|path|] == more[0];
    assert (path + "/")[|path|] == '/';
    ChosenIsMember(moves, text);
  }

  lemma OneMoreSlash(path: string)
    ensures DropSlashes(path + "/") == DropSlashes(path)
  {
    assert (path + "/")[..|path|] == path;
  }

  const OUTER := Move("/a///", "/x")
  const INNER := Move("/a/b", "/y")

  lemma SourcesOfOuterAndInner()
    ensures From(OUTER) == "/a" && From(INNER) == "/a/b"
  {
    assert "/a///" == "/a" + "/" + "/" + "/";
    OneMoreSlash("/a" + "/" + "/");
    OneMoreSlash("/a" + "/");
    OneMoreSlash("/a");
    assert ForwardSlashes("/a") == "/a" && ForwardSlashes("/a/b") == "/a/b";
  }

  lemma OuterSortsFirst()
    ensures ByLength([OUTER, INNER]) == [OUTER, INNER]
  {
    assert [INNER][1..] == [] && ByLength([INNER]) == [INNER];
    assert [OUTER, INNER][1..] == [INNER];
  }

  /** A key with enough trailing slashes overtakes a longer path: here the outer
      directory's move is applied to a text below the inner one. */
  lemma TrailingSlashesMislead()
    ensures Replaced([OUTER, INNER], "/a/b/c") == "/x/b/c"
    ensures Applies(INNER, "/a/b/c") && |From(INNER)| > |From(OUTER)|
    ensures !NestedFirst(ByLength([OUTER, INNER]))
  {
    var text := "/a/b/c";
    SourcesOfOuterAndInner();
    OuterSortsFirst();
    assert "/a" + "/" == text[..3] && "/a/b" + "/" == text[..5] && "/a" + "/" == "/a/b"[..3];
    assert Applies(OUTER, text) && "/x" + text[2..] == "/x/b/c";
    var sorted := [OUTER, INNER];
    assert ProperAncestor(From(sorted[0]), From(sorted[1]));
  }

  // ----- whole documents -----

  /** A parsed JSON value; `Other` is anything that is no string or container. */
  datatype Json = Other(id: int) | Str(text: string) | Arr(items: seq<Json>) | Obj(fields: seq<Field>)
  datatype Field = Field(key: string, value: Json)

  function Rewrite(moves: seq<Move>, v: Json): Json
    decreases v, 1
  {
    match v
    case Other(_) => v
    case Str(text) => Str(Replaced(moves, text))
    case Arr(items) => Arr(RewriteItems(moves, items))
    case Obj(fields) => Obj(RewriteFields(moves, fields))
  }

  function RewriteItems(moves: seq<Move>, items: seq<Json>): seq<Json>
    decreases items, 0
  {
    if items == [] then [] else [Rewrite(moves, items[0])] + RewriteItems(moves, items[1..])
  }

  function RewriteFields(moves: seq<Move>, fields: seq<Field>): seq<Field>
    decreases fields, 0
  {
    if fields == [] then []
    else [Field(fields[0].key, Rewrite(moves, fields[0].value))] + RewriteFields(moves, fields[1..])
  }

  /** A value with every string blanked: its shape, its keys and its other leaves. */
  function Shape(v: Json): Json
    decreases v, 1
  {
    match v
    case Other(_) => v
    case Str(_) => Str("")
    case Arr(items) => Arr(ShapeItems(items))
    case Obj(fields) => Obj(ShapeFields(fields))
  }

  function ShapeItems(items: seq<Json>): seq<Json>
    decreases items, 0
  {
    if items == [] then [] else [Shape(items[0])] + ShapeItems(items[1..])
  }

  function ShapeFields(fields: seq<Field>): seq<Field>
    decreases fields, 0
  {
    if fields == [] then [] else [Field(fields[0].key, Shape(fields[0].value))] + ShapeFields(fields[1..])
  }

  /** Its strings, in order. */
  function Strings(v: Json): seq<string>
    decreases v, 1
  {
    match v
    case Other(_) => []
    case Str(text) => [text]
    case Arr(items) => StringsOfItems(items)
    case Obj(fields) => StringsOfFields(fields)
  }

  function StringsOfItems(items: seq<Json>): seq<string>
    decreases items, 0
  {
    if items == [] then [] else Strings(items[0]) + StringsOfItems(items[1..])
  }

  function StringsOfFields(fields: seq<Field>): seq<string>
    decreases fields, 0
  {
    if fields == [] then [] else Strings(fields[0].value) + StringsOfFields(fields[1..])
  }

  function ReplacedAll(moves: seq<Move>, texts: seq<string>): seq<string> {
    seq(|texts|, i requires 0 <= i < |texts| => Replaced(moves, texts[i]))
  }

  /** Rewriting keeps the shape, the keys and the non-string leaves of a document
      and replaces each of its strings by its rewritten form. */
  lemma {:induction false} RewriteKeepsShape(moves: seq<Move>, v: Json)
    ensures Shape(Rewrite(moves, v)) == Shape(v)
    ensures Strings(Rewrite(moves, v)) == ReplacedAll(moves, Strings(v))
    decreases v, 1
  {
    match v
    case Other(_) =>
    case Str(_) =>
    case Arr(items) => RewriteItemsKeepsShape(moves, items);
    case Obj(fields) => RewriteFieldsKeepsShape(moves, fields);
  }

  lemma {:induction false} RewriteItemsKeepsShape(moves: seq<Move>, items: seq<Json>)
    ensures ShapeItems(RewriteItems(moves, items)) == ShapeItems(items)
    ensures StringsOfItems(RewriteItems(moves, items)) == ReplacedAll(moves, StringsOfItems(items))
    decreases items, 0
  {
    if items != [] {
      RewriteKeepsShape(moves, items[0]);
      RewriteItemsKeepsShape(moves, items[1..]);
      assert RewriteItems(moves, items)[1..] == RewriteItems(moves, items[1..]);
      ReplacedAllAppend(moves, Strings(items[0]), StringsOfItems(items[1..]));
    }
  }

  lemma {:induction false} RewriteFieldsKeepsShape(moves: seq<Move>, fields: seq<Field>)
    ensures ShapeFields(RewriteFields(moves, fields)) == ShapeFields(fields)
    ensures StringsOfFields(RewriteFields(moves, fields)) == ReplacedAll(moves, StringsOfFields(fields))
    decreases fields, 0
  {
    if fields != [] {
      RewriteKeepsShape(moves, fields[0].value);
      RewriteFieldsKeepsShape(moves, fields[1..]);
      assert RewriteFields(moves, fields)[1..] == RewriteFields(moves, fields[1..]);
      ReplacedAllAppend(moves, Strings(fields[0].value), StringsOfFields(fields[1..]));
    }
  }

  lemma ReplacedAllAppend(moves: seq<Move>, a: seq<string>, b: seq<string>)
    ensures ReplacedAll(moves, a + b) == ReplacedAll(moves, a) + ReplacedAll(moves, b)
  {
  }

  // ----- undoing -----

  function Inverse(moves: seq<Move>): seq<Move> {
    seq(|moves|, i requires 0 <= i < |moves| => Move(moves[i].destination, moves[i].source))
  }

  predicate Nested(a: string, b: string) {
    Under(a, b) || Under(b, a)
  }

  /** Clean, non-empty paths, no two sources nested and no two destinations. */
  predicate Reversible(moves: seq<Move>) {
    && (forall i :: 0 <= i < |moves| ==>
          Clean(moves[i].source) && moves[i].source != "" && Clean(moves[i].destination) && moves[i].destination != "")
    && (forall i, j :: 0 <= i < |moves| && 0 <= j < |moves| && i != j ==>
          !Nested(moves[i].source, moves[j].source) && !Nested(moves[i].destination, moves[j].destination))
  }

  /** Only one source of a reversible map is above a text. */
  lemma OnlyMove(moves: seq<Move>, i: nat, text: string)
    requires Reversible(moves) && i < |moves| && Under(text, moves[i].source)
    ensures Chosen(moves, text) == Some(moves[i])
  {
    assert moves[i] in moves;
    CleanStays(moves[i]);
    assert Applies(moves[i], text);
    ChosenIsMember(moves, text);
    var c := Chosen(moves, text).value;
    var j :| 0 <= j < |moves| && moves[j] == c;
    CleanStays(c);
    if |c.source| <= |moves[i].source| {
      AncestorsNest(text, c.source, moves[i].source);
    } else {
      AncestorsNest(text, moves[i].source, c.source);
    }
    assert Nested(moves[i].source, moves[j].source);
  }

  lemma ReplacedByOnlyMove(moves: seq<Move>, i: nat, text: string)
    requires Reversible(moves) && i < |moves| && Under(text, moves[i].source)
    ensures moves[i].source <= text
    ensures Replaced(moves, text) == moves[i].destination + text[|moves[i].source|..]
  {
    OnlyMove(moves, i, text);
    CleanStays(moves[i]);
    assert To(moves[i]) == moves[i].destination;
  }

  /** On a path under a source, the inverse map undoes the rewriting. */
  lemma InverseUndoes(moves: seq<Move>, i: nat, text: string)
    requires Reversible(moves) && i < |moves| && Under(text, moves[i].source)
    ensures Replaced(Inverse(moves), Replaced(moves, text)) == text
  {
    var m := moves[i];
    ReplacedByOnlyMove(moves, i, text);
    var moved := m.destination + text[|m.source|..];
    ReplacedByOnlyMove(Inverse(moves), i, moved);
    SwapPrefix(m.source, m.destination, text);
  }

  lemma SwapPrefix(a: string, b: string, text: string)
    requires a <= text
    ensures a + (b + text[|a|..])[|b|..] == text
  {
    assert (b + text[|a|..])[|b|..] == text[|a|..];
  }

  /** Each string is under a source, or under no source and no destination. */
  predicate Covered(moves: seq<Move>, text: string) {
    || (exists i :: 0 <= i < |moves| && Under(text, moves[i].source))
    || (forall i :: 0 <= i < |moves| ==> !Under(text, moves[i].source) && !Under(text, moves[i].destination))
  }

  lemma CoveredUndoes(moves: seq<Move>, text: string)
    requires Reversible(moves) && Covered(moves, text)
    ensures Replaced(Inverse(moves), Replaced(moves, text)) == text
  {
    if exists i :: 0 <= i < |moves| && Under(text, moves[i].source) {
      var i :| 0 <= i < |moves| && Under(text, moves[i].source);
      InverseUndoes(moves, i, text);
    } else {
      NothingApplies(moves, text);
      NothingApplies(Inverse(moves), text);
    }
  }

  lemma NothingApplies(moves: seq<Move>, text: string)
    requires Reversible(moves) && forall i :: 0 <= i < |moves| ==> !Under(text, moves[i].source)
    ensures Replaced(moves, text) == text
  {
    ChosenIsMember(moves, text);
    forall m | m in moves ensures !Applies(m, text) {
      var i :| 0 <= i < |moves| && moves[i] == m;
      CleanStays(m);
    }
  }

  /** Importing a document under a reversible map and back leaves it unchanged. */
  lemma {:induction false} InverseUndoesDocument(moves: seq<Move>, v: Json)
    requires Reversible(moves) && forall s :: s in Strings(v) ==> Covered(moves, s)
    ensures Rewrite(Inverse(moves), Rewrite(moves, v)) == v
    decreases v, 1
  {
    match v
    case Other(_) =>
    case Str(text) =>
      assert text in Strings(v);
      CoveredUndoes(moves, text);
    case Arr(items) => InverseUndoesItems(moves, items);
    case Obj(fields) => InverseUndoesFields(moves, fields);
  }

  lemma {:induction false} InverseUndoesItems(moves: seq<Move>, items: seq<Json>)
    requires Reversible(moves) && forall s :: s in StringsOfItems(items) ==> Covered(moves, s)
    ensures RewriteItems(Inverse(moves), RewriteItems(moves, items)) == items
    decreases items, 0
  {
    if items != [] {
      InverseUndoesDocument(moves, items[0]);
      InverseUndoesItems(moves, items[1..]);
      assert RewriteItems(moves, items)[1..] == RewriteItems(moves, items[1..]);
    }
  }

  lemma {:induction false} InverseUndoesFields(moves: seq<Move>, fields: seq<Field>)
    requires Reversible(moves) && forall s :: s in StringsOfFields(fields) ==> Covered(moves, s)
    ensures RewriteFields(Inverse(moves), RewriteFields(moves, fields)) == fields
    decreases fields, 0
  {
    if fields != [] {
      InverseUndoesDocument(moves, fields[0].value);
      InverseUndoesFields(moves, fields[1..]);
      assert RewriteFields(moves, fields)[1..] == RewriteFields(moves, fields[1..]);
    }
  }
}
