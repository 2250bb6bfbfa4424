/** Repair of fact names that YAML flow lists split at their commas: the loop, and when it
    undoes the splitting (`_repair_split_fact_sequence` in scenarioforge/generator_manifests.py). */
module FactRepair {
  import opened Text

  /** A list entry: a string, or anything else YAML may put in a list. */
  datatype Item = Str(text: string) | Other(id: int)

  /** Opening minus closing parentheses. */
  function Balance(s: string): int {
    if s == "" then 0
    else (if s[0] == '(' then 1 else if s[0] == ')' then -1 else 0) + Balance(s[1..])
  }

  function Total(tokens: seq<string>): int {
    if tokens == [] then 0 else Balance(tokens[0]) + Total(tokens[1..])
  }

  function Flush(pending: seq<string>): Item {
    Str(Join(pending, ", "))
  }

  /** One round of the state machine: what it emits, and the tokens of a fact
      that is still open and therefore stays pending. */
  function Step(pending: seq<string>, item: Item): (seq<Item>, seq<string>) {
    match item
    case Other(_) => ((if pending == [] then [] else [Flush(pending)]) + [item], [])
    case Str(text) =>
      var token := Strip(text);
      if pending == [] then
        if Balance(token) > 0 then ([], [token]) else ([item], [])
      else
        var grown := if token == "" then pending else pending + [token];
        if Total(grown) <= 0 then ([Flush(grown)], []) else ([], grown)
  }

  /** The whole run; a fact still open at the end is flushed as it is. */
  function RepairFrom(pending: seq<string>, items: seq<Item>): seq<Item>
    decreases |items|
  {
    if items == [] then
      if pending == [] then [] else [Flush(pending)]
    else
      var (emitted, kept) := Step(pending, items[0]);
      if emitted == [] then RepairFrom(kept, items[1..])
      else emitted + RepairFrom(kept, items[1..])
  }

  function Repair(items: seq<Item>): seq<Item> {
    RepairFrom([], items)
  }

  // ----- balance -----

  lemma {:induction false} BalanceAppend(a: string, b: string)
    ensures Balance(a + b) == Balance(a) + Balance(b)
  {
    if a == "" {
      assert a + b == b;
    } else {
      assert (a + b)[1..] == a[1..] + b;
      BalanceAppend(a[1..], b);
    }
  }

  lemma {:induction false} TotalAppend(a: seq<string>, b: seq<string>)
    ensures Total(a + b) == Total(a) + Total(b)
  {
    if a == [] {
      assert a + b == b;
    } else {
      assert (a + b)[1..] == a[1..] + b;
      TotalAppend(a[1..], b);
    }
  }

  lemma {:induction false} BalanceOfJoin(tokens: seq<string>)
    ensures Balance(Join(tokens, ", ")) == Total(tokens)
  {
    if |tokens| == 1 {
      assert tokens[1..] == [];
    } else if |tokens| > 1 {
      var tail := Join(tokens[1..], ", ");
      BalanceOfJoin(tokens[1..]);
      BalanceAppend(tokens[0] + ", ", tail);
      BalanceAppend(tokens[0], ", ");
      assert Balance(", ") == 0 by { assert ", "[1..] == " "; assert " "[1..] == ""; }
    }
  }

  lemma {:induction false} BalanceCounts(s: string)
    ensures Balance(s) + multiset(s)[')'] == multiset(s)['(']
  {
    if s != "" {
      BalanceCounts(s[1..]);
      assert s == [s[0]] + s[1..];
    }
  }

  // ----- the loop -----

  /** The open tokens the loop may be holding. */
  predicate Open(pending: seq<string>) {
    && (forall p :: p in pending ==> p != "" && Trimmed(p))
    && (pending != [] ==> Total(pending) > 0)
  }

  lemma OpenGrows(pending: seq<string>, text: string)
    requires Open(pending)
    ensures var token := Strip(text);
            && (Balance(token) > 0 ==> Open([token]))
            && (token != "" && Total(pending + [token]) > 0 ==> Open(pending + [token]))
  {
    StripIsTrimmed(text);
    var token := Strip(text);
    assert Total([token]) == Balance(token) + Total([]) by { assert [token][1..] == []; }
  }

  lemma Unfold(pending: seq<string>, items: seq<Item>, i: nat)
    requires i < |items|
    ensures var (emitted, kept) := Step(pending, items[i]);
            RepairFrom(pending, items[i..]) == emitted + RepairFrom(kept, items[i + 1..])
  {
    assert items[i..][1..] == items[i + 1..];
  }

  lemma Emit(out: seq<Item>, emitted: seq<Item>, rest: seq<Item>)
    ensures out + (emitted + rest) == (out + emitted) + rest
  {
  }

  lemma TotalPush(pending: seq<string>, token: string)
    ensures Total(pending + [token]) == Total(pending) + Balance(token)
    ensures Total([token]) == Balance(token)
  {
    TotalAppend(pending, [token]);
    assert [token][1..] == [];
  }

  /** The source's loop, with `pending` and `balance` updated in place. */
  method RepairSplitFactSequence(items: seq<Item>) returns (repaired: seq<Item>)
    ensures repaired == Repair(items)
  {
    repaired := [];
    var pending: seq<string> := [];
    var balance := 0;
    var i := 0;
    assert items[0..] == items;
    while i < |items|
      invariant 0 <= i <= |items|
      invariant balance == Total(pending)
      invariant repaired + RepairFrom(pending, items[i..]) == Repair(items)
    {
      var item := items[i];
      ghost var (emitted, kept) := Step(pending, item);
      Unfold(pending, items, i);
      Emit(repaired, emitted, RepairFrom(kept, items[i + 1..]));
      i := i + 1;
      if pending != [] {
        if item.Str? {
          var token := Strip(item.text);
          if token != "" {
            TotalPush(pending, token);
            pending := pending + [token];
            balance := balance + Balance(token);
          }
          if balance <= 0 {
            repaired := repaired + [Str(Join(pending, ", "))];
            pending := [];
            balance := 0;
          }
          continue;
        }
        Emit(repaired, [Flush(pending)], [item]);
        repaired := repaired + [Str(Join(pending, ", "))];
        pending := [];
        balance := 0;
      }
      if item.Str? {
        var token := Strip(item.text);
        NoOpenerNoBalance(token);
        if token != "" && '(' in token && Balance(token) > 0 {
          TotalPush([], token);
          pending := [token];
          balance := Balance(token);
          continue;
        }
      }
      repaired := repaired + [item];
    }
    if pending != [] {
      repaired := repaired + [Str(Join(pending, ", "))];
    }
  }

  /** The source's extra test `'(' in token` never changes the branch taken. */
  lemma {:induction false} NoOpenerNoBalance(token: string)
    ensures Balance(token) > 0 ==> token != "" && '(' in token
  {
    if token != "" {
      NoOpenerNoBalance(token[1..]);
    }
  }

  // ----- idempotence -----

  /** Repairing a repaired list changes nothing. */
  lemma RepairIsIdempotent(items: seq<Item>)
    ensures Repair(Repair(items)) == Repair(items)
  {
    RepairOfRepairFrom([], items);
  }

  lemma FlushReopens(pending: seq<string>)
    requires pending != [] && Open(pending)
    ensures Strip(Flush(pending).text) == Flush(pending).text
    ensures Flush([Flush(pending).text]) == Flush(pending)
    ensures Balance(Flush(pending).text) > 0
  {
    JoinOfPiecesIsTrimmed(pending);
    StripKeepsTrimmed(Flush(pending).text);
    BalanceOfJoin(pending);
  }

  lemma FlushStaysClosed(pending: seq<string>, rest: seq<Item>)
    requires pending != [] && Total(pending) <= 0
    requires forall p :: p in pending ==> p != "" && Trimmed(p)
    ensures RepairFrom([], [Flush(pending)] + rest) == [Flush(pending)] + RepairFrom([], rest)
  {
    JoinOfPiecesIsTrimmed(pending);
    StripKeepsTrimmed(Flush(pending).text);
    BalanceOfJoin(pending);
    assert ([Flush(pending)] + rest)[1..] == rest;
  }

  lemma FlushedStaysOpen(pending: seq<string>, rest: seq<Item>)
    requires pending != [] && Open(pending)
    requires rest == [] || rest[0].Other?
    ensures Repair([Flush(pending)] + rest) == [Flush(pending)] + Repair(rest)
  {
    var f := Flush(pending);
    FlushReopens(pending);
    assert ([f] + rest)[1..] == rest;
    assert Repair([f] + rest) == RepairFrom([f.text], rest);
    if rest != [] {
      assert Repair(rest) == [] + [rest[0]] + RepairFrom([], rest[1..]);
    }
  }

  lemma OtherStaysPut(pending: seq<string>, item: Item, tail: seq<Item>)
    requires Open(pending) && item.Other? && Repair(tail) == tail
    ensures var out := Step(pending, item).0 + tail; Repair(out) == out
  {
    var rest := [item] + tail;
    assert rest[1..] == tail;
    assert Repair(rest) == [item] + Repair(tail);
    if pending == [] {
      assert [] + [item] + tail == rest;
    } else {
      FlushedStaysOpen(pending, rest);
      assert [Flush(pending)] + [item] + tail == [Flush(pending)] + rest;
    }
  }

  lemma {:induction false} RepairOfRepairFrom(pending: seq<string>, items: seq<Item>)
    requires Open(pending)
    ensures Repair(RepairFrom(pending, items)) == RepairFrom(pending, items)
    decreases |items|, 1
  {
    if items == [] {
      if pending != [] {
        FlushedStaysOpen(pending, []);
        assert [Flush(pending)] + [] == [Flush(pending)];
      }
    } else if items[0].Other? {
      RepairOfRepairFrom([], items[1..]);
      OtherStaysPut(pending, items[0], RepairFrom([], items[1..]));
    } else {
      RepairOfRepairString(pending, items);
    }
  }

  lemma {:induction false} RepairOfRepairString(pending: seq<string>, items: seq<Item>)
    requires Open(pending) && items != [] && items[0].Str?
    ensures Repair(RepairFrom(pending, items)) == RepairFrom(pending, items)
    decreases |items|, 0
  {
    var token := Strip(items[0].text);
    OpenGrows(pending, items[0].text);
    StripIsTrimmed(items[0].text);
    var tail := RepairFrom([], items[1..]);
    if pending == [] {
      if Balance(token) > 0 {
        RepairOfRepairFrom([token], items[1..]);
      } else {
        RepairOfRepairFrom([], items[1..]);
        assert ([items[0]] + tail)[1..] == tail;
      }
    } else {
      var grown := if token == "" then pending else pending + [token];
      if Total(grown) <= 0 {
        RepairOfRepairFrom([], items[1..]);
        FlushStaysClosed(grown, tail);
      } else {
        RepairOfRepairFrom(grown, items[1..]);
      }
    }
  }

  // ----- nothing is lost, reordered or invented -----

  /** What a list says, comma by comma: the trimmed non-empty tokens of its
      strings and its non-string entries, in order. */
  datatype Token = Tok(text: string) | Obj(id: int)

  function Toks(pieces: seq<string>): seq<Token> {
    seq(|pieces|, i requires 0 <= i < |pieces| => Tok(pieces[i]))
  }

  function ItemTokens(item: Item): seq<Token> {
    match item
    case Str(text) => Toks(Pieces(text))
    case Other(id) => [Obj(id)]
  }

  function Tokens(items: seq<Item>): seq<Token> {
    if items == [] then [] else ItemTokens(items[0]) + Tokens(items[1..])
  }

  /** Repairing keeps the ordered token sequence, whatever the list holds. */
  lemma RepairKeepsTokens(items: seq<Item>)
    ensures Tokens(Repair(items)) == Tokens(items)
  {
    RepairFromKeepsTokens([], items);
    assert Tokens(items) == Toks([]) + Tokens(items);
  }

  lemma {:induction false} TokensAppend(a: seq<Item>, b: seq<Item>)
    ensures Tokens(a + b) == Tokens(a) + Tokens(b)
  {
    if a == [] {
      assert a + b == b;
    } else {
      assert (a + b)[1..] == a[1..] + b;
      TokensAppend(a[1..], b);
    }
  }

  lemma TokensOfOne(item: Item)
    ensures Tokens([item]) == ItemTokens(item)
  {
    assert [item][1..] == [];
    assert ItemTokens(item) + [] == ItemTokens(item);
  }

  lemma {:induction false} AllPiecesAppend(a: seq<string>, b: seq<string>)
    ensures AllPieces(a + b) == AllPieces(a) + AllPieces(b)
  {
    if a == [] {
      assert a + b == b;
    } else {
      assert (a + b)[1..] == a[1..] + b;
      AllPiecesAppend(a[1..], b);
    }
  }

  lemma PendingGrowsByPieces(pending: seq<string>, text: string)
    ensures var token := Strip(text);
            var grown := if token == "" then pending else pending + [token];
            Toks(AllPieces(grown)) == Toks(AllPieces(pending)) + ItemTokens(Str(text))
  {
    var token := Strip(text);
    PiecesOfStrip(text);
    if token == "" {
    } else {
      AllPiecesAppend(pending, [token]);
    }
  }

  lemma FlushTokens(pending: seq<string>)
    ensures ItemTokens(Flush(pending)) == Toks(AllPieces(pending))
  {
    PiecesOfJoin(pending);
  }

  lemma FlushedTokens(pending: seq<string>, rest: seq<Item>)
    ensures Tokens([Flush(pending)] + rest) == Toks(AllPieces(pending)) + Tokens(rest)
  {
    FlushTokens(pending);
  }

  lemma {:induction false} RepairFromKeepsTokens(pending: seq<string>, items: seq<Item>)
    ensures Tokens(RepairFrom(pending, items)) == Toks(AllPieces(pending)) + Tokens(items)
    decreases |items|, 1
  {
    if items == [] {
      FlushTokens(pending);
      TokensOfOne(Flush(pending));
    } else if items[0].Other? {
      var tail := RepairFrom([], items[1..]);
      RepairFromKeepsTokens([], items[1..]);
      assert Tokens(tail) == Tokens(items[1..]) by { assert Toks(AllPieces([])) == []; }
      var rest := [items[0]] + tail;
      assert Tokens(rest) == Tokens(items);
      if pending == [] {
        assert RepairFrom(pending, items) == rest;
        assert Toks(AllPieces(pending)) == [];
      } else {
        FlushedTokens(pending, rest);
        assert RepairFrom(pending, items) == [Flush(pending)] + rest;
      }
    } else {
      StringKeepsTokens(pending, items);
    }
  }

  /** The three ways the loop can treat a string. */
  lemma StringStep(pending: seq<string>, items: seq<Item>)
    requires items != [] && items[0].Str?
    ensures var token := Strip(items[0].text);
            var grown := if token == "" then pending else pending + [token];
            var tail := RepairFrom([], items[1..]);
            var now := RepairFrom(pending, items);
            || now == RepairFrom(grown, items[1..])
            || now == [Flush(grown)] + tail
            || (pending == [] && now == [items[0]] + tail)
  {
    var token := Strip(items[0].text);
    NoOpenerNoBalance(token);
    if pending == [] && token != "" {
      assert pending + [token] == [token];
    }
  }

  lemma {:induction false} StringKeepsTokens(pending: seq<string>, items: seq<Item>)
    requires items != [] && items[0].Str?
    ensures Tokens(RepairFrom(pending, items)) == Toks(AllPieces(pending)) + Tokens(items)
    decreases |items|, 0
  {
    var token := Strip(items[0].text);
    var grown := if token == "" then pending else pending + [token];
    var tail := RepairFrom([], items[1..]);
    var now := RepairFrom(pending, items);
    StringStep(pending, items);
    PendingGrowsByPieces(pending, items[0].text);
    assert items[0] == Str(items[0].text);
    RepairFromKeepsTokens([], items[1..]);
    RepairFromKeepsTokens(grown, items[1..]);
    StringTokens(pending, items, grown, tail, now);
  }

  lemma Regroup(held: seq<Token>, it: seq<Token>, rest: seq<Token>)
    ensures held + it + rest == held + (it + rest)
  {
  }

  lemma StringTokens(pending: seq<string>, items: seq<Item>, grown: seq<string>, tail: seq<Item>, now: seq<Item>)
    requires items != []
    requires Toks(AllPieces(grown)) == Toks(AllPieces(pending)) + ItemTokens(items[0])
    requires Tokens(tail) == Tokens(items[1..])
    requires || Tokens(now) == Toks(AllPieces(grown)) + Tokens(items[1..])
             || now == [Flush(grown)] + tail
             || (pending == [] && now == [items[0]] + tail)
    ensures Tokens(now) == Toks(AllPieces(pending)) + Tokens(items)
  {
    Regroup(Toks(AllPieces(pending)), ItemTokens(items[0]), Tokens(items[1..]));
    if now == [Flush(grown)] + tail {
      FlushedTokens(grown, tail);
    }
  }

  // ----- round trip through an unquoted YAML flow list -----

  /** How a list of facts is written, and what splitting at commas reads back. */
  function FlowText(facts: seq<string>): string {
    Join(facts, ", ")
  }

  function FlowEntries(text: string): seq<Item> {
    Strs(Pieces(text))
  }

  function Strs(texts: seq<string>): seq<Item> {
    seq(|texts|, i requires 0 <= i < |texts| => Str(texts[i]))
  }

  /** Every proper non-empty prefix is still open. */
  predicate OpenUntilLast(pieces: seq<string>) {
    forall k :: 0 < k < |pieces| ==> Total(pieces[..k]) > 0
  }

  /** A fact in normal spelling that is still open at each of its own commas. */
  predicate Spelled(fact: string) {
    var p := Pieces(fact);
    p != [] && fact == Join(p, ", ") && OpenUntilLast(p)
  }

  /** Its parentheses are closed at its end. */
  predicate Closed(fact: string) {
    Total(Pieces(fact)) <= 0
  }

  predicate AllSpelled(facts: seq<string>) {
    && (forall i :: 0 <= i < |facts| ==> Spelled(facts[i]))
    && (forall i :: 0 <= i < |facts| - 1 ==> Closed(facts[i]))
  }

  /** A fact list survives being written as an unquoted flow list, split at the
      commas and repaired, exactly when every fact is spelled normally, stays
      open at each of its own commas, and is closed before the next fact. */
  lemma RoundTripIff(facts: seq<string>)
    ensures Repair(FlowEntries(FlowText(facts))) == Strs(facts) <==> AllSpelled(facts)
  {
    PiecesOfJoin(facts);
    if AllSpelled(facts) {
      RepairRecoversFacts(facts);
    }
    if Repair(FlowEntries(FlowText(facts))) == Strs(facts) {
      PiecesArePieces(FlowText(facts));
      OutputsAreSpelled([], Pieces(FlowText(facts)));
      var out := RepairFrom([], Strs(Pieces(FlowText(facts))));
      assert out == Strs(facts);
      forall i | 0 <= i < |facts| ensures Spelled(facts[i]) && (i < |facts| - 1 ==> Closed(facts[i])) {
        assert out[i] == Str(facts[i]);
      }
    }
  }

  /** The same round trip piece by piece: pieces whose proper prefixes are open
      and whose total is zero, mixed with arbitrary non-string entries. */
  datatype Fact = Split(pieces: seq<string>) | Opaque(id: int)

  predicate WellFormed(fact: Fact) {
    fact.Split? ==>
      && fact.pieces != []
      && (forall p :: p in fact.pieces ==> p != "" && Trimmed(p))
      && OpenUntilLast(fact.pieces) && Total(fact.pieces) <= 0
  }

  function Written(facts: seq<Fact>): seq<Item> {
    if facts == [] then []
    else (match facts[0] case Split(ps) => Strs(ps) case Opaque(id) => [Other(id)]) + Written(facts[1..])
  }

  function Meant(facts: seq<Fact>): seq<Item> {
    seq(|facts|, i requires 0 <= i < |facts| =>
      match facts[i] case Split(ps) => Flush(ps) case Opaque(id) => Other(id))
  }

  lemma {:induction false} RepairUndoesSplitting(facts: seq<Fact>)
    requires forall f :: f in facts ==> WellFormed(f)
    ensures Repair(Written(facts)) == Meant(facts)
  {
    if facts != [] {
      assert facts[0] in facts && forall f :: f in facts[1..] ==> f in facts;
      RepairUndoesSplitting(facts[1..]);
      var rest := Written(facts[1..]);
      assert Meant(facts) == [Meant(facts)[0]] + Meant(facts[1..]);
      match facts[0]
      case Opaque(id) =>
        assert ([Other(id)] + rest)[1..] == rest;
      case Split(ps) =>
        RepairClosesFact(ps, rest);
    }
  }

  lemma RepairClosesFact(ps: seq<string>, rest: seq<Item>)
    requires ps != [] && OpenUntilLast(ps) && Total(ps) <= 0
    requires forall p :: p in ps ==> p != "" && Trimmed(p)
    ensures RepairFrom([], Strs(ps) + rest) == [Flush(ps)] + RepairFrom([], rest)
  {
    RunThroughFact(ps, 0, rest);
    assert Strs(ps[0..]) == Strs(ps);
  }

  lemma {:induction false} RunThroughFact(ps: seq<string>, k: nat, rest: seq<Item>)
    requires k < |ps| && OpenUntilLast(ps) && Total(ps) <= 0
    requires forall p :: p in ps ==> p != "" && Trimmed(p)
    ensures RepairFrom(ps[..k], Strs(ps[k..]) + rest) == [Flush(ps)] + RepairFrom([], rest)
    decreases |ps| - k
  {
    var entries := Strs(ps[k..]) + rest;
    assert entries[0] == Str(ps[k]);
    assert entries[1..] == Strs(ps[k + 1..]) + rest;
    assert ps[k] in ps;
    StripKeepsTrimmed(ps[k]);
    assert ps[..k] + [ps[k]] == ps[..k + 1];
    assert Total([ps[k]]) == Balance(ps[k]) by { assert [ps[k]][1..] == []; }
    if k + 1 == |ps| {
      assert ps[..k + 1] == ps;
      assert Strs(ps[k + 1..]) + rest == rest;
      if k == 0 {
        assert ps == [ps[0]];
      }
    } else {
      assert Total(ps[..k + 1]) > 0;
      if k == 0 {
        assert ps[..1] == [ps[0]];
      }
      RunThroughFact(ps, k + 1, rest);
    }
  }

  lemma StrsOfAppend(a: seq<string>, b: seq<string>)
    ensures Strs(a + b) == Strs(a) + Strs(b)
  {
  }

  lemma {:induction false} RepairRecoversFacts(facts: seq<string>)
    requires AllSpelled(facts)
    ensures Repair(Strs(AllPieces(facts))) == Strs(facts)
  {
    if facts != [] {
      var fact, ps := facts[0], Pieces(facts[0]);
      PiecesArePieces(fact);
      assert Spelled(fact);
      var tail := AllPieces(facts[1..]);
      StrsOfAppend(ps, tail);
      StrsOfAppend([fact], facts[1..]);
      assert [fact] + facts[1..] == facts;
      if |facts| > 1 {
        assert Closed(fact);
        assert AllSpelled(facts[1..]);
        RepairRecoversFacts(facts[1..]);
        RepairClosesFact(ps, Strs(tail));
      } else {
        assert facts == [fact] && tail == [];
        assert Strs(ps) + Strs(tail) == Strs(ps);
        LastFactRepairs(ps);
      }
    }
  }

  lemma LastFactRepairs(ps: seq<string>)
    requires ps != [] && OpenUntilLast(ps)
    requires forall p :: p in ps ==> p != "" && Trimmed(p)
    ensures Repair(Strs(ps)) == [Flush(ps)]
  {
    if Total(ps) <= 0 {
      RepairClosesFact(ps, []);
      assert Strs(ps) + [] == Strs(ps);
    } else {
      RunIntoEnd(ps, 0);
      assert ps[0..] == ps && ps[..0] == [];
    }
  }

  lemma {:induction false} RunIntoEnd(ps: seq<string>, k: nat)
    requires k <= |ps| && ps != [] && OpenUntilLast(ps) && Total(ps) > 0
    requires forall p :: p in ps ==> p != "" && Trimmed(p)
    ensures RepairFrom(ps[..k], Strs(ps[k..])) == [Flush(ps)]
    decreases |ps| - k
  {
    if k == |ps| {
      assert ps[..k] == ps;
    } else {
      var entries := Strs(ps[k..]);
      assert entries[0] == Str(ps[k]) && entries[1..] == Strs(ps[k + 1..]);
      assert ps[k] in ps;
      StripKeepsTrimmed(ps[k]);
      assert ps[..k] + [ps[k]] == ps[..k + 1];
      assert Total([ps[k]]) == Balance(ps[k]) by { assert [ps[k]][1..] == []; }
      assert ps[..|ps|] == ps;
      assert Total(ps[..k + 1]) > 0;
      if k == 0 {
        assert ps[..1] == [ps[0]];
      }
      RunIntoEnd(ps, k + 1);
    }
  }

  predicate SpelledItems(out: seq<Item>) {
    && (forall i :: 0 <= i < |out| ==> out[i].Str? && Spelled(out[i].text))
    && (forall i :: 0 <= i < |out| - 1 ==> out[i].Str? && Closed(out[i].text))
  }

  /** Whatever the pieces, each repaired string is spelled normally: it is open
      at each of its own commas and closed unless it is the last. */
  lemma {:induction false} OutputsAreSpelled(pending: seq<string>, ps: seq<string>)
    requires forall p :: p in pending + ps ==> IsPiece(p)
    requires forall k :: 0 < k <= |pending| ==> Total(pending[..k]) > 0
    ensures SpelledItems(RepairFrom(pending, Strs(ps)))
    decreases |ps|
  {
    assert forall p :: p in pending ==> p in pending + ps;
    assert forall p :: p in ps ==> p in pending + ps;
    if ps == [] {
      if pending != [] {
        FlushIsSpelled(pending);
      }
    } else {
      var entries := Strs(ps);
      assert entries[0] == Str(ps[0]) && entries[1..] == Strs(ps[1..]);
      assert ps[0] in ps && forall p :: p in ps[1..] ==> p in ps;
      StripKeepsTrimmed(ps[0]);
      var grown := pending + [ps[0]];
      TotalPush(pending, ps[0]);
      assert forall k :: 0 < k <= |pending| ==> grown[..k] == pending[..k];
      assert grown[..|grown|] == grown;
      if pending == [] {
        assert grown == [ps[0]];
      }
      if Total(grown) <= 0 {
        FlushIsSpelled(grown);
        OutputsAreSpelled([], ps[1..]);
        var tail := RepairFrom([], Strs(ps[1..]));
        assert RepairFrom(pending, entries) == [Flush(grown)] + tail;
        SpelledItemsCons(Flush(grown), tail);
      } else {
        assert forall p :: p in grown + ps[1..] ==> p in pending + ps;
        OutputsAreSpelled(grown, ps[1..]);
        assert RepairFrom(pending, entries) == RepairFrom(grown, Strs(ps[1..]));
      }
    }
  }

  lemma SpelledItemsCons(item: Item, tail: seq<Item>)
    requires item.Str? && Spelled(item.text) && Closed(item.text) && SpelledItems(tail)
    ensures SpelledItems([item] + tail)
  {
    var out := [item] + tail;
    assert forall i :: 0 < i < |out| ==> out[i] == tail[i - 1];
  }

  lemma FlushIsSpelled(pieces: seq<string>)
    requires pieces != [] && (forall p :: p in pieces ==> IsPiece(p))
    requires OpenUntilLast(pieces)
    ensures Spelled(Flush(pieces).text) && Pieces(Flush(pieces).text) == pieces
  {
    PiecesOfJoin(pieces);
    PiecesOfJoinedPieces(pieces);
  }
}
