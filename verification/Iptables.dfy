/** Reading captured `iptables -S` lines and deciding whether an earlier DROP
    silences an allow rule (webapp/artifact_checks.py). */
module Iptables {
  import opened Optional
  import opened Text

  // ----- parsing -----

  /** The fields of a line that decide whether it matches. */
  datatype Parsed = Parsed(chain: string, src: string, dst: string, proto: string, dport: Option<nat>, target: string)

  /** The effect of one option and the token after it. */
  function SetField(p: Parsed, option: string, value: string): Parsed {
    if option == "-s" || option == "--source" then p.(src := value)
    else if option == "-d" || option == "--destination" then p.(dst := value)
    else if option == "-p" || option == "--protocol" then p.(proto := Lower(value))
    else if option == "--dport" then p.(dport := ParseInt(value))
    else if option == "-j" then p.(target := Upper(value))
    else p
  }

  predicate StartsWithDash(t: string) {
    t != "" && t[0] == '-'
  }

  /** The index loop of `_parse_iptables_line` from some token on. */
  function ParseFrom(tokens: seq<string>, p: Parsed): Parsed
    decreases |tokens|
  {
    if tokens == [] then p
    else
      var value := if |tokens| > 1 then tokens[1] else "";
      var q := SetField(p, tokens[0], value);
      if value != "" && !StartsWithDash(value) then ParseFrom(tokens[2..], q) else ParseFrom(tokens[1..], q)
  }

  function ParseLine(line: string): Option<Parsed> {
    var tokens := Words(line);
    if |tokens| < 2 || (tokens[0] != "-A" && tokens[0] != "-I") then None
    else Some(ParseFrom(tokens[2..], Parsed(tokens[1], "", "", "", None, "")))
  }

  lemma {:induction false} ParseKeepsChain(tokens: seq<string>, p: Parsed)
    ensures ParseFrom(tokens, p).chain == p.chain
    decreases |tokens|
  {
    if tokens != [] {
      var value := if |tokens| > 1 then tokens[1] else "";
      var q := SetField(p, tokens[0], value);
      ParseKeepsChain(tokens[1..], q);
      if |tokens| > 1 {
        ParseKeepsChain(tokens[2..], q);
      }
    }
  }

  lemma SameOption(a: string, b: string, value: string, tail: seq<string>, p: Parsed)
    requires SetField(p, a, value) == SetField(p, b, value)
    ensures ParseFrom([a, value] + tail, p) == ParseFrom([b, value] + tail, p)
  {
    var x, y := [a, value] + tail, [b, value] + tail;
    assert x[1] == value && y[1] == value;
    assert x[1..] == y[1..] && x[2..] == y[2..];
  }

  /** The long forms of the selectors are read like the short ones. */
  lemma LongFormsAgree(value: string, tail: seq<string>, p: Parsed)
    ensures ParseFrom(["--source", value] + tail, p) == ParseFrom(["-s", value] + tail, p)
    ensures ParseFrom(["--destination", value] + tail, p) == ParseFrom(["-d", value] + tail, p)
    ensures ParseFrom(["--protocol", value] + tail, p) == ParseFrom(["-p", value] + tail, p)
  {
    SameOption("--source", "-s", value, tail, p);
    SameOption("--destination", "-d", value, tail, p);
    SameOption("--protocol", "-p", value, tail, p);
  }

  /** A line is read exactly if it adds a rule to a chain, at its end or its start. */
  method ParseIptablesLine(line: string) returns (r: Option<Parsed>)
    ensures r == ParseLine(line)
    ensures r.Some? <==> |Words(line)| >= 2 && Words(line)[0] in ["-A", "-I"]
    ensures r.Some? ==> r.value.chain == Words(line)[1]
  {
    var tokens := Words(line);
    if |tokens| < 2 || (tokens[0] != "-A" && tokens[0] != "-I") {
      return None;
    }
    var parsed := Parsed(tokens[1], "", "", "", None, "");
    var index := 2;
    while index < |tokens|
      invariant 2 <= index <= |tokens|
      invariant ParseLine(line) == Some(ParseFrom(tokens[index..], parsed))
    {
      var token := tokens[index];
      var value := if index + 1 < |tokens| then tokens[index + 1] else "";
      assert tokens[index..][1..] == tokens[index + 1..];
      if index + 1 < |tokens| {
        assert tokens[index..][2..] == tokens[index + 2..];
      }
      if token == "-s" || token == "--source" {
        parsed := parsed.(src := value);
      } else if token == "-d" || token == "--destination" {
        parsed := parsed.(dst := value);
      } else if token == "-p" || token == "--protocol" {
        parsed := parsed.(proto := Lower(value));
      } else if token == "--dport" {
        parsed := parsed.(dport := ParseInt(value));
      } else if token == "-j" {
        parsed := parsed.(target := Upper(value));
      }
      index := index + if value != "" && !StartsWithDash(value) then 2 else 1;
    }
    assert tokens[index..] == [];
    ParseKeepsChain(tokens[2..], Parsed(tokens[1], "", "", "", None, ""));
    r := Some(parsed);
  }

  // ----- rules and how they are printed -----

  /** One option of a rule; a negated one has an exclamation mark before it. `Extra`
      is any option the parser does not know, with the words after it. */
  datatype Opt =
    | Source(negated: bool, net: string)
    | Destination(negated: bool, net: string)
    | Protocol(negated: bool, name: string)
    | Port(negated: bool, text: string)
    | Target(name: string)
    | Extra(negated: bool, option: string, values: seq<string>)

  /** A rule of a chain: its options, in whatever order they are printed. */
  datatype Rule = Rule(chain: string, options: seq<Opt>)

  predicate Known(option: string) {
    option in ["-s", "--source", "-d", "--destination", "-p", "--protocol", "--dport", "-j"]
  }

  predicate PlainWord(v: string) {
    IsToken(v) && v[0] != '-'
  }

  predicate PlainWords(ws: seq<string>) {
    forall i :: 0 <= i < |ws| ==> PlainWord(ws[i])
  }

  predicate OptOk(o: Opt) {
    match o
    case Source(_, v) => PlainWord(v)
    case Destination(_, v) => PlainWord(v)
    case Protocol(_, v) => PlainWord(v)
    case Port(_, v) => PlainWord(v)
    case Target(v) => PlainWord(v)
    case Extra(_, option, values) => IsToken(option) && option[0] == '-' && !Known(option) && PlainWords(values)
  }

  predicate SameKind(a: Opt, b: Opt) {
    || (a.Source? && b.Source?) || (a.Destination? && b.Destination?) || (a.Protocol? && b.Protocol?)
    || (a.Port? && b.Port?) || (a.Target? && b.Target?)
  }

  predicate OncePerKind(os: seq<Opt>) {
    forall i, j :: 0 <= i < j < |os| ==> !SameKind(os[i], os[j])
  }

  predicate OptsOk(os: seq<Opt>) {
    forall i :: 0 <= i < |os| ==> OptOk(os[i])
  }

  predicate RuleOk(r: Rule) {
    PlainWord(r.chain) && OptsOk(r.options) && OncePerKind(r.options)
  }

  predicate Negated(o: Opt) {
    !o.Target? && o.negated
  }

  /** The option and its words, without a negation. */
  function Body(o: Opt): seq<string> {
    match o
    case Source(_, v) => ["-s", v]
    case Destination(_, v) => ["-d", v]
    case Protocol(_, v) => ["-p", v]
    case Port(_, v) => ["--dport", v]
    case Target(v) => ["-j", v]
    case Extra(_, option, values) => [option] + values
  }

  function TokensOf(o: Opt): seq<string> {
    if Negated(o) then ["!"] + Body(o) else Body(o)
  }

  function TokensOfAll(os: seq<Opt>): seq<string> {
    if os == [] then [] else TokensOf(os[0]) + TokensOfAll(os[1..])
  }

  function Print(r: Rule): string {
    Join(["-A", r.chain] + TokensOfAll(r.options), " ")
  }

  /** The field an option stands for, negated or not. */
  function Apply(p: Parsed, o: Opt): Parsed {
    match o
    case Source(_, v) => p.(src := v)
    case Destination(_, v) => p.(dst := v)
    case Protocol(_, v) => p.(proto := Lower(v))
    case Port(_, v) => p.(dport := ParseInt(v))
    case Target(v) => p.(target := Upper(v))
    case Extra(_, _, _) => p
  }

  function ApplyAll(p: Parsed, os: seq<Opt>): Parsed
    decreases |os|
  {
    if os == [] then p else ApplyAll(Apply(p, os[0]), os[1..])
  }

  function Blank(chain: string): Parsed {
    Parsed(chain, "", "", "", None, "")
  }

  function Fields(r: Rule): Parsed {
    ApplyAll(Blank(r.chain), r.options)
  }

  /** What may follow an option: nothing, another one, or a negated one. */
  predicate Dashed(tail: seq<string>) {
    tail == [] || StartsWithDash(tail[0])
  }

  predicate Tidy(tail: seq<string>) {
    Dashed(tail) || (tail[0] == "!" && Dashed(tail[1..]))
  }

  lemma {:induction false} SkipWords(ws: seq<string>, tail: seq<string>, p: Parsed)
    requires PlainWords(ws) && Dashed(tail)
    ensures ParseFrom(ws + tail, p) == ParseFrom(tail, p)
    decreases |ws|
  {
    var all := ws + tail;
    if ws == [] {
      assert all == tail;
    } else {
      if |ws| == 1 {
        assert all[1..] == tail;
      } else {
        assert PlainWord(ws[1]) && all[1] == ws[1];
        assert all[2..] == ws[2..] + tail;
        SkipWords(ws[2..], tail, p);
      }
    }
  }

  lemma SkipMark(tail: seq<string>, p: Parsed)
    requires Dashed(tail)
    ensures ParseFrom(["!"] + tail, p) == ParseFrom(tail, p)
  {
    SkipWords(["!"], tail, p);
  }

  lemma SkipWordsTidily(ws: seq<string>, tail: seq<string>, p: Parsed)
    requires PlainWords(ws) && Tidy(tail)
    ensures ParseFrom(ws + tail, p) == ParseFrom(tail, p)
  {
    if Dashed(tail) {
      SkipWords(ws, tail, p);
    } else {
      assert ws + tail == (ws + ["!"]) + tail[1..] && tail == ["!"] + tail[1..];
      SkipWords(ws + ["!"], tail[1..], p);
      SkipMark(tail[1..], p);
    }
  }

  lemma ParseExtra(option: string, values: seq<string>, tail: seq<string>, p: Parsed)
    requires OptOk(Extra(false, option, values)) && Tidy(tail)
    ensures ParseFrom([option] + values + tail, p) == ParseFrom(tail, p)
  {
    var all := [option] + values + tail;
    if values != [] {
      assert PlainWord(values[0]) && all[1] == values[0];
      assert all[2..] == values[1..] + tail;
      SkipWordsTidily(values[1..], tail, p);
    } else {
      assert all[1..] == tail;
      if !Dashed(tail) {
        assert all[2..] == tail[1..] && tail == ["!"] + tail[1..];
        SkipMark(tail[1..], p);
      }
    }
  }

  lemma ParseBody(o: Opt, tail: seq<string>, p: Parsed)
    requires OptOk(o) && Tidy(tail)
    ensures ParseFrom(Body(o) + tail, p) == ParseFrom(tail, Apply(p, o))
  {
    if o.Extra? {
      ParseExtra(o.option, o.values, tail, p);
    }
  }

  lemma BodyIsDashed(o: Opt, tail: seq<string>)
    requires OptOk(o)
    ensures Dashed(Body(o) + tail)
  {
  }

  lemma ParseOption(o: Opt, tail: seq<string>, p: Parsed)
    requires OptOk(o) && Tidy(tail)
    ensures ParseFrom(TokensOf(o) + tail, p) == ParseFrom(tail, Apply(p, o))
  {
    ParseBody(o, tail, p);
    if Negated(o) {
      BodyIsDashed(o, tail);
      assert TokensOf(o) + tail == ["!"] + (Body(o) + tail);
      SkipMark(Body(o) + tail, p);
    }
  }

  /** The tokens of any options, in any order, set exactly the fields of the known ones. */
  lemma {:induction false} ParseOptions(os: seq<Opt>, p: Parsed)
    requires OptsOk(os)
    ensures ParseFrom(TokensOfAll(os), p) == ApplyAll(p, os)
    ensures Tidy(TokensOfAll(os))
  {
    if os != [] {
      ParseOptions(os[1..], Apply(p, os[0]));
      ParseOption(os[0], TokensOfAll(os[1..]), p);
    }
  }

  lemma TokensAppend(a: seq<string>, b: seq<string>)
    requires AllTokens(a) && AllTokens(b)
    ensures AllTokens(a + b)
  {
  }

  lemma {:induction false} OptionsAreTokens(os: seq<Opt>)
    requires OptsOk(os)
    ensures AllTokens(TokensOfAll(os))
  {
    if os != [] {
      OptionsAreTokens(os[1..]);
      TokensAppend(TokensOf(os[0]), TokensOfAll(os[1..]));
    }
  }

  /** Parsing a printed rule recovers its fields, whatever other options stand
      before, between and after the ones the parser knows. */
  lemma ParseOfPrint(r: Rule)
    requires RuleOk(r)
    ensures ParseLine(Print(r)) == Some(Fields(r))
  {
    var tokens := ["-A", r.chain] + TokensOfAll(r.options);
    OptionsAreTokens(r.options);
    TokensAppend(["-A", r.chain], TokensOfAll(r.options));
    WordsOfJoin(tokens);
    assert tokens[2..] == TokensOfAll(r.options);
    ParseOptions(r.options, Blank(r.chain));
  }

  function Positive(o: Opt): Opt {
    match o
    case Source(_, v) => Source(false, v)
    case Destination(_, v) => Destination(false, v)
    case Protocol(_, v) => Protocol(false, v)
    case Port(_, v) => Port(false, v)
    case Target(v) => Target(v)
    case Extra(_, option, values) => Extra(false, option, values)
  }

  /** The rule with every negation left out. */
  function PositiveRule(r: Rule): Rule {
    Rule(r.chain, seq(|r.options|, i requires 0 <= i < |r.options| => Positive(r.options[i])))
  }

  lemma {:induction false} PositiveFields(p: Parsed, os: seq<Opt>, ps: seq<Opt>)
    requires |ps| == |os| && forall i :: 0 <= i < |os| ==> ps[i] == Positive(os[i])
    ensures ApplyAll(p, ps) == ApplyAll(p, os)
    decreases |os|
  {
    if os != [] {
      PositiveFields(Apply(p, os[0]), os[1..], ps[1..]);
    }
  }

  /** The parser sees no negation: a line and the line without its exclamation marks
      have the same fields. */
  lemma NegationIsNotSeen(r: Rule)
    requires RuleOk(r)
    ensures ParseLine(Print(r)) == ParseLine(Print(PositiveRule(r)))
  {
    var q := PositiveRule(r);
    forall i, j | 0 <= i < j < |q.options| ensures !SameKind(q.options[i], q.options[j]) {
      assert !SameKind(r.options[i], r.options[j]);
    }
    ParseOfPrint(r);
    ParseOfPrint(q);
    PositiveFields(Blank(r.chain), r.options, q.options);
  }

  // ----- matching -----

  /** A TCP connection attempt; the port is None when it is not a number. `covers`
      says whether an address lies in a network (false when either is malformed). */
  datatype Packet = Packet(src: string, dst: string, port: Option<int>)

  predicate SelectorCovers(covers: (string, string) -> bool, selector: string, address: string) {
    selector == "" || selector == "0.0.0.0/0" || selector == "anywhere" || covers(address, selector)
  }

  predicate Matches(covers: (string, string) -> bool, p: Parsed, k: Packet) {
    && k.port.Some?
    && (p.dport.Some? ==> p.dport.value == k.port.value)
    && (p.proto == "" || p.proto == "tcp" || p.proto == "all")
    && SelectorCovers(covers, p.src, k.src) && SelectorCovers(covers, p.dst, k.dst)
  }

  /** The scan of `_iptables_line_matches`, with its early exits. */
  method IptablesLineMatches(covers: (string, string) -> bool, p: Parsed, k: Packet) returns (r: bool)
    ensures r == Matches(covers, p, k)
    ensures r <==>
            && k.port.Some? && (p.dport.None? || Some(p.dport.value as int) == k.port) && p.proto in ["", "tcp", "all"]
            && (p.src in ["", "0.0.0.0/0", "anywhere"] || covers(k.src, p.src))
            && (p.dst in ["", "0.0.0.0/0", "anywhere"] || covers(k.dst, p.dst))
  {
    if k.port.None? {
      return false;
    }
    if p.dport.Some? && p.dport.value != k.port.value {
      return false;
    }
    if p.proto != "" && p.proto != "tcp" && p.proto != "all" {
      return false;
    }
    var selectors := [(p.src, k.src), (p.dst, k.dst)];
    for i := 0 to 2
      invariant forall j :: 0 <= j < i ==> SelectorCovers(covers, selectors[j].0, selectors[j].1)
    {
      var (cidr, address) := selectors[i];
      if cidr == "" || cidr == "0.0.0.0/0" || cidr == "anywhere" {
        continue;
      }
      if !covers(address, cidr) {
        return false;
      }
    }
    assert SelectorCovers(covers, selectors[0].0, selectors[0].1);
    assert SelectorCovers(covers, selectors[1].0, selectors[1].1);
    return true;
  }

  /** In the chain asked about (any chain if none is named), matching, and final. */
  predicate Decisive(covers: (string, string) -> bool, p: Option<Parsed>, chain: string, k: Packet) {
    && p.Some?
    && (chain == "" || Upper(p.value.chain) == chain)
    && Matches(covers, p.value, k)
    && p.value.target in ["ACCEPT", "DROP", "REJECT"]
  }

  /** The first line that decides the packet's fate. */
  predicate DecidedBy(covers: (string, string) -> bool, lines: seq<string>, chain: string, k: Packet, i: nat) {
    && i < |lines| && Decisive(covers, ParseLine(lines[i]), chain, k)
    && forall j :: 0 <= j < i ==> !Decisive(covers, ParseLine(lines[j]), chain, k)
  }

  predicate Drops(p: Option<Parsed>) {
    p.Some? && (p.value.target == "DROP" || p.value.target == "REJECT")
  }

  /** The allow rule under test: where it was installed and in which chain. `id` tells
      apart rules that differ only in what they open. */
  datatype Allow = Allow(id: nat, node: string, chain: string)

  function LinesOf(allow: Option<Allow>, nodeRules: map<string, seq<string>>): seq<string> {
    if allow.Some? && allow.value.node in nodeRules then nodeRules[allow.value.node] else []
  }

  /** What the scan of a node's lines reports. */
  function ShadowFrom(covers: (string, string) -> bool, lines: seq<string>, chain: string, k: Packet): Option<string> {
    if lines == [] then None
    else if Decisive(covers, ParseLine(lines[0]), chain, k) then
      if Drops(ParseLine(lines[0])) then Some(lines[0]) else None
    else ShadowFrom(covers, lines[1..], chain, k)
  }

  function Shadow(covers: (string, string) -> bool, allow: Option<Allow>, k: Packet,
                  nodeRules: map<string, seq<string>>): Option<string>
  {
    if allow.None? then None
    else ShadowFrom(covers, LinesOf(allow, nodeRules), Upper(allow.value.chain), k)
  }

  /** The early-return scan of `_shadowing_rule`. */
  method ShadowingRule(covers: (string, string) -> bool, allow: Option<Allow>, k: Packet,
                       nodeRules: map<string, seq<string>>) returns (r: Option<string>)
    ensures r == Shadow(covers, allow, k, nodeRules)
  {
    if allow.None? {
      return None;
    }
    var chain := Upper(allow.value.chain);
    var lines := LinesOf(allow, nodeRules);
    for i := 0 to |lines|
      invariant Shadow(covers, allow, k, nodeRules) == ShadowFrom(covers, lines[i..], chain, k)
    {
      var line := lines[i];
      assert lines[i..][1..] == lines[i + 1..];
      var parsed := ParseIptablesLine(line);
      if parsed.None? || (chain != "" && Upper(parsed.value.chain) != chain) {
        continue;
      }
      var matches := IptablesLineMatches(covers, parsed.value, k);
      if !matches {
        continue;
      }
      var target := parsed.value.target;
      if target == "ACCEPT" {
        return None;
      }
      if target == "DROP" || target == "REJECT" {
        return Some(line);
      }
    }
    return None;
  }

  /** A line is reported exactly when the first line that decides the packet drops it. */
  lemma {:induction false} ShadowIsFirstDecision(covers: (string, string) -> bool, lines: seq<string>, chain: string, k: Packet)
    ensures var r := ShadowFrom(covers, lines, chain, k);
            && (r.Some? <==> exists i: nat :: DecidedBy(covers, lines, chain, k, i) && Drops(ParseLine(lines[i])))
            && forall i: nat :: DecidedBy(covers, lines, chain, k, i) && Drops(ParseLine(lines[i])) ==> r == Some(lines[i])
  {
    if lines != [] {
      var tail := lines[1..];
      if Decisive(covers, ParseLine(lines[0]), chain, k) {
        assert DecidedBy(covers, lines, chain, k, 0);
      } else {
        ShadowIsFirstDecision(covers, tail, chain, k);
        if ShadowFrom(covers, tail, chain, k).Some? {
          var i: nat :| DecidedBy(covers, tail, chain, k, i) && Drops(ParseLine(tail[i]));
          assert DecidedBy(covers, lines, chain, k, i + 1) && lines[i + 1] == tail[i];
        }
      }
    }
  }

  /** Later lines never change a decided verdict, nor create one out of earlier lines. */
  lemma {:induction false} AppendingKeepsVerdict(covers: (string, string) -> bool, lines: seq<string>, more: seq<string>,
                                                chain: string, k: Packet, i: nat)
    requires DecidedBy(covers, lines, chain, k, i)
    ensures ShadowFrom(covers, lines + more, chain, k) == ShadowFrom(covers, lines, chain, k)
  {
    assert (lines + more)[1..] == lines[1..] + more;
    if !Decisive(covers, ParseLine(lines[0]), chain, k) {
      assert DecidedBy(covers, lines[1..], chain, k, i - 1);
      AppendingKeepsVerdict(covers, lines[1..], more, chain, k, i - 1);
    }
  }
}
