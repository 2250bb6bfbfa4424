/** The dashboard's log (`DashboardLogTee` and `_append_dashboard_log_line` in
    add-ons/exec-sim/dashboard.py).

    Text written in arbitrary chunks becomes lines of a bounded log. */
module DashboardLog {
  import opened Text

  const MAX_LOG_LINES: nat := 2000

  function Init(parts: seq<string>): seq<string>
    requires parts != []
  {
    parts[..|parts| - 1]
  }

  function Last(parts: seq<string>): string
    requires parts != []
  {
    parts[|parts| - 1]
  }

  /** The complete lines of a text. */
  function Lines(text: string): seq<string> {
    Init(SplitOn(text, '\n'))
  }

  /** What follows its last newline. */
  function Rest(text: string): string {
    Last(SplitOn(text, '\n'))
  }

  /** The last `n` entries of a list, or all of it. */
  function LastOf(n: nat, s: seq<string>): seq<string> {
    if |s| <= n then s else s[|s| - n..]
  }

  /** What is left out comes first, and nothing is left out of a short list. */
  lemma LastOfIsEnd(n: nat, s: seq<string>)
    ensures var r := LastOf(n, s);
            |r| == (if |s| < n then |s| else n) && exists dropped :: s == dropped + r
  {
    var r := LastOf(n, s);
    assert s == s[..|s| - |r|] + r;
  }

  /** Lines and leftover, printed one after another, are the text. */
  lemma LinesAndRestAreText(text: string)
    ensures Join(Lines(text) + [Rest(text)], "\n") == text
    ensures '\n' !in Rest(text) && forall l :: l in Lines(text) ==> '\n' !in l
  {
    var parts := SplitOn(text, '\n');
    assert Lines(text) + [Rest(text)] == parts;
    JoinInvertsSplit(text, '\n');
    SplitPartsLackSeparator(text, '\n');
    assert parts[|parts| - 1] in parts && forall l :: l in Lines(text) ==> l in parts;
  }

  lemma GlueLast(x: seq<string>, y: seq<string>)
    requires x != [] && y != []
    ensures Init(Glue(x, y)) == Init(x) + Init(Glue([Last(x)], y))
    ensures Last(Glue(x, y)) == Last(Glue([Last(x)], y))
  {
    var g := Glue([Last(x)], y);
    assert [Last(x)][..0] == [];
    assert g == [Last(x) + y[0]] + y[1..];
    assert Glue(x, y) == Init(x) + g;
  }

  /** A chunk continues where the leftover of the previous ones stopped. */
  lemma LinesOfAppend(a: string, b: string)
    ensures Lines(a + b) == Lines(a) + Lines(Rest(a) + b)
    ensures Rest(a + b) == Rest(Rest(a) + b)
  {
    SplitAppend(a, b, '\n');
    SplitAppend(Rest(a), b, '\n');
    RestIsAlone(a);
    GlueLast(SplitOn(a, '\n'), SplitOn(b, '\n'));
  }

  lemma RestIsAlone(a: string)
    ensures SplitOn(Rest(a), '\n') == [Rest(a)]
  {
    SplitPartsLackSeparator(a, '\n');
    assert Rest(a) in SplitOn(a, '\n');
    SplitAbsent(Rest(a), '\n');
  }

  lemma FirstLine(line: string, more: string)
    requires '\n' !in line
    ensures Lines(line + "\n" + more) == [line] + Lines(more) && Rest(line + "\n" + more) == Rest(more)
  {
    SplitAtSeparator(line, more, '\n');
    SplitAbsent(line, '\n');
  }

  lemma NoLineYet(text: string)
    requires '\n' !in text
    ensures Lines(text) == [] && Rest(text) == text
  {
    SplitAbsent(text, '\n');
  }

  /** Trimming after every line keeps the same lines as trimming once. */
  lemma LastOfLastOf(n: nat, a: seq<string>, b: seq<string>)
    ensures LastOf(n, LastOf(n, a) + b) == LastOf(n, a + b)
  {
  }

  /** `text.split("\n", 1)`. */
  method SplitOnce(text: string) returns (line: string, more: string)
    requires '\n' in text
    ensures text == line + "\n" + more && '\n' !in line
  {
    var k := 0;
    while text[k] != '\n'
      invariant k < |text| && '\n' !in text[..k] && '\n' in text[k..]
      decreases |text| - k
    {
      assert text[..k + 1] == text[..k] + [text[k]];
      assert text[k..] == [text[k]] + text[k + 1..];
      k := k + 1;
    }
    line, more := text[..k], text[k + 1..];
  }

  /** The bounded log and the text still waiting for its newline. */
  datatype Feed = Feed(log: seq<string>, buffer: string)

  function AfterWrite(f: Feed, text: string): Feed {
    Feed(LastOf(MAX_LOG_LINES, f.log + Lines(f.buffer + text)), Rest(f.buffer + text))
  }

  function AfterWrites(f: Feed, chunks: seq<string>): Feed {
    if chunks == [] then f
    else AfterWrite(AfterWrites(f, chunks[..|chunks| - 1]), chunks[|chunks| - 1])
  }

  function Concat(chunks: seq<string>): string {
    if chunks == [] then "" else Concat(chunks[..|chunks| - 1]) + chunks[|chunks| - 1]
  }

  /** However a text is divided among writes, the log is the last 2000 of the lines
      there were and its complete lines, and the buffer is what follows them. */
  lemma {:induction false} ChunkingDoesNotMatter(log: seq<string>, chunks: seq<string>)
    requires |log| <= MAX_LOG_LINES
    ensures AfterWrites(Feed(log, ""), chunks)
         == Feed(LastOf(MAX_LOG_LINES, log + Lines(Concat(chunks))), Rest(Concat(chunks)))
  {
    if chunks == [] {
      NoLineYet("");
      assert log + [] == log;
    } else {
      var init, last := chunks[..|chunks| - 1], chunks[|chunks| - 1];
      ChunkingDoesNotMatter(log, init);
      var text := Concat(init);
      LinesOfAppend(text, last);
      LastOfLastOf(MAX_LOG_LINES, log + Lines(text), Lines(Rest(text) + last));
      assert log + Lines(text) + Lines(Rest(text) + last) == log + (Lines(text) + Lines(Rest(text) + last));
    }
  }

  class DashboardLogTee {
    var buffer: string
    /** The `log` list of the dashboard's state file. */
    var log: seq<string>
    /** What reached the original stream. */
    var passedOn: string

    constructor ()
      ensures State() == Feed([], "") && passedOn == ""
    {
      buffer, log, passedOn := "", [], "";
    }

    function State(): Feed
      reads this
    {
      Feed(log, buffer)
    }

    method AppendLine(line: string)
      modifies this`log
      ensures log == LastOf(MAX_LOG_LINES, old(log) + [line])
      ensures |log| == (if |old(log)| < 2000 then |old(log)| + 1 else 2000) && log[|log| - 1] == line
    {
      log := log + [line];
      if |log| > MAX_LOG_LINES {
        log := log[|log| - MAX_LOG_LINES..];
      }
    }

    /** Every complete line goes to the log, the rest waits for more text. */
    method Write(text: string) returns (written: nat)
      requires |log| <= MAX_LOG_LINES
      modifies this
      ensures written == |text| && passedOn == old(passedOn) + text
      ensures State() == AfterWrite(old(State()), text) && |log| <= MAX_LOG_LINES
    {
      passedOn := passedOn + text;
      buffer := buffer + text;
      while '\n' in buffer
        invariant |log| <= MAX_LOG_LINES && passedOn == old(passedOn) + text
        invariant Drained(log, buffer) == AfterWrite(old(State()), text)
        decreases |buffer|
      {
        var line, more := SplitOnce(buffer);
        DrainOne(log, line, more);
        buffer := more;
        AppendLine(line);
      }
      DrainedAlready(log, buffer);
      written := |text|;
    }
  }

  /** Where the loop of `write` ends up from a log and a buffer. */
  function Drained(log: seq<string>, buffer: string): Feed {
    Feed(LastOf(MAX_LOG_LINES, log + Lines(buffer)), Rest(buffer))
  }

  lemma DrainOne(log: seq<string>, line: string, more: string)
    requires '\n' !in line
    ensures Drained(log, line + "\n" + more) == Drained(LastOf(MAX_LOG_LINES, log + [line]), more)
  {
    FirstLine(line, more);
    LastOfLastOf(MAX_LOG_LINES, log + [line], Lines(more));
    assert log + ([line] + Lines(more)) == log + [line] + Lines(more);
  }

  lemma DrainedAlready(log: seq<string>, buffer: string)
    requires |log| <= MAX_LOG_LINES && '\n' !in buffer
    ensures Drained(log, buffer) == Feed(log, buffer)
  {
    NoLineYet(buffer);
    assert log + [] == log;
  }
}
