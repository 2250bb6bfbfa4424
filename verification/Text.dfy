/** The string operations the modelled code relies on, with the algebra the proofs need:
    - `text.split(sep)`, `sep.join(parts)` and what they undo of each other;
    - `text.strip()`;
    - the comma-separated pieces of a text;
    - `line.split()`, decimal numbers, upper and lower case.
    All on ASCII: blanks, digits and letters beyond it are plain characters. */
module Text {
  import opened Optional

  /** Python's `str.isspace` on the ASCII range. */
  predicate IsSpace(c: char) {
    c == ' ' || '\t' <= c <= '\r' || (28 as char) <= c <= (31 as char)
  }

  function LStrip(s: string): string {
    if s != "" && IsSpace(s[0]) then LStrip(s[1..]) else s
  }

  function RStrip(s: string): string {
    if s != "" && IsSpace(s[|s| - 1]) then RStrip(s[..|s| - 1]) else s
  }

  function Strip(s: string): string {
    RStrip(LStrip(s))
  }

  /** Neither end is blank. */
  predicate Trimmed(s: string) {
    s != "" ==> !IsSpace(s[0]) && !IsSpace(s[|s| - 1])
  }

  /** `s.split(sep)`: always at least one part. */
  function SplitOn(s: string, sep: char): (parts: seq<string>)
    ensures |parts| >= 1
  {
    if s == "" then [""]
    else
      var rest := SplitOn(s[1..], sep);
      if s[0] == sep then [""] + rest else [[s[0]] + rest[0]] + rest[1..]
  }

  /** `sep.join(parts)`. */
  function Join(parts: seq<string>, sep: string): string {
    if |parts| == 0 then ""
    else if |parts| == 1 then parts[0]
    else parts[0] + sep + Join(parts[1..], sep)
  }

  /** Two splits joined end to end: the last part of `x` runs on into the first of `y`. */
  function Glue(x: seq<string>, y: seq<string>): (r: seq<string>)
    requires x != [] && y != []
    ensures |r| == |x| + |y| - 1
  {
    x[..|x| - 1] + [x[|x| - 1] + y[0]] + y[1..]
  }

  lemma GlueCons(h: string, x: seq<string>, y: seq<string>)
    requires x != [] && y != []
    ensures Glue([h] + x, y) == [h] + Glue(x, y)
  {
    assert ([h] + x)[..|[h] + x| - 1] == [h] + x[..|x| - 1];
  }

  lemma GlueExtend(c: char, x: seq<string>, y: seq<string>)
    requires x != [] && y != []
    ensures Glue([[c] + x[0]] + x[1..], y) == [[c] + Glue(x, y)[0]] + Glue(x, y)[1..]
  {
    var x' := [[c] + x[0]] + x[1..];
    if |x| == 1 {
      assert x' == [[c] + x[0]];
      assert ([c] + x[0]) + y[0] == [c] + (x[0] + y[0]);
      assert Glue(x, y) == [x[0] + y[0]] + y[1..];
      assert Glue(x', y) == [([c] + x[0]) + y[0]] + y[1..];
    } else {
      GlueCons(x[0], x[1..], y);
      assert [x[0]] + x[1..] == x;
      GlueCons([c] + x[0], x[1..], y);
    }
  }

  lemma {:induction false} SplitAppend(a: string, b: string, sep: char)
    ensures SplitOn(a + b, sep) == Glue(SplitOn(a, sep), SplitOn(b, sep))
  {
    var y := SplitOn(b, sep);
    if a == "" {
      assert a + b == b;
      assert "" + y[0] == y[0];
    } else {
      SplitAppend(a[1..], b, sep);
      assert (a + b)[1..] == a[1..] + b;
      var r := SplitOn(a[1..], sep);
      if a[0] == sep {
        GlueCons("", r, y);
      } else {
        GlueExtend(a[0], r, y);
      }
    }
  }

  lemma SplitAtSeparator(a: string, b: string, sep: char)
    ensures SplitOn(a + [sep] + b, sep) == SplitOn(a, sep) + SplitOn(b, sep)
  {
    var x := SplitOn(a, sep);
    SplitAppend(a, [sep] + b, sep);
    assert a + [sep] + b == a + ([sep] + b);
    assert ([sep] + b)[1..] == b;
    assert x[|x| - 1] + "" == x[|x| - 1];
    assert x[..|x| - 1] + [x[|x| - 1]] == x;
  }

  lemma {:induction false} SplitAbsent(s: string, sep: char)
    requires sep !in s
    ensures SplitOn(s, sep) == [s]
  {
    if s != "" {
      SplitAbsent(s[1..], sep);
      assert [s[0]] + s[1..] == s;
    }
  }

  lemma {:induction false} SplitPartsLackSeparator(s: string, sep: char)
    ensures forall p :: p in SplitOn(s, sep) ==> sep !in p
  {
    if s != "" {
      SplitPartsLackSeparator(s[1..], sep);
      var rest := SplitOn(s[1..], sep);
      assert sep !in rest[0];
    }
  }

  lemma {:induction false} JoinInvertsSplit(s: string, sep: char)
    ensures Join(SplitOn(s, sep), [sep]) == s
  {
    if s != "" {
      JoinInvertsSplit(s[1..], sep);
      var rest := SplitOn(s[1..], sep);
      if s[0] == sep {
        assert Join([""] + rest, [sep]) == "" + [sep] + Join(rest, [sep]);
      } else {
        assert ([[s[0]] + rest[0]] + rest[1..])[1..] == rest[1..];
      }
    }
  }

  // ----- stripping -----

  lemma {:induction false} LStripFixesNonBlankStart(s: string)
    ensures |LStrip(s)| <= |s|
    ensures LStrip(s) != "" ==> !IsSpace(LStrip(s)[0]) && s[|s| - 1] == LStrip(s)[|LStrip(s)| - 1]
    ensures forall c :: c in LStrip(s) ==> c in s
  {
    if s != "" && IsSpace(s[0]) {
      LStripFixesNonBlankStart(s[1..]);
    }
  }

  lemma {:induction false} RStripFixesNonBlankEnd(s: string)
    ensures RStrip(s) <= s
    ensures RStrip(s) != "" ==> !IsSpace(RStrip(s)[|RStrip(s)| - 1])
  {
    if s != "" && IsSpace(s[|s| - 1]) {
      RStripFixesNonBlankEnd(s[..|s| - 1]);
    }
  }

  lemma StripIsTrimmed(s: string)
    ensures Trimmed(Strip(s))
    ensures forall c :: c in Strip(s) ==> c in s
  {
    LStripFixesNonBlankStart(s);
    RStripFixesNonBlankEnd(LStrip(s));
  }

  lemma StripKeepsTrimmed(s: string)
    requires Trimmed(s)
    ensures Strip(s) == s
  {
  }

  lemma StripDropsLeadingBlank(c: char, s: string)
    requires IsSpace(c)
    ensures Strip([c] + s) == Strip(s)
  {
    assert ([c] + s)[1..] == s;
  }

  lemma {:induction false} LStripBeforeTrailingBlank(s: string, c: char)
    requires IsSpace(c)
    ensures LStrip(s + [c]) == if LStrip(s) == "" then "" else LStrip(s) + [c]
  {
    if s == "" {
      assert s + [c] == [c];
    } else if IsSpace(s[0]) {
      assert (s + [c])[1..] == s[1..] + [c];
      LStripBeforeTrailingBlank(s[1..], c);
    }
  }

  lemma StripDropsTrailingBlank(s: string, c: char)
    requires IsSpace(c)
    ensures Strip(s + [c]) == Strip(s)
  {
    LStripBeforeTrailingBlank(s, c);
    var l := LStrip(s);
    if l != "" {
      assert (l + [c])[..|l + [c]| - 1] == l;
    }
  }

  predicate AllSpace(s: string) {
    forall i :: 0 <= i < |s| ==> IsSpace(s[i])
  }

  lemma {:induction false} LStripDropsBlanks(s: string) returns (before: string)
    ensures s == before + LStrip(s) && AllSpace(before)
  {
    if s != "" && IsSpace(s[0]) {
      before := LStripDropsBlanks(s[1..]);
      before := [s[0]] + before;
    } else {
      before := "";
    }
  }

  lemma {:induction false} RStripDropsBlanks(s: string) returns (after: string)
    ensures s == RStrip(s) + after && AllSpace(after)
  {
    if s != "" && IsSpace(s[|s| - 1]) {
      after := RStripDropsBlanks(s[..|s| - 1]);
      after := after + [s[|s| - 1]];
    } else {
      after := "";
    }
  }

  /** Stripping takes blanks from both ends, and nothing else. */
  lemma StripIsMiddle(s: string) returns (before: string, after: string)
    ensures s == before + Strip(s) + after && AllSpace(before) && AllSpace(after) && Trimmed(Strip(s))
  {
    before := LStripDropsBlanks(s);
    after := RStripDropsBlanks(LStrip(s));
    StripIsTrimmed(s);
  }

  lemma StripEmptyIff(s: string)
    ensures Strip(s) == "" <==> AllSpace(s)
  {
    var before, after := StripIsMiddle(s);
    if Strip(s) != "" {
      assert s[|before|] == Strip(s)[0];
    }
  }

  // ----- the comma-separated pieces of a text -----

  /** The stripped, non-empty entries of a list of texts. */
  function NonBlank(parts: seq<string>): (r: seq<string>)
  {
    if parts == [] then []
    else (if Strip(parts[0]) == "" then [] else [Strip(parts[0])]) + NonBlank(parts[1..])
  }

  /** What a YAML flow list makes of an unquoted text: split at commas, trim,
      drop what is left empty. */
  function Pieces(s: string): seq<string> {
    NonBlank(SplitOn(s, ','))
  }

  /** A text that survives as exactly one piece. */
  predicate IsPiece(s: string) {
    s != "" && Trimmed(s) && ',' !in s
  }

  lemma {:induction false} NonBlankAppend(a: seq<string>, b: seq<string>)
    ensures NonBlank(a + b) == NonBlank(a) + NonBlank(b)
  {
    if a == [] {
      assert a + b == b;
    } else {
      assert (a + b)[1..] == a[1..] + b;
      NonBlankAppend(a[1..], b);
    }
  }

  lemma {:induction false} NonBlankEntries(parts: seq<string>)
    requires forall p :: p in parts ==> ',' !in p
    ensures forall p :: p in NonBlank(parts) ==> IsPiece(p)
  {
    if parts != [] {
      StripIsTrimmed(parts[0]);
      NonBlankEntries(parts[1..]);
    }
  }

  lemma PiecesArePieces(s: string)
    ensures forall p :: p in Pieces(s) ==> IsPiece(p)
  {
    SplitPartsLackSeparator(s, ',');
    NonBlankEntries(SplitOn(s, ','));
  }

  lemma PiecesAtComma(a: string, b: string)
    ensures Pieces(a + "," + b) == Pieces(a) + Pieces(b)
  {
    SplitAtSeparator(a, b, ',');
    NonBlankAppend(SplitOn(a, ','), SplitOn(b, ','));
  }

  lemma PiecesDropLeadingBlank(c: char, s: string)
    requires IsSpace(c)
    ensures Pieces([c] + s) == Pieces(s)
  {
    var r := SplitOn(s, ',');
    assert ([c] + s)[1..] == s;
    StripDropsLeadingBlank(c, r[0]);
    assert SplitOn([c] + s, ',')[1..] == r[1..];
  }

  lemma PiecesDropTrailingBlank(s: string, c: char)
    requires IsSpace(c)
    ensures Pieces(s + [c]) == Pieces(s)
  {
    var r := SplitOn(s, ',');
    var init, last := r[..|r| - 1], r[|r| - 1];
    SplitAppend(s, [c], ',');
    assert SplitOn([c], ',') == [[c]] by { assert [c][1..] == ""; assert [c] + "" == [c]; }
    assert SplitOn(s + [c], ',') == init + [last + [c]];
    assert r == init + [last];
    StripDropsTrailingBlank(last, c);
    NonBlankAppend(init, [last + [c]]);
    NonBlankAppend(init, [last]);
    assert NonBlank([last + [c]]) == NonBlank([last]);
  }

  lemma {:induction false} PiecesOfLStrip(s: string)
    ensures Pieces(LStrip(s)) == Pieces(s)
  {
    if s != "" && IsSpace(s[0]) {
      PiecesOfLStrip(s[1..]);
      PiecesDropLeadingBlank(s[0], s[1..]);
      assert [s[0]] + s[1..] == s;
    }
  }

  lemma {:induction false} PiecesOfRStrip(s: string)
    ensures Pieces(RStrip(s)) == Pieces(s)
  {
    if s != "" && IsSpace(s[|s| - 1]) {
      PiecesOfRStrip(s[..|s| - 1]);
      PiecesDropTrailingBlank(s[..|s| - 1], s[|s| - 1]);
      assert s[..|s| - 1] + [s[|s| - 1]] == s;
    }
  }

  lemma PiecesOfStrip(s: string)
    ensures Pieces(Strip(s)) == Pieces(s)
  {
    PiecesOfLStrip(s);
    PiecesOfRStrip(LStrip(s));
  }

  lemma PiecesOfPiece(s: string)
    requires IsPiece(s)
    ensures Pieces(s) == [s]
  {
    SplitAbsent(s, ',');
    StripKeepsTrimmed(s);
    assert NonBlank([s]) == [s] + NonBlank([]);
  }

  /** Splitting a joined list recovers the pieces of every entry, in order. */
  lemma {:induction false} PiecesOfJoin(parts: seq<string>)
    ensures Pieces(Join(parts, ", ")) == AllPieces(parts)
  {
    if parts == [] {
      assert SplitOn("", ',') == [""];
      assert NonBlank([""]) == [] + NonBlank([]);
    } else if |parts| == 1 {
      assert AllPieces(parts[1..]) == [];
    } else {
      PiecesOfJoin(parts[1..]);
      var tail := Join(parts[1..], ", ");
      assert parts[0] + ", " + tail == parts[0] + "," + ([' '] + tail);
      PiecesAtComma(parts[0], [' '] + tail);
      PiecesDropLeadingBlank(' ', tail);
    }
  }

  function AllPieces(parts: seq<string>): seq<string> {
    if parts == [] then [] else Pieces(parts[0]) + AllPieces(parts[1..])
  }

  lemma {:induction false} PiecesOfJoinedPieces(parts: seq<string>)
    requires forall p :: p in parts ==> IsPiece(p)
    ensures AllPieces(parts) == parts
  {
    if parts != [] {
      PiecesOfPiece(parts[0]);
      PiecesOfJoinedPieces(parts[1..]);
      assert [parts[0]] + parts[1..] == parts;
    }
  }

  /** A join of pieces is itself trimmed and non-empty. */
  lemma {:induction false} JoinOfPiecesIsTrimmed(parts: seq<string>)
    requires parts != []
    requires forall p :: p in parts ==> p != "" && Trimmed(p)
    ensures var j := Join(parts, ", "); j != "" && Trimmed(j)
  {
    assert parts[0] in parts;
    if |parts| > 1 {
      assert forall p :: p in parts[1..] ==> p in parts;
      JoinOfPiecesIsTrimmed(parts[1..]);
    }
  }

  // ----- words and numbers -----

  /** The leading run of non-blank characters. */
  function Word(s: string): (w: string)
    ensures w <= s && (forall c :: c in w ==> !IsSpace(c))
    ensures s != "" && !IsSpace(s[0]) ==> w != ""
  {
    if s == "" || IsSpace(s[0]) then "" else [s[0]] + Word(s[1..])
  }

  /** `line.split()`. */
  function Words(s: string): seq<string>
    decreases |s|
  {
    if s == "" then []
    else if IsSpace(s[0]) then Words(s[1..])
    else [Word(s)] + Words(s[|Word(s)|..])
  }

  predicate IsToken(t: string) {
    t != "" && forall c :: c in t ==> !IsSpace(c)
  }

  predicate AllTokens(ts: seq<string>) {
    forall t :: t in ts ==> IsToken(t)
  }

  lemma {:induction false} WordOfPrefix(t: string, rest: string)
    requires IsToken(t) && (rest == "" || IsSpace(rest[0]))
    ensures Word(t + rest) == t
  {
    assert (t + rest)[1..] == t[1..] + rest;
    assert t[0] in t;
    if |t| > 1 {
      assert forall c :: c in t[1..] ==> c in t;
      WordOfPrefix(t[1..], rest);
    }
    assert t == [t[0]] + t[1..];
  }

  lemma FirstWordOf(t: string, rest: string)
    requires IsToken(t)
    ensures Words(t + " " + rest) == [t] + Words(rest)
    ensures Words(t) == [t]
  {
    var tail := " " + rest;
    assert t[0] in t;
    WordOfPrefix(t, tail);
    assert t + " " + rest == t + tail;
    assert (t + tail)[|t|..] == tail && tail[1..] == rest;
    WordOfPrefix(t, "");
    assert t + "" == t && t[|t|..] == "";
  }

  /** Splitting a line of tokens joined by single blanks recovers the tokens. */
  lemma {:induction false} WordsOfJoin(ts: seq<string>)
    requires AllTokens(ts)
    ensures Words(Join(ts, " ")) == ts
  {
    if ts != [] {
      assert ts[0] in ts && forall x :: x in ts[1..] ==> x in ts;
      FirstWordOf(ts[0], Join(ts[1..], " "));
      if |ts| == 1 {
        assert ts == [ts[0]];
      } else {
        WordsOfJoin(ts[1..]);
        assert ts == [ts[0]] + ts[1..];
      }
    }
  }

  lemma {:induction false} WordBeforeBlank(a: string, c: char, b: string)
    requires IsSpace(c)
    ensures Word(a + [c] + b) == Word(a)
  {
    if a != "" && !IsSpace(a[0]) {
      assert (a + [c] + b)[1..] == a[1..] + [c] + b;
      WordBeforeBlank(a[1..], c, b);
    }
  }

  /** Any blank separates words. */
  lemma {:induction false} WordsAtBlank(a: string, c: char, b: string)
    requires IsSpace(c)
    ensures Words(a + [c] + b) == Words(a) + Words(b)
    decreases |a|
  {
    var all := a + [c] + b;
    if a == "" {
      assert all[1..] == b;
    } else {
      var n := if IsSpace(a[0]) then 1 else |Word(a)|;
      assert all[n..] == a[n..] + [c] + b;
      WordsAtBlank(a[n..], c, b);
      WordBeforeBlank(a, c, b);
    }
  }

  predicate IsDigit(c: char) {
    '0' <= c <= '9'
  }

  function DigitValue(c: char): nat
    requires IsDigit(c)
  {
    (c as int) - ('0' as int)
  }

  /** `int(text)` on plain decimal text. */
  function ParseInt(s: string): Option<nat> {
    if s == "" || !IsDigit(s[|s| - 1]) then None
    else if |s| == 1 then Some(DigitValue(s[0]))
    else
      match ParseInt(s[..|s| - 1])
      case None => None
      case Some(n) => Some(10 * n + DigitValue(s[|s| - 1]))
  }

  function Digit(d: nat): (c: char)
    requires d < 10
    ensures IsDigit(c) && DigitValue(c) == d
  {
    (('0' as int) + d) as char
  }

  function Decimal(n: nat): (s: string)
    ensures s != "" && forall c :: c in s ==> IsDigit(c)
  {
    if n < 10 then [Digit(n)] else Decimal(n / 10) + [Digit(n % 10)]
  }

  /** Reading what is printed. */
  lemma {:induction false} ParseIntOfDecimal(n: nat)
    ensures ParseInt(Decimal(n)) == Some(n)
  {
    if n >= 10 {
      ParseIntOfDecimal(n / 10);
      var s := Decimal(n);
      assert s[..|s| - 1] == Decimal(n / 10);
    }
  }

  function LowerChar(c: char): char {
    if 'A' <= c <= 'Z' then ((c as int) + 32) as char else c
  }

  function UpperChar(c: char): char {
    if 'a' <= c <= 'z' then ((c as int) - 32) as char else c
  }

  function Lower(s: string): string {
    seq(|s|, i requires 0 <= i < |s| => LowerChar(s[i]))
  }

  function Upper(s: string): string {
    seq(|s|, i requires 0 <= i < |s| => UpperChar(s[i]))
  }

  // ----- the character classes, spelled out -----

  const CAPITALS := "ABCDEFGHIJKLMNOPQRSTUVWXYZ"
  const SMALL := "abcdefghijklmnopqrstuvwxyz"
  const DIGITS := "0123456789"

  /** Each letter changes to its partner, and nothing else changes. */
  lemma CaseOfLetters(c: char)
    ensures forall i :: 0 <= i < 26 ==> LowerChar(CAPITALS[i]) == SMALL[i] && UpperChar(SMALL[i]) == CAPITALS[i]
    ensures LowerChar(c) != c ==> CAPITALS[0] <= c <= CAPITALS[25]
    ensures UpperChar(c) != c ==> SMALL[0] <= c <= SMALL[25]
  {
  }

  /** The digits and their values. */
  lemma DigitsAre(c: char)
    ensures IsDigit(c) <==> c in DIGITS
    ensures IsDigit(c) ==> DIGITS[DigitValue(c)] == c
  {
  }

  /** The blanks: space, tab, line feed, vertical tab, form feed, carriage return and the
      four separators. */
  lemma BlanksAre(c: char)
    ensures IsSpace(c) <==> (c as int) in [32, 9, 10, 11, 12, 13, 28, 29, 30, 31]
  {
  }
}
