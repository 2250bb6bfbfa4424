/** Synthetic payloads with recognisable framing, whatever bytes the source of randomness
    yields, and the weighted choice of a "random" content type
    (traffic_agent/payload.go). */
module Payload {
  type Byte = b: int | 0 <= b < 256

  datatype Content = Text | Photo | Audio | Video | Gibberish

  const HTTP_LINE: seq<Byte> :=
    [71, 69, 84, 32, 47, 105, 110, 100, 101, 120, 46, 104, 116, 109, 108, 32, 72, 84, 84, 80, 47, 49, 46, 49, 13, 10,
     72, 111, 115, 116, 58, 32, 101, 120, 97, 109, 112, 108, 101, 46, 99, 111, 109, 13, 10,
     85, 115, 101, 114, 45, 65, 103, 101, 110, 116, 58, 32, 99, 111, 114, 101, 45, 116, 114, 97, 102, 102, 105, 99,
     13, 10, 13, 10]

  const AUDIO_FRAME_SIZE: nat := 1024

  /** Where byte `i` lies within its segment when segments are `span` long. */
  function Offset(i: nat, span: nat): (r: nat)
    requires span > 0
    ensures r < span
    decreases i
  {
    if i < span then i else Offset(i - span, span)
  }

  lemma {:induction false} OffsetOfSum(base: nat, r: nat, span: nat)
    requires span > 0 && Offset(base, span) == 0
    ensures r < span ==> Offset(base + r, span) == r
    ensures Offset(base + span, span) == 0
    decreases base
  {
    if base >= span {
      OffsetOfSum(base - span, r, span);
    }
  }

  lemma OffsetsOfSegment(base: nat, span: nat)
    requires span > 0 && Offset(base, span) == 0
    ensures forall i :: base <= i < base + span ==> Offset(i, span) == i - base
    ensures Offset(base + span, span) == 0
  {
    OffsetOfSum(base, 0, span);
    forall i | base <= i < base + span ensures Offset(i, span) == i - base {
      OffsetOfSum(base, i - base, span);
    }
  }

  /** `seg` repeated and cut off at `n` bytes. */
  ghost predicate Repeats(out: seq<Byte>, seg: seq<Byte>, n: nat)
    requires seg != []
  {
    |out| == n && forall i :: 0 <= i < n ==> out[i] == seg[Offset(i, |seg|)]
  }

  /** The start code of a video segment. */
  function StartCode(r: nat): Byte {
    if r == 2 then 1 else 0
  }

  /** The length of the random part of a video segment. */
  function Chunk(n: nat): nat {
    var c := n / 4;
    if c < 256 then 256 else if c > 8192 then 8192 else c
  }

  /** A photo payload: a start marker, then FF and a drawn byte by turns up to
      `end`, and FF wherever the turns would put one. */
  ghost predicate PhotoFraming(out: seq<Byte>, end: int, stream: nat -> Byte, from: nat) {
    && (|out| >= 2 ==> out[0] == 0xff && out[1] == 0xd8)
    && (forall i :: 0 <= i < |out| && i % 2 == 0 ==> out[i] == 0xff)
    && (forall i :: 3 <= i < |out| && i < end && i % 2 == 1 ==> out[i] == stream(from + i / 2 - 1) % 255)
  }

  /** How many bytes were drawn for the first `i` bytes of a video payload. */
  function Drawn(i: nat, span: nat): nat
    requires span > 3
    decreases i
  {
    if i >= span then span - 3 + Drawn(i - span, span) else if i < 3 then 0 else i - 3
  }

  lemma {:induction false} DrawnOfSum(base: nat, r: nat, span: nat)
    requires span > 3 && Offset(base, span) == 0
    ensures Drawn(base + r, span) == Drawn(base, span) + Drawn(r, span)
    decreases base
  {
    if base >= span {
      DrawnOfSum(base - span, r, span);
    }
  }

  /** Byte `i` of a video payload: part of a start code, or drawn. */
  ghost predicate VideoByte(b: Byte, i: nat, span: nat, stream: nat -> Byte, from: nat)
    requires span > 3
  {
    b == if Offset(i, span) < 3 then StartCode(Offset(i, span)) else stream(from + Drawn(i, span))
  }

  ghost predicate VideoFraming(out: seq<Byte>, span: nat, stream: nat -> Byte, from: nat)
    requires span > 3
  {
    forall i :: 0 <= i < |out| ==> VideoByte(out[i], i, span, stream, from)
  }

  lemma SegmentByte(base: nat, r: nat, span: nat)
    requires span > 3 && Offset(base, span) == 0 && r < span
    ensures Offset(base + r, span) == r
    ensures r >= 3 ==> Drawn(base + r, span) == Drawn(base, span) + r - 3
  {
    OffsetOfSum(base, r, span);
    DrawnOfSum(base, r, span);
  }

  /** A start code and some drawn bytes continue a video payload. */
  lemma SegmentContinues(out: seq<Byte>, blob: seq<Byte>, span: nat, stream: nat -> Byte, from: nat)
    requires span > 3 && Offset(|out|, span) == 0 && VideoFraming(out, span, stream, from)
    requires |blob| <= span - 3
    requires forall i :: 0 <= i < |blob| ==> blob[i] == stream(from + Drawn(|out|, span) + i)
    ensures VideoFraming(out + [0x00, 0x00, 0x01] + blob, span, stream, from)
  {
    var all := out + [0x00, 0x00, 0x01] + blob;
    forall i | |out| <= i < |all| ensures VideoByte(all[i], i, span, stream, from) {
      SegmentByte(|out|, i - |out|, span);
    }
  }

  /** The builder and its source of randomness: an arbitrary stream of bytes and
      how much of it has been consumed. */
  class PayloadBuilder {
    const content: Content
    const stream: nat -> Byte
    var used: nat
    var audioFrame: seq<Byte>

    ghost predicate Valid()
      reads this
    {
      content == Audio ==> |audioFrame| == AUDIO_FRAME_SIZE
    }

    constructor (content: Content, stream: nat -> Byte)
      ensures Valid() && this.content == content && this.stream == stream
      ensures content == Audio ==>
                used == AUDIO_FRAME_SIZE && audioFrame == seq(AUDIO_FRAME_SIZE, i requires 0 <= i => stream(i))
      ensures content != Audio ==> used == 0 && audioFrame == []
    {
      this.content := content;
      this.stream := stream;
      used := 0;
      audioFrame := [];
      if content == Audio {
        audioFrame := seq(AUDIO_FRAME_SIZE, i requires 0 <= i => stream(i));
        used := AUDIO_FRAME_SIZE;
      }
    }

    /** `rng.Read` into a buffer of `n` bytes. */
    method Read(n: nat) returns (buf: seq<Byte>)
      modifies this`used
      ensures used == old(used) + n
      ensures |buf| == n && forall i :: 0 <= i < n ==> buf[i] == stream(old(used) + i)
    {
      var from := used;
      buf := seq(n, i requires 0 <= i => stream(from + i));
      used := used + n;
    }

    /** `rng.Intn(0xff)`: any byte but the last. */
    method DrawBelow255() returns (b: Byte)
      modifies this`used
      ensures used == old(used) + 1 && b == stream(old(used)) % 255
    {
      b := stream(used) % 255;
      used := used + 1;
    }

    /** Exactly n bytes (none for n <= 0), framed as the content type demands. */
    method Bytes(n: int) returns (out: seq<Byte>)
      requires Valid()
      modifies this`used
      ensures Valid()
      ensures |out| == if n <= 0 then 0 else n
      ensures n > 0 && content == Text ==> Repeats(out, HTTP_LINE, n)
      ensures n > 0 && content == Audio ==> Repeats(out, audioFrame, n)
      ensures content == Photo ==> PhotoFraming(out, n - 2 + n % 2, stream, old(used))
      ensures content == Photo && n >= 6 ==> (n % 2 == 0 <==> out[n - 2] == 0xff && out[n - 1] == 0xd9)
      ensures n > 0 && content == Video ==> VideoFraming(out, Chunk(n) + 3, stream, old(used))
      ensures content == Gibberish ==> forall i :: 0 <= i < |out| ==> out[i] == stream(old(used) + i)
    {
      if n <= 0 {
        return [];
      }
      match content
      case Text =>
        out := Fill(HTTP_LINE, n);
      case Photo =>
        out := PhotoBytes(n);
      case Audio =>
        out := Fill(audioFrame, n);
      case Video =>
        out := VideoBytes(n);
      case Gibberish =>
        out := Read(n);
    }

    /** The text and audio loops: append a whole segment until there is enough. */
    method Fill(seg: seq<Byte>, n: nat) returns (out: seq<Byte>)
      requires seg != []
      ensures Repeats(out, seg, n)
    {
      out := [];
      while |out| < n
        invariant Offset(|out|, |seg|) == 0
        invariant forall i :: 0 <= i < |out| ==> out[i] == seg[Offset(i, |seg|)]
        decreases n - |out|
      {
        ghost var base := |out|;
        out := out + seg;
        OffsetsOfSegment(base, |seg|);
      }
      out := out[..n];
    }

    method PhotoBytes(n: nat) returns (out: seq<Byte>)
      requires n > 0
      modifies this`used
      ensures |out| == n && PhotoFraming(out, n - 2 + n % 2, stream, old(used))
      ensures n >= 6 ==> (n % 2 == 0 <==> out[n - 2] == 0xff && out[n - 1] == 0xd9)
    {
      out := [0xff, 0xd8];
      var limit := n - 2;
      if limit < 4 {
        limit := 4;
      }
      while |out| < limit
        invariant |out| % 2 == 0 && 2 <= |out| <= limit + 1
        invariant PhotoFraming(out, |out|, stream, old(used)) && used == old(used) + |out| / 2 - 1
      {
        var b := DrawBelow255();
        out := out + [0xff, b];
      }
      out := out + [0xff, 0xd9];
      if |out| > n {
        out := out[..n];
      }
    }

    method VideoBytes(n: nat) returns (out: seq<Byte>)
      requires n > 0
      modifies this`used
      ensures |out| == n && VideoFraming(out, Chunk(n) + 3, stream, old(used))
      ensures used == old(used) + Drawn(n, Chunk(n) + 3)
    {
      var chunk := n / 4;
      if chunk < 256 {
        chunk := 256;
      }
      if chunk > 8192 {
        chunk := 8192;
      }
      ghost var span := Chunk(n) + 3;
      out := [];
      while |out| < n
        invariant |out| < n ==> Offset(|out|, span) == 0
        invariant used == old(used) + Drawn(if |out| < n then |out| else n, span)
        invariant VideoFraming(out, span, stream, old(used))
        decreases n - |out|
      {
        ghost var before := out;
        SegmentContinues(before, [], span, stream, old(used));
        out := out + [0x00, 0x00, 0x01];
        assert before + [0x00, 0x00, 0x01] + [] == out;
        var remaining := n - |out|;
        DrawnOfSum(|before|, (if |before| + span < n then |before| + span else n) - |before|, span);
        if remaining <= 0 {
          break;
        }
        var size := chunk;
        if size > remaining {
          size := remaining;
        }
        var blob := Read(size);
        SegmentContinues(before, blob, span, stream, old(used));
        out := out + blob;
      }
      out := out[..n];
    }
  }

  // ----- the weighted choice -----

  datatype Entry = Entry(name: Content, weight: nat)

  const RANDOM_CONTENTS: seq<Entry> :=
    [Entry(Text, 2), Entry(Photo, 1), Entry(Audio, 1), Entry(Video, 1), Entry(Gibberish, 2)]

  function Total(entries: seq<Entry>): nat {
    if entries == [] then 0 else Total(entries[..|entries| - 1]) + entries[|entries| - 1].weight
  }

  /** The loop of the "random" case, for any table: the entry chosen is the one
      whose band of the cumulative weights holds the pick. */
  method Choose(entries: seq<Entry>, pick: nat) returns (k: nat, name: Content)
    requires pick < Total(entries)
    ensures k < |entries| && name == entries[k].name
    ensures Total(entries[..k]) <= pick < Total(entries[..k]) + entries[k].weight
  {
    var left: int := pick;
    var i := 0;
    assert entries[..|entries|] == entries;
    while i < |entries|
      invariant 0 <= i <= |entries|
      invariant left == pick - Total(entries[..i]) && left >= 0
    {
      assert entries[..i + 1][..i] == entries[..i];
      left := left - entries[i].weight;
      if left < 0 {
        return i, entries[i].name;
      }
      i := i + 1;
    }
    assert false;
  }

  /** The "random" content type of one agent start. */
  method RandomContentType(pick: nat) returns (name: Content)
    requires pick < 7
    ensures name == [Text, Text, Photo, Audio, Video, Gibberish, Gibberish][pick]
  {
    RandomTotals();
    var k: nat;
    k, name := Choose(RANDOM_CONTENTS, pick);
  }

  lemma RandomTotals()
    ensures var t := RANDOM_CONTENTS;
            && Total(t) == 7 && Total(t[..0]) == 0 && Total(t[..1]) == 2 && Total(t[..2]) == 3
            && Total(t[..3]) == 4 && Total(t[..4]) == 5
  {
    var t := RANDOM_CONTENTS;
    assert t[..5] == t;
    BandEnds(t, 0);
    BandEnds(t, 1);
    BandEnds(t, 2);
    BandEnds(t, 3);
    BandEnds(t, 4);
  }

  /** Hence every entry is chosen by exactly `weight` of the equally likely picks. */
  lemma BandsPartitionPicks(entries: seq<Entry>, pick: nat, j: nat, k: nat)
    requires j < |entries| && k < |entries|
    requires Total(entries[..j]) <= pick < Total(entries[..j]) + entries[j].weight
    requires Total(entries[..k]) <= pick < Total(entries[..k]) + entries[k].weight
    ensures j == k
  {
    BandEnds(entries, j);
    BandEnds(entries, k);
    if j < k {
      TotalsGrow(entries, j + 1, k);
    } else if k < j {
      TotalsGrow(entries, k + 1, j);
    }
  }

  lemma BandEnds(entries: seq<Entry>, k: nat)
    requires k < |entries|
    ensures Total(entries[..k + 1]) == Total(entries[..k]) + entries[k].weight
  {
    assert entries[..k + 1][..k] == entries[..k];
  }

  lemma {:induction false} TotalsGrow(entries: seq<Entry>, j: nat, k: nat)
    requires j <= k <= |entries|
    ensures Total(entries[..j]) <= Total(entries[..k])
  {
    if j < k {
      TotalsGrow(entries, j, k - 1);
      assert entries[..k][..k - 1] == entries[..k - 1];
    }
  }
}
