/** The wire format (harness/framing.py): frames of a two-byte magic, a little-endian length
    and a payload, in a stream that may also carry stray bytes. */
module Framing {
  import opened Words
  import opened FramePool

  type Bytes = seq<Byte>

  const MAGIC0: Byte := 0xAA
  const MAGIC1: Byte := 0x99
  const HEADER: nat := 6
  const MAX_FRAME_LEN: nat := 1_048_576

  /** A 32-bit length, least significant byte first. */
  function LengthBytes(n: nat): (r: Bytes)
    requires n < 0x1_0000_0000
    ensures |r| == 4
  {
    [n % 256, n / 256 % 256, n / 65536 % 256, n / 16777216]
  }

  function LengthOf(b: Bytes): (n: nat)
    requires |b| == 4
    ensures n < 0x1_0000_0000
  {
    b[0] as int + b[1] as int * 256 + b[2] as int * 65536 + b[3] as int * 16777216
  }

  lemma LengthReadsBack(n: nat)
    requires n < 0x1_0000_0000
    ensures LengthOf(LengthBytes(n)) == n
  {
    var a, b, c := n / 256, n / 65536, n / 16777216;
    assert b == a / 256 && c == b / 256;
    assert n == n % 256 + 256 * a && a == a % 256 + 256 * b && b == b % 256 + 256 * c;
  }

  lemma LengthUnique(b: Bytes)
    requires |b| == 4
    ensures LengthBytes(LengthOf(b)) == b
  {
    var n := LengthOf(b);
    assert n % 256 == b[0] as int;
    assert n / 256 == b[1] as int + b[2] as int * 256 + b[3] as int * 65536;
    assert n / 65536 == b[2] as int + b[3] as int * 256;
  }

  /** The bytes of one frame. */
  function Wire(payload: Bytes): Bytes
    requires |payload| < 0x1_0000_0000
  {
    [MAGIC0, MAGIC1] + LengthBytes(|payload|) + payload
  }

  /** A frame byte by byte: the two magic bytes, the length in four bytes, least significant
      first, and the payload. */
  lemma WireIs(payload: Bytes)
    requires |payload| < 0x1_0000_0000
    ensures var w := Wire(payload);
      && |w| == 6 + |payload| && w[0] == 0xAA && w[1] == 0x99 && w[6..] == payload
      && w[2] as int + 0x100 * w[3] as int + 0x1_0000 * w[4] as int + 0x100_0000 * w[5] as int == |payload|
  {
    LengthReadsBack(|payload|);
    var l := LengthBytes(|payload|);
    hide LengthBytes;
    var w := Wire(payload);
    assert w[2] == l[0] && w[3] == l[1] && w[4] == l[2] && w[5] == l[3];
  }

  /** `encode_frame`: a payload over the bound is an error. */
  function EncodeFrame(payload: Bytes): (r: Option<Bytes>)
    ensures r.Some? <==> |payload| <= 1_048_576
    ensures r.Some? ==> |r.value| == HEADER + |payload| && IsFrame(r.value) && r.value[HEADER..] == payload
  {
    if |payload| > MAX_FRAME_LEN then None
    else
      LengthReadsBack(|payload|);
      assert Wire(payload)[2..6] == LengthBytes(|payload|);
      assert Wire(payload)[6..] == payload;
      Some(Wire(payload))
  }

  predicate StartsMagic(b: Bytes) { |b| >= 2 && b[0] == MAGIC0 && b[1] == MAGIC1 }

  /** Exactly one whole frame. */
  predicate IsFrame(b: Bytes) {
    StartsMagic(b) && |b| >= HEADER && |b| == HEADER + LengthOf(b[2..6]) && LengthOf(b[2..6]) <= MAX_FRAME_LEN
  }

  // ---- what a stream means ------------------------------------------------

  /** A stream, read from the left: stray bytes and frames. */
  datatype Item = Stray(byte: Byte) | Framed(payload: Bytes)

  datatype Parsed = Parsed(items: seq<Item>, rest: Bytes) {
    function Then(item: Item): Parsed { Parsed([item] + items, rest) }
  }

  function Parse(b: Bytes): Parsed
    decreases |b|
  {
    if b == [] || b == [MAGIC0] then Parsed([], b)
    else if !StartsMagic(b) then Parse(b[1..]).Then(Stray(b[0]))
    else if |b| < HEADER then Parsed([], b)
    else
      var n := LengthOf(b[2..6]);
      if n > MAX_FRAME_LEN then Parse(b[1..]).Then(Stray(b[0]))
      else if |b| < HEADER + n then Parsed([], b)
      else Parse(b[HEADER + n..]).Then(Framed(b[HEADER..HEADER + n]))
  }

  function Frames(items: seq<Item>): seq<Bytes> {
    if items == [] then [] else (if items[0].Framed? then [items[0].payload] else []) + Frames(items[1..])
  }

  function Noise(items: seq<Item>): Bytes {
    if items == [] then [] else (if items[0].Stray? then [items[0].byte] else []) + Noise(items[1..])
  }

  lemma {:induction false} FramesJoin(a: seq<Item>, b: seq<Item>)
    ensures Frames(a + b) == Frames(a) + Frames(b)
  {
    if a == [] {
      assert a + b == b;
    } else {
      assert (a + b)[1..] == a[1..] + b;
      FramesJoin(a[1..], b);
      Assoc(if a[0].Framed? then [a[0].payload] else [], Frames(a[1..]), Frames(b));
    }
  }

  lemma {:induction false} NoiseJoin(a: seq<Item>, b: seq<Item>)
    ensures Noise(a + b) == Noise(a) + Noise(b)
  {
    if a == [] {
      assert a + b == b;
    } else {
      assert (a + b)[1..] == a[1..] + b;
      NoiseJoin(a[1..], b);
      Assoc(if a[0].Stray? then [a[0].byte] else [], Noise(a[1..]), Noise(b));
    }
  }

  // ---- one step of reading ------------------------------------------------

  /** The first byte is stray whatever follows. */
  predicate StrayFirst(b: Bytes) {
    && b != [] && b != [MAGIC0]
    && (StartsMagic(b) ==> |b| >= HEADER && LengthOf(b[2..6]) > MAX_FRAME_LEN)
  }

  /** A whole frame comes first. */
  predicate FrameFirst(b: Bytes) {
    StartsMagic(b) && |b| >= HEADER && LengthOf(b[2..6]) <= MAX_FRAME_LEN && |b| >= HEADER + LengthOf(b[2..6])
  }

  function FirstPayload(b: Bytes): Bytes
    requires FrameFirst(b)
  {
    b[HEADER..HEADER + LengthOf(b[2..6])]
  }

  function AfterFrame(b: Bytes): Bytes
    requires FrameFirst(b)
  {
    b[HEADER + LengthOf(b[2..6])..]
  }

  lemma ParseSteps(b: Bytes)
    ensures StrayFirst(b) ==> Parse(b) == Parse(b[1..]).Then(Stray(b[0]))
    ensures FrameFirst(b) ==> Parse(b) == Parse(AfterFrame(b)).Then(Framed(FirstPayload(b)))
    ensures !StrayFirst(b) && !FrameFirst(b) ==> Parse(b) == Parsed([], b)
  {
  }

  /** More input does not change what comes first. */
  lemma StepsExtend(x: Bytes, y: Bytes)
    ensures StrayFirst(x) ==> StrayFirst(x + y) && (x + y)[0] == x[0] && (x + y)[1..] == x[1..] + y
    ensures FrameFirst(x) ==> FrameFirst(x + y) && FirstPayload(x + y) == FirstPayload(x) && AfterFrame(x + y) == AfterFrame(x) + y
  {
    hide LengthOf;
    if |x| >= HEADER {
      assert (x + y)[2..6] == x[2..6];
    }
  }

  lemma Assoc<T>(a: seq<T>, b: seq<T>, c: seq<T>)
    ensures a + (b + c) == (a + b) + c
  {
  }

  // ---- conservation -------------------------------------------------------

  function ItemBytes(item: Item): Bytes {
    match item
    case Stray(b) => [b]
    case Framed(p) => if |p| < 0x1_0000_0000 then Wire(p) else []
  }

  function AllBytes(items: seq<Item>): Bytes {
    if items == [] then [] else ItemBytes(items[0]) + AllBytes(items[1..])
  }

  /** Every byte of the stream is in exactly one stray, frame or the pending rest, in order. */
  lemma {:induction false} ParseConserves(b: Bytes)
    ensures AllBytes(Parse(b).items) + Parse(b).rest == b
    decreases |b|
  {
    hide Parse;
    hide LengthOf;
    ParseSteps(b);
    if StrayFirst(b) {
      ParseConserves(b[1..]);
      Unstep(b, Stray(b[0]), b[1..]);
    } else if FrameFirst(b) {
      FrameIsFirst(b);
      hide FirstPayload;
      hide AfterFrame;
      hide ItemBytes;
      ParseConserves(AfterFrame(b));
      Unstep(b, Framed(FirstPayload(b)), AfterFrame(b));
    }
  }

  lemma FrameIsFirst(b: Bytes)
    requires FrameFirst(b)
    ensures ItemBytes(Framed(FirstPayload(b))) + AfterFrame(b) == b && |AfterFrame(b)| < |b|
  {
    hide LengthOf;
    LengthUnique(b[2..6]);
    var n := LengthOf(b[2..6]);
    hide LengthBytes;
    var p := FirstPayload(b);
    assert b[..2] == [MAGIC0, MAGIC1];
    assert b[..6] == b[..2] + b[2..6];
    assert b[..6 + n] == b[..6] + p;
    assert b == b[..6 + n] + b[6 + n..];
  }

  /** Resynchronising: a magic whose length is over the bound is noise by one byte only, and
      reading goes on with the next. */
  lemma Resync(b: Bytes)
    requires |b| >= 6 && b[0] == 0xAA && b[1] == 0x99
    requires b[2] as int + 0x100 * b[3] as int + 0x1_0000 * b[4] as int + 0x100_0000 * b[5] as int > 1_048_576
    ensures Parse(b) == Parsed([Stray(0xAA)] + Parse(b[1..]).items, Parse(b[1..]).rest)
  {
    assert b[2..6] == [b[2], b[3], b[4], b[5]];
  }

  /** A frame that has not all arrived stays pending, whole. */
  lemma Pending(b: Bytes)
    requires |b| >= 2 && b[0] == 0xAA && b[1] == 0x99
    requires |b| < 6 || var n := b[2] as int + 0x100 * b[3] as int + 0x1_0000 * b[4] as int + 0x100_0000 * b[5] as int;
                        n <= 1_048_576 && |b| < 6 + n
    ensures Parse(b) == Parsed([], b)
  {
    if |b| >= 6 {
      assert b[2..6] == [b[2], b[3], b[4], b[5]];
    }
  }

  lemma Unstep(b: Bytes, item: Item, tail: Bytes)
    requires ItemBytes(item) + tail == b && AllBytes(Parse(tail).items) + Parse(tail).rest == tail
    ensures AllBytes(Parse(tail).Then(item).items) + Parse(tail).Then(item).rest == b
  {
    hide Parse;
    var p := Parse(tail);
    assert ([item] + p.items)[1..] == p.items;
    assert ItemBytes(item) + (AllBytes(p.items) + p.rest) == (ItemBytes(item) + AllBytes(p.items)) + p.rest;
  }

  // ---- chunking -----------------------------------------------------------

  /** Reading on from what was pending is the same as reading everything at once. */
  lemma {:induction false} ParseResumes(x: Bytes, y: Bytes)
    ensures Parse(x + y) == Parsed(Parse(x).items + Parse(Parse(x).rest + y).items, Parse(Parse(x).rest + y).rest)
    decreases |x|
  {
    hide Parse;
    hide StrayFirst;
    hide FrameFirst;
    ParseSteps(x);
    ParseSteps(x + y);
    StepsExtend(x, y);
    if StrayFirst(x) {
      NotEmpty(x);
      ParseResumes(x[1..], y);
      Assoc([Stray(x[0])], Parse(x[1..]).items, Parse(Parse(x).rest + y).items);
    } else if FrameFirst(x) {
      NotEmpty(x);
      ParseResumes(AfterFrame(x), y);
      Assoc([Framed(FirstPayload(x))], Parse(AfterFrame(x)).items, Parse(Parse(x).rest + y).items);
    }
  }

  lemma NotEmpty(b: Bytes)
    requires StrayFirst(b) || FrameFirst(b)
    ensures b != [] && (FrameFirst(b) ==> |AfterFrame(b)| < |b|)
  {
  }

  function Concat(chunks: seq<Bytes>): Bytes {
    if chunks == [] then [] else chunks[0] + Concat(chunks[1..])
  }

  /** Feeding chunk after chunk, starting from a pending buffer. */
  function ParseChunks(pending: Bytes, chunks: seq<Bytes>): Parsed
    decreases |chunks|
  {
    if chunks == [] then Parsed([], pending)
    else
      var p := Parse(pending + chunks[0]);
      var q := ParseChunks(p.rest, chunks[1..]);
      Parsed(p.items + q.items, q.rest)
  }

  /** Nothing is left to do in a pending rest. */
  lemma {:induction false} RestIsStuck(b: Bytes)
    ensures Parse(Parse(b).rest) == Parsed([], Parse(b).rest)
    decreases |b|
  {
    hide Parse;
    hide StrayFirst;
    hide FrameFirst;
    ParseSteps(b);
    if StrayFirst(b) {
      NotEmpty(b);
      RestIsStuck(b[1..]);
    } else if FrameFirst(b) {
      NotEmpty(b);
      RestIsStuck(AfterFrame(b));
    }
  }

  /** However the stream is cut up, the same items come out and the same bytes stay pending. */
  lemma {:induction false} ChunkingIrrelevant(pending: Bytes, chunks: seq<Bytes>)
    requires Parse(pending) == Parsed([], pending)
    ensures ParseChunks(pending, chunks) == Parse(pending + Concat(chunks))
    decreases |chunks|
  {
    hide Parse;
    if chunks == [] {
      assert pending + Concat(chunks) == pending;
    } else {
      var x := pending + chunks[0];
      RestIsStuck(x);
      ChunkingIrrelevant(Parse(x).rest, chunks[1..]);
      ParseResumes(x, Concat(chunks[1..]));
      assert pending + Concat(chunks) == x + Concat(chunks[1..]);
    }
  }

  // ---- recovery -----------------------------------------------------------

  predicate MagicFree(b: Bytes) {
    forall i: nat, j: nat :: j == i + 1 && j < |b| ==> b[i] != MAGIC0 || b[j] != MAGIC1
  }

  function Strays(b: Bytes): seq<Item> { seq(|b|, i requires 0 <= i < |b| => Stray(b[i])) }

  /** Nothing in `b` before `start` begins a magic. */
  predicate NoMagicBefore(b: Bytes, start: nat) {
    forall i: nat, j: nat :: i < start && j == i + 1 && j < |b| ==> b[i] != MAGIC0 || b[j] != MAGIC1
  }

  /** Bytes before the first magic are noise; a lone last byte might be half of one. */
  lemma {:induction false} SkipTo(b: Bytes, start: nat)
    requires start <= |b| && NoMagicBefore(b, start)
    requires start == |b| ==> b == [] || b[|b| - 1] != MAGIC0
    ensures Parse(b) == Parsed(Strays(b[..start]) + Parse(b[start..]).items, Parse(b[start..]).rest)
    decreases start
  {
    hide Parse;
    hide LengthOf;
    if start == 0 {
      assert b[0..] == b;
      assert Strays(b[..0]) + Parse(b).items == Parse(b).items;
    } else {
      var i, j := 0, 1;
      assert j < |b| ==> b[i] != MAGIC0 || b[j] != MAGIC1;
      ParseSteps(b);
      assert NoMagicBefore(b[1..], start - 1) by {
        forall i: nat, j: nat | i < start - 1 && j == i + 1 && j < |b[1..]| ensures b[1..][i] != MAGIC0 || b[1..][j] != MAGIC1 {
          assert b[1..][i] == b[i + 1] && b[1..][j] == b[j + 1];
        }
      }
      SkipTo(b[1..], start - 1);
      assert b[1..][start - 1..] == b[start..];
      assert Strays(b[..start]) == [Stray(b[0])] + Strays(b[1..][..start - 1]);
      Assoc([Stray(b[0])], Strays(b[1..][..start - 1]), Parse(b[start..]).items);
    }
  }

  /** Bytes without a magic are noise, unless the next byte completes one. */
  lemma NoiseSkipped(noise: Bytes, tail: Bytes)
    requires MagicFree(noise) && tail != [] && tail[0] != MAGIC1
    ensures Parse(noise + tail) == Parsed(Strays(noise) + Parse(tail).items, Parse(tail).rest)
  {
    hide Parse;
    var b := noise + tail;
    forall i: nat, j: nat | i < |noise| && j == i + 1 && j < |b| ensures b[i] != MAGIC0 || b[j] != MAGIC1 {
      assert j < |noise| ==> noise[i] != MAGIC0 || noise[j] != MAGIC1;
    }
    SkipTo(b, |noise|);
    assert b[..|noise|] == noise && b[|noise|..] == tail;
  }

  lemma FrameTaken(payload: Bytes, tail: Bytes)
    requires |payload| <= MAX_FRAME_LEN
    ensures Parse(Wire(payload) + tail) == Parse(tail).Then(Framed(payload))
  {
    var b := Wire(payload) + tail;
    LengthReadsBack(|payload|);
    assert b[2..6] == LengthBytes(|payload|);
    assert b[HEADER + |payload|..] == tail;
    assert b[HEADER..HEADER + |payload|] == payload;
  }

  /** Noise and a frame, over and over. */
  datatype Part = Part(noise: Bytes, payload: Bytes)

  predicate Clean(parts: seq<Part>) {
    forall i :: 0 <= i < |parts| ==> MagicFree(parts[i].noise) && |parts[i].payload| <= MAX_FRAME_LEN
  }

  function Stream(parts: seq<Part>): Bytes
    requires Clean(parts)
  {
    if parts == [] then [] else parts[0].noise + Wire(parts[0].payload) + Stream(parts[1..])
  }

  function Payloads(parts: seq<Part>): seq<Bytes> {
    seq(|parts|, i requires 0 <= i < |parts| => parts[i].payload)
  }

  function AllNoise(parts: seq<Part>): Bytes {
    if parts == [] then [] else parts[0].noise + AllNoise(parts[1..])
  }

  /** Any list of payloads, with any magic-free noise before each, comes back whole, and the
      noise with it. */
  lemma {:induction false} Recovered(parts: seq<Part>)
    requires Clean(parts)
    ensures Frames(Parse(Stream(parts)).items) == Payloads(parts)
    ensures |Frames(Parse(Stream(parts)).items)| == |parts| && forall i: nat :: i < |parts| ==> Frames(Parse(Stream(parts)).items)[i] == parts[i].payload
    ensures Noise(Parse(Stream(parts)).items) == AllNoise(parts)
    ensures Parse(Stream(parts)).rest == []
  {
    hide Parse;
    if parts == [] {
      EmptyStream();
    } else {
      var part, tail := parts[0], Stream(parts[1..]);
      Recovered(parts[1..]);
      PartParsed(part, tail);
      Assoc(part.noise, Wire(part.payload), tail);
      assert Payloads(parts) == [part.payload] + Payloads(parts[1..]);
    }
  }

  /** In particular one frame after some noise: the payload, and the noise. */
  lemma FrameRecovered(noise: Bytes, payload: Bytes)
    requires |payload| <= 1_048_576
    requires forall i: nat, j: nat :: j == i + 1 && j < |noise| ==> !(noise[i] == 0xAA && noise[j] == 0x99)
    ensures var p := Parse(noise + Wire(payload)); Frames(p.items) == [payload] && Noise(p.items) == noise && p.rest == []
  {
    hide Parse;
    hide Wire;
    var part := Part(noise, payload);
    var none: seq<Part> := [];
    Recovered([part]);
    assert [part][1..] == none;
    assert Stream([part]) == noise + Wire(payload) + [] == noise + Wire(payload);
    assert AllNoise([part]) == noise + [] == noise;
    assert Payloads([part]) == [payload];
  }

  /** One noisy frame in front of a stream. */
  lemma PartParsed(part: Part, tail: Bytes)
    requires MagicFree(part.noise) && |part.payload| <= MAX_FRAME_LEN
    ensures var p := Parse(part.noise + (Wire(part.payload) + tail)); var q := Parse(tail);
      Frames(p.items) == [part.payload] + Frames(q.items) && Noise(p.items) == part.noise + Noise(q.items) && p.rest == q.rest
  {
    hide Parse;
    hide Strays;
    hide LengthBytes;
    hide MagicFree;
    FrameTaken(part.payload, tail);
    NoiseSkipped(part.noise, Wire(part.payload) + tail);
    StraysOnly(part.noise);
    var more := [Framed(part.payload)] + Parse(tail).items;
    FramesJoin(Strays(part.noise), more);
    NoiseJoin(Strays(part.noise), more);
    assert more[1..] == Parse(tail).items;
  }

  lemma EmptyStream()
    ensures Parse([]) == Parsed([], [])
  {
  }

  lemma {:induction false} StraysOnly(b: Bytes)
    ensures Frames(Strays(b)) == [] && Noise(Strays(b)) == b
  {
    if b != [] {
      StraysOnly(b[1..]);
      assert Strays(b)[1..] == Strays(b[1..]);
    }
  }

  // ---- the decoder --------------------------------------------------------

  /** `bytearray.find(MAGIC)`. */
  method FindMagic(b: Bytes) returns (r: Option<nat>)
    ensures r.Some? ==> r.value <= |b| && StartsMagic(b[r.value..]) && NoMagicBefore(b, r.value)
    ensures r.None? ==> NoMagicBefore(b, |b|)
  {
    var i := 0;
    while i + 1 < |b|
      invariant NoMagicBefore(b, i)
    {
      if b[i] == MAGIC0 && b[i + 1] == MAGIC1 {
        return Some(i);
      }
      i := i + 1;
    }
    return None;
  }

  class FrameDecoder {
    var buf: Bytes
    var noise: Bytes

    /** What is pending waits for more input. */
    ghost predicate Valid()
      reads this
    {
      Parse(buf) == Parsed([], buf)
    }

    constructor ()
      ensures Valid() && buf == [] && noise == []
    {
      buf, noise := [], [];
    }

    /** `feed`: the frames completed by this chunk, in order. With `ChunkingIrrelevant`, the
        chunks do not matter. */
    method Feed(data: Bytes) returns (frames: seq<Bytes>)
      modifies this
      ensures Valid()
      ensures var p := Parse(old(buf) + data);
        frames == Frames(p.items) && noise == old(noise) + Noise(p.items) && buf == p.rest
    {
      hide Parse;
      hide LengthOf;
      hide Decoding;
      hide Strays;
      hide NoMagicBefore;
      buf := buf + data;
      frames := [];
      ghost var all, was := buf, noise;
      ghost var done: seq<Item> := [];
      DecodeStart(all, was);
      while true
        invariant Decoding(all, buf, done, frames, was, noise)
        decreases |buf|
      {
        var start := FindMagic(buf);
        if start.None? {
          var keep := if |buf| > 0 && buf[|buf| - 1] == MAGIC0 then 1 else 0;
          NoMagicEarlier(buf, |buf|, |buf| - keep);
          DecodeSkip(all, buf, done, frames, was, noise, |buf| - keep);
          noise := noise + buf[..|buf| - keep];
          done := done + Strays(buf[..|buf| - keep]);
          buf := buf[|buf| - keep..];
          DecodeEnd(all, buf, done, frames, was, noise);
          return;
        }
        DecodeSkip(all, buf, done, frames, was, noise, start.value);
        noise := noise + buf[..start.value];
        done := done + Strays(buf[..start.value]);
        buf := buf[start.value..];
        if |buf| < HEADER {
          DecodeEnd(all, buf, done, frames, was, noise);
          return;
        }
        var length := LengthOf(buf[2..6]);
        if length > MAX_FRAME_LEN {
          DecodeStray(all, buf, done, frames, was, noise);
          done := done + [Stray(buf[0])];
          noise := noise + buf[..1];
          buf := buf[1..];
        } else if |buf| < HEADER + length {
          DecodeEnd(all, buf, done, frames, was, noise);
          return;
        } else {
          DecodeFrame(all, buf, done, frames, was, noise);
          done := done + [Framed(FirstPayload(buf))];
          frames := frames + [buf[HEADER..HEADER + length]];
          buf := buf[HEADER + length..];
        }
      }
    }
  }

  /** Of `all`, the items `done` have been taken and `buf` is still to be read. */
  ghost predicate Decoding(all: Bytes, buf: Bytes, done: seq<Item>, frames: seq<Bytes>, was: Bytes, noise: Bytes) {
    && Parse(all) == Parsed(done + Parse(buf).items, Parse(buf).rest)
    && frames == Frames(done) && noise == was + Noise(done)
  }

  lemma NoMagicEarlier(b: Bytes, end: nat, start: nat)
    requires NoMagicBefore(b, end) && start <= end
    ensures NoMagicBefore(b, start)
  {
  }

  lemma DecodeStart(all: Bytes, was: Bytes)
    ensures Decoding(all, all, [], [], was, was)
  {
    hide Parse;
  }

  lemma DecodeSkip(all: Bytes, buf: Bytes, done: seq<Item>, frames: seq<Bytes>, was: Bytes, noise: Bytes, start: nat)
    requires Decoding(all, buf, done, frames, was, noise) && start <= |buf| && NoMagicBefore(buf, start)
    requires start == |buf| ==> buf == [] || buf[|buf| - 1] != MAGIC0
    ensures Decoding(all, buf[start..], done + Strays(buf[..start]), frames, was, noise + buf[..start])
  {
    hide Parse;
    hide Frames;
    hide Noise;
    hide Strays;
    var skipped := buf[..start];
    SkipTo(buf, start);
    Assoc(done, Strays(skipped), Parse(buf[start..]).items);
    FramesJoin(done, Strays(skipped));
    NoiseJoin(done, Strays(skipped));
    StraysOnly(skipped);
    Assoc(was, Noise(done), skipped);
  }

  lemma DecodeStray(all: Bytes, buf: Bytes, done: seq<Item>, frames: seq<Bytes>, was: Bytes, noise: Bytes)
    requires Decoding(all, buf, done, frames, was, noise) && StrayFirst(buf)
    ensures Decoding(all, buf[1..], done + [Stray(buf[0])], frames, was, noise + buf[..1])
  {
    hide Parse;
    hide LengthOf;
    var item := Stray(buf[0]);
    ParseSteps(buf);
    Assoc(done, [item], Parse(buf[1..]).items);
    FramesJoin(done, [item]);
    NoiseJoin(done, [item]);
    Assoc(was, Noise(done), [buf[0]]);
  }

  lemma DecodeFrame(all: Bytes, buf: Bytes, done: seq<Item>, frames: seq<Bytes>, was: Bytes, noise: Bytes)
    requires Decoding(all, buf, done, frames, was, noise) && FrameFirst(buf)
    ensures Decoding(all, AfterFrame(buf), done + [Framed(FirstPayload(buf))], frames + [FirstPayload(buf)], was, noise)
  {
    hide Parse;
    hide LengthOf;
    var item := Framed(FirstPayload(buf));
    ParseSteps(buf);
    Assoc(done, [item], Parse(AfterFrame(buf)).items);
    FramesJoin(done, [item]);
    NoiseJoin(done, [item]);
  }

  lemma DecodeEnd(all: Bytes, buf: Bytes, done: seq<Item>, frames: seq<Bytes>, was: Bytes, noise: Bytes)
    requires Decoding(all, buf, done, frames, was, noise) && !StrayFirst(buf) && !FrameFirst(buf)
    ensures frames == Frames(Parse(all).items) && noise == was + Noise(Parse(all).items) && buf == Parse(all).rest
    ensures Parse(buf) == Parsed([], buf)
  {
    hide Parse;
    ParseSteps(buf);
    assert done + [] == done;
  }
}
