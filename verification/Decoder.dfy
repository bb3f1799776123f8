// The gateway's stream decoder: repeated parsing of a receive buffer, skipping
// to the next possible frame start after corruption (gateway/src/decoder.rs).
module Decoder {
  import opened Words
  import opened Frame

  // ---- one call of the decoder ----

  datatype Decoded = Decoded(item: Option<Payload>, rest: seq<Byte>)

  // Skips corrupt data until a frame is found or more bytes are needed.
  function Decode(src: seq<Byte>): (r: Decoded)
    ensures r.item.None? ==> Parse(r.rest).Incomplete?
    ensures |r.rest| <= |src| && (r.item.Some? ==> |r.rest| < |src|)
    decreases |src|
  {
    match Parse(src)
    case Ok(payload, consumed) => ParsedIsEncoded(src); Decoded(Some(payload), src[consumed..])
    case Incomplete => Decoded(None, src)
    case Corrupt(_, discard) => CorruptSkips(src); Decode(src[discard..])
  }

  // A receive buffer; `Advance` drops its front.
  class Buffer {
    var data: seq<Byte>

    constructor (data: seq<Byte>)
      ensures this.data == data
    {
      this.data := data;
    }

    method Advance(n: nat)
      requires n <= |data|
      modifies this
      ensures data == old(data)[n..]
    {
      data := data[n..];
    }
  }

  class FrameDecoder {
    constructor () {}

    // Never fails; the item and the bytes left are those of `Decode`.
    method DecodeBuffer(src: Buffer) returns (item: Option<Payload>)
      modifies src
      ensures Decoded(item, src.data) == Decode(old(src.data))
    {
      while true
        invariant Decode(src.data) == Decode(old(src.data))
        decreases |src.data|
      {
        match Parse(src.data)
        case Ok(payload, consumed) =>
          ParsedIsEncoded(src.data);
          src.Advance(consumed);
          return Some(payload);
        case Incomplete =>
          return None;
        case Corrupt(_, discard) =>
          CorruptSkips(src.data);
          src.Advance(discard);
      }
    }
  }

  // ---- everything a buffer yields ----

  datatype Drained = Drained(payloads: seq<Payload>, rest: seq<Byte>)

  // Calls the decoder until it has no more.
  function Drain(src: seq<Byte>): Drained
    decreases |src|
  {
    var d := Decode(src);
    if d.item.None? then Drained([], d.rest)
    else
      var more := Drain(d.rest);
      Drained([d.item.value] + more.payloads, more.rest)
  }

  // Serial reads arrive in pieces; after each one the buffer is drained.
  function Feed(buffer: seq<Byte>, pieces: seq<seq<Byte>>): Drained
    decreases |pieces|
  {
    if pieces == [] then Drained([], buffer)
    else
      var first := Drain(buffer + pieces[0]);
      var more := Feed(first.rest, pieces[1..]);
      Drained(first.payloads + more.payloads, more.rest)
  }

  function Concat(pieces: seq<seq<Byte>>): seq<Byte>
    decreases |pieces|
  {
    if pieces == [] then [] else pieces[0] + Concat(pieces[1..])
  }

  // ---- the reference: one byte at a time ----

  datatype Found = Found(start: nat, payload: Payload)

  datatype Scanned = Scanned(frames: seq<Found>, rest: seq<Byte>)

  // Examines every position in turn, except those inside an accepted frame.
  // `at` is the position of `src` in the whole stream.
  function Scan(src: seq<Byte>, at: nat): (r: Scanned)
    ensures |r.rest| <= |src|
    decreases |src|
  {
    hide Parse, Encoded;
    match Parse(src)
    case Ok(payload, consumed) =>
      ParsedIsEncoded(src);
      var more := Scan(src[consumed..], at + consumed);
      Scanned([Found(at, payload)] + more.frames, more.rest)
    case Incomplete => Scanned([], src)
    case Corrupt(_, _) => CorruptSkips(src); Scan(src[1..], at + 1)
  }

  function Payloads(frames: seq<Found>): seq<Payload> {
    if frames == [] then [] else [frames[0].payload] + Payloads(frames[1..])
  }

  lemma {:induction false} PayloadsConcat(a: seq<Found>, b: seq<Found>)
    ensures Payloads(a + b) == Payloads(a) + Payloads(b)
  {
    if a == [] {
      assert a + b == b;
    } else {
      assert (a + b)[1..] == a[1..] + b;
      PayloadsConcat(a[1..], b);
    }
  }

  // A stretch without the first magic byte is skipped byte by byte.
  lemma {:induction false} SkipIsByteByByte(src: seq<Byte>, at: nat, n: nat)
    requires n <= |src| && forall i :: 0 <= i < n ==> src[i] != MAGIC_BYTES[0]
    ensures Scan(src, at) == Scan(src[n..], at + n)
    decreases n
  {
    if n == 0 {
    } else {
      SkipIsByteByByte(src[1..], at + 1, n - 1);
      assert src[1..][n - 1..] == src[n..];
    }
  }

  // Main result: jumping to the next first magic byte finds exactly what
  // examining every byte finds, and leaves the same bytes.
  lemma {:induction false} DrainRefinesScan(src: seq<Byte>, at: nat)
    ensures Drain(src) == Drained(Payloads(Scan(src, at).frames), Scan(src, at).rest)
    decreases |src|
  {
    hide Parse, Encoded;
    match Parse(src)
    case Ok(payload, consumed) =>
      ParsedIsEncoded(src);
      DrainRefinesScan(src[consumed..], at + consumed);
    case Incomplete =>
    case Corrupt(_, discard) =>
      CorruptSkips(src);
      SkipIsByteByByte(src[1..], at + 1, discard - 1);
      assert src[1..][discard - 1..] == src[discard..];
      DrainRefinesScan(src[discard..], at + discard);
  }

  // ---- independence of how the bytes arrive ----

  ghost predicate Resumes(a: seq<Byte>, b: seq<Byte>, at: nat) {
    var first := Scan(a, at);
    var second := Scan(first.rest + b, at + |a| - |first.rest|);
    Scan(a + b, at) == Scanned(first.frames + second.frames, second.rest)
  }

  // Scanning a stream is scanning its front, then the bytes that left over
  // together with the rest.
  lemma {:induction false} ScanResumes(a: seq<Byte>, b: seq<Byte>, at: nat)
    ensures Resumes(a, b, at)
    decreases |a|
  {
    hide Parse, Encoded, Resumes;
    VerdictIsStable(a, b);
    match Parse(a)
    case Ok(payload, consumed) =>
      ParsedIsEncoded(a);
      assert (a + b)[consumed..] == a[consumed..] + b;
      ScanResumes(a[consumed..], b, at + consumed);
      ResumesAfter(a, b, at, consumed, [Found(at, payload)]);
    case Incomplete =>
      ResumesAtOnce(a, b, at);
    case Corrupt(_, _) =>
      CorruptSkips(a);
      assert (a + b)[1..] == a[1..] + b;
      ScanResumes(a[1..], b, at + 1);
      ResumesAfter(a, b, at, 1, []);
  }

  ghost predicate Steps(src: seq<Byte>, at: nat, n: nat, head: seq<Found>)
    requires n <= |src|
  {
    var more := Scan(src[n..], at + n);
    Scan(src, at) == Scanned(head + more.frames, more.rest)
  }

  lemma {:induction false} ResumesAtOnce(a: seq<Byte>, b: seq<Byte>, at: nat)
    requires Scan(a, at) == Scanned([], a)
    ensures Resumes(a, b, at)
  {
    hide Scan;
    assert [] + Scan(a + b, at).frames == Scan(a + b, at).frames;
  }

  lemma {:induction false} ResumesAfter(a: seq<Byte>, b: seq<Byte>, at: nat, n: nat, head: seq<Found>)
    requires n <= |a| && Steps(a, at, n, head) && (a + b)[n..] == a[n..] + b && Steps(a + b, at, n, head)
    requires Resumes(a[n..], b, at + n)
    ensures Resumes(a, b, at)
  {
    hide Scan;
    var first := Scan(a[n..], at + n);
    var second := Scan(first.rest + b, at + |a| - |first.rest|);
    assert head + (first.frames + second.frames) == (head + first.frames) + second.frames;
  }

  lemma {:induction false} DrainResumes(a: seq<Byte>, b: seq<Byte>)
    ensures var first := Drain(a);
            var second := Drain(first.rest + b);
            Drain(a + b) == Drained(first.payloads + second.payloads, second.rest)
  {
    hide Drain, Scan;
    var first := Scan(a, 0);
    var mid := |a| - |first.rest|;
    DrainRefinesScan(a, 0);
    DrainRefinesScan(a + b, 0);
    DrainRefinesScan(first.rest + b, mid);
    ScanResumes(a, b, 0);
    assert Resumes(a, b, 0);
    PayloadsConcat(first.frames, Scan(first.rest + b, mid).frames);
  }

  lemma {:induction false} DrainRest(src: seq<Byte>)
    ensures Drain(Drain(src).rest) == Drained([], Drain(src).rest)
    decreases |src|
  {
    var d := Decode(src);
    if d.item.Some? {
      DrainRest(d.rest);
    }
  }

  // Main result: the payloads emitted and the bytes left in the buffer depend
  // only on the stream, never on how it was split into reads.
  lemma {:induction false} ChunkingDoesNotMatter(buffer: seq<Byte>, pieces: seq<seq<Byte>>)
    requires pieces != []
    ensures Feed(buffer, pieces) == Drain(buffer + Concat(pieces))
    decreases |pieces|
  {
    hide Drain;
    var first := Drain(buffer + pieces[0]);
    DrainResumes(buffer + pieces[0], Concat(pieces[1..]));
    assert buffer + Concat(pieces) == (buffer + pieces[0]) + Concat(pieces[1..]);
    if pieces[1..] == [] {
      DrainRest(buffer + pieces[0]);
      assert first.rest + Concat(pieces[1..]) == first.rest;
      assert first.payloads + [] == first.payloads;
    } else {
      ChunkingDoesNotMatter(first.rest, pieces[1..]);
    }
  }

  lemma {:induction false} DrainStopsIncomplete(src: seq<Byte>)
    ensures Parse(Drain(src).rest).Incomplete?
    decreases |src|
  {
    hide Parse, Decode;
    if Decode(src).item.Some? {
      DrainStopsIncomplete(Decode(src).rest);
    }
  }

  // Main result: the decoder never holds bytes back without need. What is left
  // after any reads is the beginning of a frame, as far as it goes, and less
  // than the whole of one.
  lemma {:induction false} TheBufferAwaitsAFrame(buffer: seq<Byte>, pieces: seq<seq<Byte>>)
    requires pieces != []
    ensures var rest := Feed(buffer, pieces).rest;
            exists payload: Payload :: |rest| < |Encoded(payload)| && Begins(rest, payload)
  {
    hide Feed, Drain, Parse, Encoded;
    ChunkingDoesNotMatter(buffer, pieces);
    DrainStopsIncomplete(buffer + Concat(pieces));
    IncompleteExactly(Feed(buffer, pieces).rest);
  }

  // ---- nothing that could be found is lost ----

  // Position i is accounted for: a frame was emitted there, it lies inside an
  // emitted frame, or it is still in the buffer.
  ghost predicate Accounted(r: Scanned, total: nat, i: nat) {
    || (exists f :: f in r.frames && f.start <= i < f.start + OVERHEAD + |f.payload|)
    || i + |r.rest| >= total
  }

  // Main result: every position where a valid frame starts is accounted for,
  // and one that starts exactly where a frame was emitted is that frame.
  lemma {:induction false} NoFrameIsLost(src: seq<Byte>, at: nat, i: nat)
    requires i <= |src| && Parse(src[i..]).Ok?
    ensures Accounted(Scan(src, at), at + |src|, at + i)
    ensures forall f :: f in Scan(src, at).frames && f.start == at + i ==> f.payload == Parse(src[i..]).payload
    decreases |src|
  {
    hide Parse, Encoded;
    match Parse(src)
    case Ok(payload, consumed) =>
      ParsedIsEncoded(src);
      var more := Scan(src[consumed..], at + consumed);
      StartsAreAhead(src[consumed..], at + consumed);
      if i < consumed {
        assert Found(at, payload) in Scan(src, at).frames;
        assert i == 0 ==> src[i..] == src;
      } else {
        assert src[consumed..][i - consumed..] == src[i..];
        NoFrameIsLost(src[consumed..], at + consumed, i - consumed);
        AccountedLater(more, [Found(at, payload)], at + |src|, at + i);
      }
    case Incomplete =>
    case Corrupt(_, _) =>
      CorruptSkips(src);
      assert src[0..] == src;
      assert src[1..][i - 1..] == src[i..];
      NoFrameIsLost(src[1..], at + 1, i - 1);
  }

  lemma {:induction false} AccountedLater(more: Scanned, head: seq<Found>, total: nat, i: nat)
    requires Accounted(more, total, i)
    ensures Accounted(Scanned(head + more.frames, more.rest), total, i)
  {
    if f :| f in more.frames && f.start <= i < f.start + OVERHEAD + |f.payload| {
      assert f in head + more.frames;
    }
  }

  lemma {:induction false} StartsAreAhead(src: seq<Byte>, at: nat)
    ensures forall f :: f in Scan(src, at).frames ==> at <= f.start
    decreases |src|
  {
    hide Parse, Encoded;
    match Parse(src)
    case Ok(payload, consumed) =>
      ParsedIsEncoded(src);
      StartsAreAhead(src[consumed..], at + consumed);
    case Incomplete =>
    case Corrupt(_, _) =>
      CorruptSkips(src);
      StartsAreAhead(src[1..], at + 1);
  }

  // A frame found is the frame that starts there.
  lemma {:induction false} FoundIsThere(src: seq<Byte>, at: nat, f: Found)
    requires f in Scan(src, at).frames
    ensures at <= f.start <= at + |src| && Parse(src[f.start - at..]) == Ok(f.payload, OVERHEAD + |f.payload|)
    decreases |src|
  {
    hide Parse, Encoded;
    match Parse(src)
    case Ok(payload, consumed) =>
      ParsedIsEncoded(src);
      if f == Found(at, payload) {
        assert src[0..] == src;
      } else {
        FoundIsThere(src[consumed..], at + consumed, f);
        assert src[consumed..][f.start - at - consumed..] == src[f.start - at..];
      }
    case Incomplete =>
    case Corrupt(_, _) =>
      CorruptSkips(src);
      FoundIsThere(src[1..], at + 1, f);
      assert src[1..][f.start - at - 1..] == src[f.start - at..];
  }

  // The frames stand one behind the other.
  ghost predicate Disjoint(frames: seq<Found>) {
    forall i :: 0 < i < |frames| ==>
                  frames[i - 1].start + OVERHEAD + |frames[i - 1].payload| <= frames[i].start
  }

  lemma {:induction false} ScanIsDisjoint(src: seq<Byte>, at: nat)
    ensures Disjoint(Scan(src, at).frames)
    decreases |src|
  {
    hide Parse, Encoded;
    match Parse(src)
    case Ok(payload, consumed) =>
      ParsedIsEncoded(src);
      ScanIsDisjoint(src[consumed..], at + consumed);
      StartsAreAhead(src[consumed..], at + consumed);
      var more := Scan(src[consumed..], at + consumed).frames;
      assert more != [] ==> more[0] in more;
    case Incomplete =>
    case Corrupt(_, _) =>
      CorruptSkips(src);
      ScanIsDisjoint(src[1..], at + 1);
  }

  // Main result: the same of the decoder fed in pieces. What it emits are frames
  // of the stream, in order, each where it starts and behind the one before, and
  // every position where a valid frame starts is one of them, lies inside one,
  // or is still in the buffer.
  lemma {:induction false} NoFrameIsLostInPieces(pieces: seq<seq<Byte>>) returns (frames: seq<Found>)
    requires pieces != []
    ensures Feed([], pieces).payloads == Payloads(frames) && Disjoint(frames)
    ensures forall f :: f in frames ==>
              f.start <= |Concat(pieces)| && Parse(Concat(pieces)[f.start..]) == Ok(f.payload, OVERHEAD + |f.payload|)
    ensures forall i: nat :: i <= |Concat(pieces)| && Parse(Concat(pieces)[i..]).Ok? ==>
              Accounted(Scanned(frames, Feed([], pieces).rest), |Concat(pieces)|, i)
  {
    hide Parse, Scan, Drain, Feed, Accounted, Disjoint;
    var stream := Concat(pieces);
    assert [] + stream == stream;
    ChunkingDoesNotMatter([], pieces);
    DrainRefinesScan(stream, 0);
    frames := Scan(stream, 0).frames;
    ScanIsDisjoint(stream, 0);
    forall f | f in frames
      ensures f.start <= |stream| && Parse(stream[f.start..]) == Ok(f.payload, OVERHEAD + |f.payload|)
    {
      FoundIsThere(stream, 0, f);
    }
    forall i: nat | i <= |stream| && Parse(stream[i..]).Ok?
      ensures Accounted(Scan(stream, 0), |stream|, i)
    {
      NoFrameIsLost(stream, 0, i);
    }
  }

  // ---- clean streams ----

  predicate Garbage(g: seq<Byte>) {
    MAGIC_BYTES[0] !in g
  }

  // Frames with garbage before each and after the last.
  function Stream(payloads: seq<Payload>, garbage: seq<seq<Byte>>): seq<Byte>
    requires |garbage| == |payloads| + 1
  {
    if payloads == [] then garbage[0]
    else garbage[0] + Encoded(payloads[0]) + Stream(payloads[1..], garbage[1..])
  }

  // Main result: a stream of frames with any garbage between them that does not
  // hold the first magic byte decodes to exactly those payloads.
  lemma {:induction false} CleanStreamDecodes(payloads: seq<Payload>, garbage: seq<seq<Byte>>)
    requires |garbage| == |payloads| + 1 && forall i :: 0 <= i < |garbage| ==> Garbage(garbage[i])
    ensures Drain(Stream(payloads, garbage)) == Drained(payloads, [])
    decreases |payloads|
  {
    hide Drain, Parse, Encoded;
    var s, g := Stream(payloads, garbage), garbage[0];
    if payloads == [] {
      SkipGarbage(g, []);
      assert g + [] == s;
      EmptyDrain();
    } else {
      var tail := Encoded(payloads[0]) + Stream(payloads[1..], garbage[1..]);
      assert s == g + tail;
      SkipGarbage(g, tail);
      FrameThenRest(payloads[0], Stream(payloads[1..], garbage[1..]));
      CleanStreamDecodes(payloads[1..], garbage[1..]);
      assert payloads == [payloads[0]] + payloads[1..];
    }
  }

  lemma {:induction false} EmptyDrain()
    ensures Drain([]) == Drained([], [])
  {
  }

  lemma {:induction false} SkipGarbage(g: seq<Byte>, tail: seq<Byte>)
    requires Garbage(g)
    ensures Drain(g + tail) == Drain(tail)
  {
    hide Drain, Scan;
    assert forall i :: 0 <= i < |g| ==> (g + tail)[i] == g[i];
    SkipIsByteByByte(g + tail, 0, |g|);
    assert (g + tail)[|g|..] == tail;
    DrainRefinesScan(g + tail, 0);
    DrainRefinesScan(tail, |g|);
  }

  lemma {:induction false} FrameThenRest(payload: Payload, tail: seq<Byte>)
    ensures Drain(Encoded(payload) + tail) == Drained([payload] + Drain(tail).payloads, Drain(tail).rest)
  {
    hide Encoded;
    ParseEncoded(payload, tail);
    assert (Encoded(payload) + tail)[|Encoded(payload)|..] == tail;
  }
}
