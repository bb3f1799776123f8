// The USB frame: magic "HS", a little-endian payload length, the payload and a
// checksum over length and payload (common/src/frame.rs).
module Frame {
  import opened Words
  import opened Crc

  const MAGIC_BYTES: seq<Byte> := [0x48, 0x53]
  const MAX_PAYLOAD_LEN := 1024
  const OVERHEAD := 6
  const MAX_LEN := OVERHEAD + MAX_PAYLOAD_LEN

  type Payload = p: seq<Byte> | |p| <= MAX_PAYLOAD_LEN

  // The part the checksum covers.
  function Checked(payload: Payload): seq<Byte> {
    ToLe16(|payload|) + payload
  }

  function Encoded(payload: Payload): (f: seq<Byte>)
    ensures |f| == OVERHEAD + |payload|
  {
    MAGIC_BYTES + Checked(payload) + ToLe16(Checksum(Checked(payload)))
  }

  datatype FrameError = BadMagic | PayloadTooLarge | BadCrc

  datatype FrameParse =
    | Incomplete
    | Ok(payload: Payload, consumed: nat)
    | Corrupt(error: FrameError, discard: nat)

  // The first index from `from` on holding the first magic byte, or the length.
  function SeekMagic(bytes: seq<Byte>, from: nat): (r: nat)
    requires from <= |bytes|
    ensures from <= r <= |bytes|
    ensures forall i :: from <= i < r ==> bytes[i] != MAGIC_BYTES[0]
    ensures r < |bytes| ==> bytes[r] == MAGIC_BYTES[0]
    decreases |bytes| - from
  {
    if from == |bytes| || bytes[from] == MAGIC_BYTES[0] then from else SeekMagic(bytes, from + 1)
  }

  // Distance to the next possible frame start after position 0.
  function SeekNextMagic(bytes: seq<Byte>): (r: nat)
    requires bytes != []
    ensures 1 <= r <= |bytes|
  {
    SeekMagic(bytes, 1)
  }

  function LengthField(bytes: seq<Byte>): nat
    requires |bytes| >= 4
  {
    FromLe16(bytes[2], bytes[3])
  }

  // Judges position 0 of a growing buffer.
  function Parse(bytes: seq<Byte>): FrameParse {
    if |bytes| < 1 then Incomplete
    else if bytes[0] != MAGIC_BYTES[0] then Corrupt(BadMagic, SeekNextMagic(bytes))
    else if |bytes| < 2 then Incomplete
    else if bytes[1] != MAGIC_BYTES[1] then Corrupt(BadMagic, SeekNextMagic(bytes))
    else if |bytes| < 4 then Incomplete
    else
      var n := LengthField(bytes);
      if n > MAX_PAYLOAD_LEN then Corrupt(PayloadTooLarge, SeekNextMagic(bytes))
      else if |bytes| < 4 + n then Incomplete
      else if |bytes| < OVERHEAD + n then Incomplete
      else if FromLe16(bytes[4 + n], bytes[5 + n]) != Checksum(bytes[2..4 + n])
                then Corrupt(BadCrc, SeekNextMagic(bytes))
      else Ok(bytes[4..4 + n], OVERHEAD + n)
  }

  // ---- parse and encode are inverse ----

  lemma {:induction false} EncodedParts(payload: Payload, rest: seq<Byte>)
    ensures var bytes := Encoded(payload) + rest;
            && bytes[..2] == MAGIC_BYTES && LengthField(bytes) == |payload|
            && bytes[2..4 + |payload|] == Checked(payload) && bytes[4..4 + |payload|] == payload
            && [bytes[4 + |payload|], bytes[5 + |payload|]] == ToLe16(Checksum(Checked(payload)))
  {
    hide Checksum, ToLe16;
    var bytes := Encoded(payload) + rest;
    assert bytes[2..4 + |payload|] == Checked(payload);
    assert bytes[2..4] == Checked(payload)[..2];
    assert bytes[4 + |payload|] == Encoded(payload)[4 + |payload|];
    assert bytes[5 + |payload|] == Encoded(payload)[5 + |payload|];
  }

  // A frame at the front of a buffer is read back, whatever follows it.
  lemma {:induction false} ParseEncoded(payload: Payload, rest: seq<Byte>)
    ensures Parse(Encoded(payload) + rest) == Ok(payload, OVERHEAD + |payload|)
  {
    hide Checksum, Checked;
    EncodedParts(payload, rest);
    var bytes := Encoded(payload) + rest;
    assert bytes[0] == bytes[..2][0] && bytes[1] == bytes[..2][1];
  }

  // Nothing else parses: `Ok` means the buffer starts with exactly the frame of
  // that payload.
  lemma {:induction false} ParsedIsEncoded(bytes: seq<Byte>)
    requires Parse(bytes).Ok?
    ensures var r := Parse(bytes);
            r.consumed == |Encoded(r.payload)| <= |bytes| && bytes[..r.consumed] == Encoded(r.payload)
  {
    hide Checksum, ToLe16;
    var n := LengthField(bytes);
    var payload: Payload := bytes[4..4 + n];
    Le16Injective(bytes[2], bytes[3]);
    Le16Injective(bytes[4 + n], bytes[5 + n]);
    assert bytes[2..4 + n] == [bytes[2], bytes[3]] + payload;
    assert Checked(payload) == bytes[2..4 + n];
    assert bytes[..OVERHEAD + n] == MAGIC_BYTES + bytes[2..4 + n] + [bytes[4 + n], bytes[5 + n]];
  }

  // Main result: a buffer parses as a payload exactly when it starts with that
  // payload's frame.
  lemma {:induction false} ParsesExactlyFrames(bytes: seq<Byte>, payload: Payload)
    ensures Parse(bytes) == Ok(payload, OVERHEAD + |payload|) <==>
              |Encoded(payload)| <= |bytes| && bytes[..|Encoded(payload)|] == Encoded(payload)
  {
    hide Parse, Encoded;
    if Parse(bytes) == Ok(payload, OVERHEAD + |payload|) {
      ParsedIsEncoded(bytes);
    }
    if |Encoded(payload)| <= |bytes| && bytes[..|Encoded(payload)|] == Encoded(payload) {
      assert bytes == Encoded(payload) + bytes[|Encoded(payload)|..];
      ParseEncoded(payload, bytes[|Encoded(payload)|..]);
    }
  }

  // A corrupt verdict is about a nonempty buffer and points at the next
  // candidate start.
  lemma {:induction false} CorruptSkips(bytes: seq<Byte>)
    requires Parse(bytes).Corrupt?
    ensures bytes != [] && Parse(bytes).discard == SeekNextMagic(bytes)
  {
    hide Checksum, SeekNextMagic;
  }

  // That is the first `H` behind the first byte, or the end.
  lemma {:induction false} DiscardStopsAtMagic(bytes: seq<Byte>)
    requires Parse(bytes).Corrupt?
    ensures var skipped := Parse(bytes).discard;
            && 1 <= skipped <= |bytes|
            && (forall i :: 1 <= i < skipped ==> bytes[i] != 0x48)
            && (skipped < |bytes| ==> bytes[skipped] == 0x48)
  {
    hide Checksum, SeekMagic;
  }

  // ---- every verdict, from the bytes ----

  // The wire layout of a frame: `HS`, the length low byte first, the payload,
  // and the checksum over length and payload, low byte first.
  lemma {:induction false} FrameLayout(payload: Payload)
    ensures var f := Encoded(payload);
            && |f| == 6 + |payload|
            && f[..4] == [0x48, 0x53, |payload| % 0x100, |payload| / 0x100]
            && f[4..4 + |payload|] == payload
            && f[4 + |payload|..] == ToLe16(Checksum(f[2..4 + |payload|]))
  {
    hide Checksum;
    assert Encoded(payload)[2..4 + |payload|] == Checked(payload);
  }

  // The bytes are those of the payload's frame, as far as they go, in everything
  // before its checksum.
  ghost predicate Begins(bytes: seq<Byte>, payload: Payload) {
    forall i :: 0 <= i < |bytes| && i < 4 + |payload| ==> bytes[i] == Encoded(payload)[i]
  }

  // Main result: the parser waits exactly while the bytes can still become a
  // frame - for a header that has not arrived, or for the announced length.
  lemma {:induction false} IncompleteExactly(bytes: seq<Byte>)
    ensures Parse(bytes).Incomplete? <==>
              exists payload: Payload :: |bytes| < |Encoded(payload)| && Begins(bytes, payload)
  {
    hide Encoded, Parse;
    if Parse(bytes).Incomplete? {
      var payload := Awaited(bytes);
    }
    if payload: Payload :| |bytes| < |Encoded(payload)| && Begins(bytes, payload) {
      BeginningIsIncomplete(bytes, payload);
    }
  }

  // A payload whose frame the bytes are the beginning of: the bytes that are
  // there, and any that are not.
  lemma {:induction false} Awaited(bytes: seq<Byte>) returns (payload: Payload)
    requires Parse(bytes).Incomplete?
    ensures |bytes| < |Encoded(payload)| && Begins(bytes, payload)
  {
    hide Encoded, Checksum;
    var n := if |bytes| >= 4 then LengthField(bytes) else if |bytes| == 3 then bytes[2] else 0;
    var zeros: seq<Byte> := seq(n, _ => 0);
    payload := if |bytes| <= 4 then zeros
               else if |bytes| < 4 + n then bytes[4..] + zeros[|bytes| - 4..] else bytes[4..4 + n];
    BeginsWithParts(bytes, payload);
  }

  lemma {:induction false} BeginsWithParts(bytes: seq<Byte>, payload: Payload)
    requires |bytes| >= 1 ==> bytes[0] == MAGIC_BYTES[0]
    requires |bytes| >= 2 ==> bytes[1] == MAGIC_BYTES[1]
    requires |bytes| >= 3 ==> bytes[2] == |payload| % 0x100
    requires |bytes| >= 4 ==> bytes[3] == |payload| / 0x100
    requires forall i :: 4 <= i < |bytes| && i < 4 + |payload| ==> bytes[i] == payload[i - 4]
    ensures Begins(bytes, payload)
  {
    hide Encoded, Checksum;
    FrameLayout(payload);
    var f := Encoded(payload);
    forall i | 0 <= i < |bytes| && i < 4 + |payload|
      ensures bytes[i] == f[i]
    {
      if i < 4 {
        assert f[i] == f[..4][i];
      } else {
        assert f[i] == f[4..4 + |payload|][i - 4];
      }
    }
  }

  lemma {:induction false} BeginningIsIncomplete(bytes: seq<Byte>, payload: Payload)
    requires |bytes| < |Encoded(payload)| && Begins(bytes, payload)
    ensures Parse(bytes).Incomplete?
  {
    hide Encoded, Checksum;
    FrameLayout(payload);
    BeginsWithHeader(bytes, payload);
  }

  lemma {:induction false} BeginsWithHeader(bytes: seq<Byte>, payload: Payload)
    requires Begins(bytes, payload)
    ensures |bytes| >= 1 ==> bytes[0] == MAGIC_BYTES[0]
    ensures |bytes| >= 2 ==> bytes[1] == MAGIC_BYTES[1]
    ensures |bytes| >= 4 ==> LengthField(bytes) == |payload|
  {
    hide Encoded, Checksum;
    FrameLayout(payload);
    assert forall i :: 0 <= i < 4 ==> Encoded(payload)[i] == Encoded(payload)[..4][i];
  }

  predicate Reports(bytes: seq<Byte>, error: FrameError) {
    Parse(bytes).Corrupt? && Parse(bytes).error == error
  }

  // Main result: each fault is reported exactly for its reason, as soon as the
  // bytes show it - an oversized length with the header alone.
  lemma {:induction false} FaultsAreExact(bytes: seq<Byte>)
    ensures Reports(bytes, BadMagic) <==>
              (|bytes| >= 1 && bytes[0] != 0x48) || (|bytes| >= 2 && bytes[1] != 0x53)
    ensures Reports(bytes, PayloadTooLarge) <==>
              |bytes| >= 4 && bytes[..2] == [0x48, 0x53] && (bytes[2] as int) + 0x100 * (bytes[3] as int) > 1024
    ensures Reports(bytes, BadCrc) <==>
              exists payload: Payload ::
                |Encoded(payload)| <= |bytes| && Begins(bytes, payload)
                && bytes[..|Encoded(payload)|] != Encoded(payload)
  {
    hide Encoded, Checksum, SeekNextMagic;
    if Reports(bytes, BadCrc) {
      var payload: Payload := bytes[4..4 + LengthField(bytes)];
      HeaderBegins(bytes, payload);
      if bytes[..|Encoded(payload)|] == Encoded(payload) {
        ParsesExactlyFrames(bytes, payload);
      }
    }
    if payload: Payload :| |Encoded(payload)| <= |bytes| && Begins(bytes, payload)
                           && bytes[..|Encoded(payload)|] != Encoded(payload) {
      FrameLayout(payload);
      BeginsWithHeader(bytes, payload);
      ParsesExactlyFrames(bytes, payload);
      BeginsWithPayload(bytes, payload);
    }
  }

  lemma {:induction false} BeginsWithPayload(bytes: seq<Byte>, payload: Payload)
    requires 4 + |payload| <= |bytes| && Begins(bytes, payload)
    ensures bytes[4..4 + |payload|] == payload
  {
    hide Encoded, Checksum;
    FrameLayout(payload);
    forall i | 0 <= i < |payload|
      ensures bytes[4 + i] == payload[i]
    {
      assert Encoded(payload)[4 + i] == Encoded(payload)[4..4 + |payload|][i];
    }
  }

  lemma {:induction false} HeaderBegins(bytes: seq<Byte>, payload: Payload)
    requires |bytes| >= 4 + |payload| && bytes[..2] == MAGIC_BYTES && LengthField(bytes) == |payload|
    requires bytes[4..4 + |payload|] == payload
    ensures Begins(bytes, payload)
  {
    Le16Injective(bytes[2], bytes[3]);
    assert bytes[0] == bytes[..2][0] && bytes[1] == bytes[..2][1];
    assert forall i :: 4 <= i < 4 + |payload| ==> bytes[i] == bytes[4..4 + |payload|][i - 4];
    BeginsWithParts(bytes, payload);
  }

  // An incomplete verdict never holds more than one maximal frame's bytes.
  lemma {:induction false} IncompleteIsShort(bytes: seq<Byte>)
    requires Parse(bytes).Incomplete?
    ensures |bytes| < MAX_LEN
  {
  }

  // Reading more bytes never changes a verdict that was reached; it can only
  // lengthen how far a corrupt buffer may be skipped.
  lemma {:induction false} VerdictIsStable(bytes: seq<Byte>, more: seq<Byte>)
    ensures Parse(bytes).Ok? ==> Parse(bytes + more) == Parse(bytes)
    ensures Parse(bytes).Corrupt? ==> Parse(bytes + more).Corrupt? && Parse(bytes + more).error == Parse(bytes).error
  {
    hide Checksum;
    if |bytes| >= 4 && LengthField(bytes) + OVERHEAD <= |bytes| {
      var n := LengthField(bytes);
      assert (bytes + more)[2..4 + n] == bytes[2..4 + n];
      assert (bytes + more)[4..4 + n] == bytes[4..4 + n];
    }
  }

  // A frame cut short anywhere is a frame still arriving, never corruption.
  lemma {:induction false} EveryPrefixIsIncomplete(payload: Payload, cut: nat)
    requires cut < |Encoded(payload)|
    ensures Parse(Encoded(payload)[..cut]) == Incomplete
  {
    hide Parse, Encoded;
    var whole := Encoded(payload);
    ParseEncoded(payload, []);
    assert whole + [] == whole && whole[..cut] + whole[cut..] == whole;
    VerdictIsStable(whole[..cut], whole[cut..]);
    if Parse(whole[..cut]).Ok? {
      ParsedIsEncoded(whole[..cut]);
    }
  }

  // Main result: a corrupt verdict is final - whatever still arrives, no frame
  // starts at position 0, so skipping it loses nothing.
  lemma {:induction false} CorruptIsHopeless(bytes: seq<Byte>, more: seq<Byte>, payload: Payload, rest: seq<Byte>)
    requires Parse(bytes).Corrupt?
    ensures bytes + more != Encoded(payload) + rest
  {
    hide Parse, Encoded;
    VerdictIsStable(bytes, more);
    ParseEncoded(payload, rest);
  }

  // ---- burst errors ----

  // Main result: any nonempty error confined to 16 consecutive bits of a
  // frame's payload and checksum, low bit of each byte first, is refused as a
  // checksum failure - for every payload length, whatever follows the frame.
  lemma {:induction false} BurstIsBadCrc(payload: Payload, received: seq<Byte>, rest: seq<Byte>, at: nat)
    requires |received| == |Encoded(payload)| && received[..4] == Encoded(payload)[..4]
    requires Burst(Bits(Encoded(payload)[4..]), Bits(received[4..]), at)
    ensures Parse(received + rest) == Corrupt(BadCrc, SeekNextMagic(received + rest))
  {
    hide Checksum, Bits;
    var sent, n := Encoded(payload), |payload|;
    EncodedParts(payload, []);
    assert sent + [] == sent;
    ReceivedFails(sent, received, n, at);
    var bytes := received + rest;
    assert bytes[0] == received[..4][0] && bytes[1] == received[..4][1];
    assert bytes[2] == received[..4][2] && bytes[3] == received[..4][3];
    assert sent[2] == sent[..4][2] && sent[3] == sent[..4][3];
    assert sent[0] == sent[..4][0] && sent[1] == sent[..4][1];
    assert bytes[2..4 + n] == received[2..4 + n];
    assert bytes[4 + n] == received[4 + n] && bytes[5 + n] == received[5 + n];
  }

  lemma {:induction false} PrependKeepsBurst(head: seq<Byte>, x: seq<Byte>, y: seq<Byte>, at: nat)
    requires Burst(Bits(x), Bits(y), at)
    ensures Burst(Bits(head + x), Bits(head + y), 8 * |head| + at)
  {
    hide Bits, Burst;
    BitsOfConcat(head, x);
    BitsOfConcat(head, y);
    PrependBits(Bits(head), Bits(x), Bits(y), at);
  }

  lemma {:induction false} PrependBits(head: seq<bool>, x: seq<bool>, y: seq<bool>, at: nat)
    requires Burst(x, y, at)
    ensures Burst(head + x, head + y, |head| + at)
  {
    var k := |head|;
    forall i | 0 <= i < k + |x| && (head + x)[i] != (head + y)[i]
      ensures k + at <= i < k + at + 16
    {
      assert i >= k && (head + x)[i] == x[i - k] && (head + y)[i] == y[i - k];
    }
    assert (head + x)[k..] == x && (head + y)[k..] == y;
  }

  lemma {:induction false} ReceivedFails(sent: seq<Byte>, received: seq<Byte>, n: nat, at: nat)
    requires |received| == |sent| == OVERHEAD + n && received[..4] == sent[..4]
    requires FromLe16(sent[4 + n], sent[5 + n]) == Checksum(sent[2..4 + n])
    requires Burst(Bits(sent[4..]), Bits(received[4..]), at)
    ensures FromLe16(received[4 + n], received[5 + n]) != Checksum(received[2..4 + n])
  {
    hide Bits, ChecksumBytes;
    var head := sent[2..4];
    assert received[2..4] == received[..4][2..] == head;
    PrependKeepsBurst(head, sent[4..], received[4..], at);
    assert head + sent[4..] == sent[2..4 + n] + sent[4 + n..];
    assert head + received[4..] == received[2..4 + n] + received[4 + n..];
    ChecksumComparison(sent[2..4 + n], sent[4 + n..]);
    ChecksumComparison(received[2..4 + n], received[4 + n..]);
    BurstIsDetected(sent[2..4 + n], sent[4 + n..], received[2..4 + n], received[4 + n..], 8 * |head| + at);
  }

  // Comparing little-endian values is comparing their bytes.
  lemma {:induction false} ChecksumComparison(data: seq<Byte>, crc: seq<Byte>)
    requires |crc| == 2
    ensures FromLe16(crc[0], crc[1]) == Checksum(data) <==> Checks(data, crc)
  {
    hide ChecksumBytes;
    var sum := ChecksumBytes(data);
    Le16Injective(crc[0], crc[1]);
    Le16Injective(sum[0], sum[1]);
    assert crc == [crc[0], crc[1]] && sum == [sum[0], sum[1]];
  }

  // ---- encoding into a buffer ----

  // Writes one frame over the front of `out` and touches nothing behind it, or
  // fails when the frame does not fit.
  method Encode(out: array<Byte>, payload: Payload) returns (r: Option<nat>)
    modifies out
    ensures r == if out.Length >= OVERHEAD + |payload| then Some(OVERHEAD + |payload|) else None
    ensures r.Some? ==> out[..] == Spliced(old(out[..]), 0, Encoded(payload))
  {
    hide Checksum, Checked, Encoded, Spliced, ToLe16;
    ghost var before := out[..];
    if out.Length < 2 {
      return None;
    }
    CopyInto(out, 0, MAGIC_BYTES);
    if out.Length < 4 || out.Length - 4 < |payload| {
      return None;
    }
    var size := |payload|;
    CopyInto(out, 4, payload);
    CopyInto(out, 2, ToLe16(size));
    var checked := out[..][2..4 + size];
    var checksum := ToLe16(Checksum(checked));
    if out.Length - 4 - size < 2 {
      return None;
    }
    CopyInto(out, 4 + size, checksum);
    WrittenInSteps(before, payload);
    return Some(OVERHEAD + size);
  }

  lemma {:induction false} WrittenInSteps(before: seq<Byte>, payload: Payload)
    requires OVERHEAD + |payload| <= |before|
    ensures var body := Spliced(Spliced(Spliced(before, 0, MAGIC_BYTES), 4, payload), 2, ToLe16(|payload|));
            && body[2..4 + |payload|] == Checked(payload)
            && Spliced(body, 4 + |payload|, ToLe16(Checksum(Checked(payload)))) == Spliced(before, 0, Encoded(payload))
  {
    hide Checksum, ToLe16;
    var body := Spliced(Spliced(Spliced(before, 0, MAGIC_BYTES), 4, payload), 2, ToLe16(|payload|));
    assert body[..4 + |payload|] == MAGIC_BYTES + Checked(payload);
    assert body[2..4 + |payload|] == Checked(payload);
    assert body[4 + |payload|..] == before[4 + |payload|..];
  }
}
