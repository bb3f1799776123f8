// What the receiver adds to a packet and the gateway takes off again
// (common/src/observation.rs, common/src/observation_envelope.rs,
// common/src/reading.rs).
module Observations {
  import opened Words
  import opened Measurements
  import opened Packets
  import F = Frame

  const HEADER_LEN := 11

  datatype Observation = Observation(addr: DeviceAddr, age: Word, rssi: I8, packet: seq<Byte>)

  function ObservationHeader(o: Observation): (b: seq<Byte>)
    ensures |b| == HEADER_LEN
  {
    o.addr + ToLe32(o.age) + [Unsigned8(o.rssi)]
  }

  function ObservationBytes(o: Observation): (b: seq<Byte>)
    ensures |b| == HEADER_LEN + |o.packet|
  {
    ObservationHeader(o) + o.packet
  }

  // Everything behind the fixed header is the packet.
  function ParseObservation(bytes: seq<Byte>): Option<Observation> {
    if |bytes| < HEADER_LEN then None
    else
      Some(Observation(
             bytes[..6],
             FromLe32(bytes[6], bytes[7], bytes[8], bytes[9]),
             Signed8(bytes[10]),
             bytes[HEADER_LEN..]))
  }

  lemma {:induction false} ParsesExactlyObservations(bytes: seq<Byte>, o: Observation)
    ensures ParseObservation(bytes) == Some(o) <==> bytes == ObservationBytes(o)
  {
    hide ToLe32;
    if ParseObservation(bytes) == Some(o) {
      Le32Injective(bytes[6], bytes[7], bytes[8], bytes[9]);
      assert bytes == bytes[..6] + [bytes[6], bytes[7], bytes[8], bytes[9]] + [bytes[10]] + bytes[11..];
    }
    if bytes == ObservationBytes(o) {
      assert bytes[..6] == o.addr && bytes[6..10] == ToLe32(o.age);
      assert [bytes[6], bytes[7], bytes[8], bytes[9]] == bytes[6..10];
      assert bytes[10] == Unsigned8(o.rssi) && bytes[11..] == o.packet;
    }
  }

  // The header's wire contract: address, age little-endian, signal strength.
  lemma {:induction false} GoldenObservation(packet: seq<Byte>)
    ensures ObservationBytes(Observation([10, 11, 12, 13, 14, 15], 0x0403_0201, -67, packet)) ==
              [10, 11, 12, 13, 14, 15, 1, 2, 3, 4, 0xBD] + packet
  {
    hide ToLe32;
    GoldenWord();
  }

  // Writes the observation over `out` from `base` on, or fails when it does
  // not fit.
  method EncodeObservation(o: Observation, out: array<Byte>, base: nat) returns (r: Option<nat>)
    requires base <= out.Length
    modifies out
    ensures r == if base + HEADER_LEN + |o.packet| <= out.Length then Some(HEADER_LEN + |o.packet|) else None
    ensures r.Some? ==> out[..] == Spliced(old(out[..]), base, ObservationBytes(o))
  {
    hide Spliced, ToLe32;
    ghost var before := out[..];
    var room := out.Length - base;
    if room < 6 {
      return None;
    }
    CopyInto(out, base, o.addr);
    if room < 10 {
      return None;
    }
    CopyInto(out, base + 6, ToLe32(o.age));
    SplicesJoin(before, base, o.addr, ToLe32(o.age));
    if room < HEADER_LEN {
      return None;
    }
    CopyInto(out, base + 10, [Unsigned8(o.rssi)]);
    SplicesJoin(before, base, o.addr + ToLe32(o.age), [Unsigned8(o.rssi)]);
    if room - HEADER_LEN < |o.packet| {
      return None;
    }
    CopyInto(out, base + HEADER_LEN, o.packet);
    SplicesJoin(before, base, ObservationHeader(o), o.packet);
    return Some(HEADER_LEN + |o.packet|);
  }

  // ---- the envelope and the reading ----

  // Times are integer milliseconds.
  datatype Envelope = Envelope(addr: DeviceAddr, rssi: I8, receivedAt: int, packet: seq<Byte>)

  function ToEnvelope(o: Observation, now: int): Envelope {
    Envelope(o.addr, o.rssi, now - o.age, o.packet)
  }

  datatype Reading = Reading(addr: DeviceAddr, number: Word, rssi: I8, receivedAt: int, metrics: Metrics)

  datatype Opened = Read(reading: Reading) | Failed(error: PacketError)

  function OpenEnvelope(e: Envelope, cipher: Cipher): Opened {
    match ParsePacket(e.packet)
    case None => Failed(Header)
    case Some(p) =>
      match DecodePacket(p, cipher)
      case Rejected(error) => Failed(error)
      case Decoded(metrics) => Read(Reading(e.addr, p.number, e.rssi, e.receivedAt, metrics))
  }

  // Main result: an envelope opens to a reading exactly when its packet was
  // sealed under this key and address with the reading's number, from distinct
  // measurements that are the reading's metrics; the rest comes off the
  // envelope.
  lemma {:induction false} OpensExactlySealedReadings(e: Envelope, cipher: Cipher, r: Reading)
    requires cipher.aead.Lawful()
    ensures OpenEnvelope(e, cipher) == Read(r) <==>
              && (r.addr, r.rssi, r.receivedAt) == (e.addr, e.rssi, e.receivedAt)
              && exists ms :: CarriedBy(ms, r.metrics) && e.packet == PacketBytes(SealedPacket(cipher, r.number, ms))
  {
    hide DecodePacket, PacketBytes, SealedPacket, CarriedBy, ParsePacket;
    if OpenEnvelope(e, cipher) == Read(r) {
      var p := ParsePacket(e.packet).value;
      ParsesExactlyPackets(e.packet, p);
      DecodesExactlySealedPackets(p, cipher, r.metrics);
      assert p.number == r.number;
    }
    if ms :| CarriedBy(ms, r.metrics) && e.packet == PacketBytes(SealedPacket(cipher, r.number, ms)) {
      var p := SealedPacket(cipher, r.number, ms);
      ParsesExactlyPackets(e.packet, p);
      SealedNumber(cipher, r.number, ms);
      DecodesExactlySealedPackets(p, cipher, r.metrics);
    }
  }

  // And it fails exactly as its packet does: with the header when there is not
  // enough of one, otherwise with what the packet decoder reports.
  lemma {:induction false} FailsExactlyAsThePacket(e: Envelope, cipher: Cipher)
    requires cipher.aead.Lawful()
    ensures OpenEnvelope(e, cipher) == Failed(Header) <==> |e.packet| < 5
    ensures forall error :: error != Header ==>
              (OpenEnvelope(e, cipher) == Failed(error) <==>
               exists p :: e.packet == PacketBytes(p) && DecodePacket(p, cipher) == Rejected(error))
  {
    hide DecodePacket, PacketBytes;
    forall p
      ensures ParsePacket(e.packet) == Some(p) <==> e.packet == PacketBytes(p)
      ensures DecodePacket(p, cipher) != Rejected(Header)
    {
      ParsesExactlyPackets(e.packet, p);
      RejectionsAreExact(p, cipher);
    }
  }

  lemma {:induction false} SealedNumber(cipher: Cipher, number: Word, ms: seq<Measurement>)
    ensures SealedPacket(cipher, number, ms).number == number
  {
  }

  // ---- the whole way ----

  // One packet on its way: who sent it, what it carries, and how it was heard.
  datatype Journey = Journey(cipher: Cipher, number: Word, ms: seq<Measurement>, age: Word, rssi: I8)

  ghost predicate Sendable(j: Journey) {
    j.cipher.aead.Lawful() && j.ms != [] && DistinctKinds(j.ms)
  }

  // The bytes the receiver strips, keeps and frames.
  function Heard(j: Journey): Observation {
    Observation(j.cipher.addr, j.age, j.rssi, PacketBytes(SealedPacket(j.cipher, j.number, j.ms)))
  }

  lemma {:induction false} HeardFits(j: Journey)
    requires Sendable(j)
    ensures |Heard(j).packet| <= MAX_WIRE_LEN && |ObservationBytes(Heard(j))| <= F.MAX_PAYLOAD_LEN
    ensures 2 + |Heard(j).packet| <= MAX_AIR_LEN
  {
    hide ObservationBytes;
    AtMostThreeKinds(j.ms);
    SealedLength(j.cipher, j.number, j.ms);
  }

  // The receiver's half: what is on the air strips to a packet whose number it
  // can read without a key.
  lemma {:induction false} ReceiverHears(j: Journey)
    requires Sendable(j)
    ensures StripAirMagic(AIR_MAGIC + Heard(j).packet) == Bare(Heard(j).packet)
    ensures ParsePacket(Heard(j).packet).Some? && ParsePacket(Heard(j).packet).value.number == j.number
  {
    StripsExactlyTheMagic(AIR_MAGIC + Heard(j).packet, Heard(j).packet);
    ParsesExactlyPackets(Heard(j).packet, SealedPacket(j.cipher, j.number, j.ms));
  }

  // The gateway's and the API's half, from one frame's payload.
  lemma {:induction false} PayloadOpens(j: Journey, now: int) returns (x: Metrics)
    requires Sendable(j)
    ensures CarriedBy(j.ms, x)
    ensures ParseObservation(ObservationBytes(Heard(j))) == Some(Heard(j))
    ensures OpenEnvelope(ToEnvelope(Heard(j), now), j.cipher)
            == Read(Reading(j.cipher.addr, j.number, j.rssi, now - j.age, x))
  {
    hide OpenEnvelope, PacketBytes, SealedPacket;
    ParsesExactlyObservations(ObservationBytes(Heard(j)), Heard(j));
    x := FoldTakesSection(j.ms, [], NO_METRICS, false);
    assert CarriedBy(j.ms, x);
    OpensExactlySealedReadings(ToEnvelope(Heard(j), now), j.cipher, Reading(j.cipher.addr, j.number, j.rssi,
      now - j.age, x));
  }
}
