// From the sensor to the API: the packet builder, where a number meets a key,
// and the whole way through receiver, serial line and gateway
// (firmware/sensor/src/packet_builder.rs, firmware/receiver/src/main.rs,
// gateway/src/main.rs, common/src/reading.rs).
module EndToEnd {
  import opened Words
  import opened Measurements
  import opened Packets
  import opened Observations
  import C = SeqCounter
  import D = Decoder
  import F = Frame
  import B = BoardLife

  // ---- building a packet ----

  datatype BuildError = Flash | Encode
  datatype BuildResult = Built(air: seq<Byte>) | NotBuilt(error: BuildError) | Halted

  // What one build does with the number the counter gives it.
  function Build(cipher: Cipher, ms: seq<Measurement>, number: C.Result): BuildResult {
    match number
    case Issued(n) =>
      if |ms| <= VARIANT_COUNT then Built(AIR_MAGIC + PacketBytes(SealedPacket(cipher, n, ms))) else NotBuilt(Encode)
    case FlashError => NotBuilt(Flash)
    case Panicked => Halted
  }

  class PacketBuilder {
    const counter: C.Counter
    const cipher: Cipher

    constructor (counter: C.Counter, cipher: Cipher)
      ensures this.counter == counter && this.cipher == cipher
    {
      this.counter, this.cipher := counter, cipher;
    }

    // Takes a number first, so a number is used up even when the packet then
    // does not fit; no packet ever leaves without a number of its own.
    method BuildPacket(ms: seq<Measurement>, env: C.Env) returns (r: BuildResult)
      requires counter.Valid() && cipher.aead.Lawful()
      modifies counter, counter.flash.words
      ensures counter.Valid()
      ensures var after := C.Next(old(counter.flash.Contents()), old(counter.State()), env);
              && counter.flash.Contents() == after.words && counter.State() == after.ram
              && r == Build(cipher, ms, after.result)
              && (r.Halted? <==> after.result.Panicked?) && (r == NotBuilt(Flash) <==> after.result.FlashError?)
              && (r == NotBuilt(Encode) <==> after.result.Issued? && |ms| > 3)
              && (r.Built? ==> r.air == [0x48, 0x50] + PacketBytes(SealedPacket(cipher, old(counter.nextSeq), ms)))
    {
      hide C.Next, SealedPacket, PacketBytes;
      C.CallsAreExact(counter.flash.Contents(), counter.State(), env);
      var taken := counter.TakeNext(env);
      if taken.FlashError? {
        return NotBuilt(Flash);
      }
      if taken.Panicked? {
        return Halted;
      }
      var buffer := new Byte[MAX_AIR_LEN];
      var length := EncodeAir(cipher, taken.n, ms, buffer);
      if length.None? {
        return NotBuilt(Encode);
      }
      return Built(buffer[..length.value]);
    }
  }

  // Over every life of a board, no two packets are sealed under the same key
  // and nonce.
  lemma {:induction false} CipherNoncesNeverRepeat(states: seq<B.Board>, events: seq<B.Event>, k: nat, i: nat, j: nat)
    requires B.IsLife(states, events) && B.PremisesHold(states, events) && B.Starts(states[0])
    requires k < |states| && i < j < |states[k].issued|
    ensures var (key, n) := states[k].issued[i];
            var (key', n') := states[k].issued[j];
            (key, Nonce(n)) != (key', Nonce(n'))
  {
    hide B.PremisesHold, B.Starts;
    B.NoncesNeverRepeat(states, events, k);
    var (key, n) := states[k].issued[i];
    var (key', n') := states[k].issued[j];
    if Nonce(n) == Nonce(n') {
      NonceInjective(n, n');
    }
  }

  // ---- the serial line ----

  ghost predicate AllSendable(journeys: seq<Journey>) {
    forall i :: 0 <= i < |journeys| ==> Sendable(journeys[i])
  }

  // The payloads the receiver frames, in order.
  ghost function Payloads(journeys: seq<Journey>): (p: seq<F.Payload>)
    requires AllSendable(journeys)
    ensures |p| == |journeys|
  {
    seq(|journeys|, i requires 0 <= i < |journeys| && Sendable(journeys[i]) => PayloadFor(journeys[i]))
  }

  ghost function PayloadFor(j: Journey): F.Payload
    requires Sendable(j)
  {
    HeardFits(j);
    ObservationBytes(Heard(j))
  }

  // The sensor's packet builder fits the packet, and the receiver strips it to
  // what it keeps and reads its number without a key.
  ghost predicate SentAndHeard(j: Journey) {
    var r := Build(j.cipher, j.ms, C.Issued(j.number));
    && r.Built? && |r.air| <= MAX_AIR_LEN
    && StripAirMagic(r.air) == Bare(Heard(j).packet)
    && ParsePacket(Heard(j).packet).Some? && ParsePacket(Heard(j).packet).value.number == j.number
  }

  // Main result: any number of packets, each built by its own sensor over its
  // own distinct measurements, heard and framed by the receiver and read by the
  // gateway in pieces of any size, with bytes between the frames that hold no
  // frame start, open at the API - each under its own key and address, in
  // order - to the number, the address and the metrics that were sent.
  lemma {:induction false} ReadingsArriveIntact(
    journeys: seq<Journey>, garbage: seq<seq<Byte>>, pieces: seq<seq<Byte>>, now: int)
    requires AllSendable(journeys)
    requires |garbage| == |journeys| + 1 && forall i :: 0 <= i < |garbage| ==> D.Garbage(garbage[i])
    requires pieces != [] && D.Concat(pieces) == D.Stream(Payloads(journeys), garbage)
    ensures forall i :: 0 <= i < |journeys| ==> SentAndHeard(journeys[i])
    ensures D.Feed([], pieces) == D.Drained(Payloads(journeys), [])
    ensures forall i :: 0 <= i < |journeys| ==> ArrivesIntact(journeys[i], D.Feed([], pieces).payloads[i], now)
  {
    hide D.Feed, D.Drain, D.Stream, D.Concat, ArrivesIntact, SentAndHeard, ObservationBytes;
    D.ChunkingDoesNotMatter([], pieces);
    assert [] + D.Concat(pieces) == D.Concat(pieces);
    D.CleanStreamDecodes(Payloads(journeys), garbage);
    forall i | 0 <= i < |journeys|
      ensures SentAndHeard(journeys[i]) && ArrivesIntact(journeys[i], Payloads(journeys)[i], now)
    {
      JourneyStarts(journeys[i]);
      JourneyArrives(journeys[i], now);
    }
  }

  lemma {:induction false} JourneyStarts(j: Journey)
    requires Sendable(j)
    ensures SentAndHeard(j)
  {
    hide StripAirMagic, ParsePacket, SealedPacket, PacketBytes;
    AtMostThreeKinds(j.ms);
    HeardFits(j);
    ReceiverHears(j);
  }

  ghost predicate ArrivesIntact(j: Journey, payload: seq<Byte>, now: int) {
    exists o, x ::
      && ParseObservation(payload) == Some(o)
      && CarriedBy(j.ms, x)
      && OpenEnvelope(ToEnvelope(o, now), j.cipher) == Read(Reading(j.cipher.addr, j.number, j.rssi, now - j.age, x))
  }

  lemma {:induction false} JourneyArrives(j: Journey, now: int)
    requires Sendable(j)
    ensures ArrivesIntact(j, ObservationBytes(Heard(j)), now)
  {
    hide ObservationBytes, OpenEnvelope, ParseObservation, CarriedBy;
    var x := PayloadOpens(j, now);
  }
}
