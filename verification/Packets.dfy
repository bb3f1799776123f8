// The sealed air packet: version and sequence number in the clear, the section
// of measurements sealed under the device key
// (common/src/packet.rs, common/src/packet/cipher.rs).
module Packets {
  import opened Words
  import opened UicrRecord
  import opened Measurements

  const AIR_MAGIC: seq<Byte> := [0x48, 0x50]
  const VERSION: Byte := 1
  const TAG_SIZE := 16
  const HEADER_SIZE := 5
  const MAX_BODY_LEN := MEASUREMENT_LEN * VARIANT_COUNT + TAG_SIZE
  const MAX_AIR_LEN := 2 + HEADER_SIZE + MAX_BODY_LEN
  const MAX_WIRE_LEN := 252

  type DeviceAddr = a: seq<Byte> | |a| == 6 witness [0, 0, 0, 0, 0, 0]

  // ---- the cipher ----

  // An authenticated cipher as its two operations on key, nonce, associated
  // data and text.
  datatype Aead = Aead(
    seal: (Key, seq<Byte>, seq<Byte>, seq<Byte>) -> seq<Byte>,
    open: (Key, seq<Byte>, seq<Byte>, seq<Byte>) -> Option<seq<Byte>>)
  {
    // Sealing adds a tag, and exactly what was sealed under the same key,
    // nonce and associated data opens (section 2.8 of RFC 8439).
    ghost predicate Lawful() {
      && (forall k, n, d, p :: |seal(k, n, d, p)| == |p| + TAG_SIZE)
      && (forall k, n, d, p, c :: open(k, n, d, c) == Some(p) <==> c == seal(k, n, d, p))
    }
  }

  datatype Cipher = Cipher(aead: Aead, key: Key, addr: DeviceAddr)

  function Nonce(number: Word): (n: seq<Byte>)
    ensures |n| == 12
  {
    ToLe32(number) + [0, 0, 0, 0, 0, 0, 0, 0]
  }

  function AssociatedData(addr: DeviceAddr, ver: Byte, number: Word): (d: seq<Byte>)
    ensures |d| == 11
  {
    addr + [ver] + ToLe32(number)
  }

  function Seal(cipher: Cipher, ver: Byte, number: Word, plaintext: seq<Byte>): seq<Byte> {
    cipher.aead.seal(cipher.key, Nonce(number), AssociatedData(cipher.addr, ver, number), plaintext)
  }

  function Open(cipher: Cipher, ver: Byte, number: Word, body: seq<Byte>): Option<seq<Byte>> {
    cipher.aead.open(cipher.key, Nonce(number), AssociatedData(cipher.addr, ver, number), body)
  }

  lemma {:induction false} OpensWhatItSealed(
    cipher: Cipher, ver: Byte, number: Word, plaintext: seq<Byte>, body: seq<Byte>)
    requires cipher.aead.Lawful()
    ensures Open(cipher, ver, number, body) == Some(plaintext) <==> body == Seal(cipher, ver, number, plaintext)
    ensures |Seal(cipher, ver, number, plaintext)| == |plaintext| + TAG_SIZE
  {
  }

  lemma {:induction false} Le32Distinct(a: Word, b: Word)
    requires ToLe32(a) == ToLe32(b)
    ensures a == b
  {
    var x, y := ToLe32(a), ToLe32(b);
    assert FromLe32(x[0], x[1], x[2], x[3]) == a && FromLe32(y[0], y[1], y[2], y[3]) == b;
  }

  // A nonce is its number: under one key, nonces repeat only if numbers do.
  lemma {:induction false} NonceInjective(a: Word, b: Word)
    requires Nonce(a) == Nonce(b)
    ensures a == b
  {
    assert Nonce(a)[..4] == ToLe32(a) && Nonce(b)[..4] == ToLe32(b);
    Le32Distinct(a, b);
  }

  // The associated data binds the address, the version and the number.
  lemma {:induction false} AssociatedDataInjective(
    addr: DeviceAddr, ver: Byte, number: Word, addr': DeviceAddr, ver': Byte, number': Word)
    requires AssociatedData(addr, ver, number) == AssociatedData(addr', ver', number')
    ensures addr == addr' && ver == ver' && number == number'
  {
    var d, d' := AssociatedData(addr, ver, number), AssociatedData(addr', ver', number');
    assert d[..6] == addr && d'[..6] == addr';
    assert d[6] == ver && d'[6] == ver';
    assert d[7..] == ToLe32(number) && d'[7..] == ToLe32(number');
    Le32Distinct(number, number');
  }

  // The laws can be met: a cipher that appends a constant tag meets them.
  lemma {:induction false} LawsAreConsistent() returns (a: Aead)
    ensures a.Lawful()
  {
    var tag: seq<Byte> := seq(TAG_SIZE, _ => 0);
    a := Aead(
      (k, n, d, p) => p + tag,
      (k, n, d, c: seq<Byte>) =>
        if |c| >= TAG_SIZE && c[|c| - TAG_SIZE..] == tag then Some(c[..|c| - TAG_SIZE]) else None);
    forall k, n, d, p, c
      ensures a.open(k, n, d, c) == Some(p) <==> c == a.seal(k, n, d, p)
    {
      if |c| >= TAG_SIZE {
        assert c == c[..|c| - TAG_SIZE] + c[|c| - TAG_SIZE..];
      }
      assert (p + tag)[..|p|] == p && (p + tag)[|p|..] == tag;
    }
  }

  // ---- the packet ----

  datatype Packet = Packet(ver: Byte, number: Word, body: seq<Byte>)

  datatype PacketError =
    | Header
    | UnknownVersion(ver: Byte)
    | Body(error: BodyError)
    | TooLong
    | MissingTag
    | Authentication

  datatype PacketResult = Decoded(metrics: Metrics) | Rejected(error: PacketError)

  function PacketBytes(p: Packet): (b: seq<Byte>)
    ensures |b| == HEADER_SIZE + |p.body|
  {
    [p.ver] + ToLe32(p.number) + p.body
  }

  // The sealing's wire contract: the number is the nonce, eight zero bytes behind
  // it, and address, version and number are the associated data.
  lemma {:induction false} SealLayout(cipher: Cipher, ver: Byte, number: Word, plaintext: seq<Byte>)
    ensures Seal(cipher, ver, number, plaintext) ==
              cipher.aead.seal(cipher.key, ToLe32(number) + [0, 0, 0, 0, 0, 0, 0, 0],
                cipher.addr + [ver] + ToLe32(number), plaintext)
  {
  }

  // The header's wire contract: the version, then the number little-endian.
  lemma {:induction false} GoldenHeader(body: seq<Byte>)
    ensures PacketBytes(Packet(VERSION, 0x0403_0201, body)) == [0x01, 0x01, 0x02, 0x03, 0x04] + body
    ensures Nonce(0x0403_0201) == [1, 2, 3, 4, 0, 0, 0, 0, 0, 0, 0, 0]
    ensures AssociatedData([10, 11, 12, 13, 14, 15], VERSION, 0x0403_0201) == [10, 11, 12, 13, 14, 15, 1, 1, 2, 3, 4]
  {
    hide ToLe32;
    GoldenWord();
  }

  // Keyless and version-blind; fails only on a short header.
  function ParsePacket(bytes: seq<Byte>): Option<Packet> {
    if |bytes| < HEADER_SIZE then None
    else Some(Packet(bytes[0], FromLe32(bytes[1], bytes[2], bytes[3], bytes[4]), bytes[5..]))
  }

  lemma {:induction false} ParsesExactlyPackets(bytes: seq<Byte>, p: Packet)
    ensures ParsePacket(bytes) == Some(p) <==> bytes == PacketBytes(p)
  {
    if ParsePacket(bytes) == Some(p) {
      Le32Injective(bytes[1], bytes[2], bytes[3], bytes[4]);
      assert bytes == [bytes[0]] + [bytes[1], bytes[2], bytes[3], bytes[4]] + bytes[5..];
    }
    if bytes == PacketBytes(p) {
      assert bytes[1..5] == ToLe32(p.number) && bytes[5..] == p.body;
      assert [bytes[1], bytes[2], bytes[3], bytes[4]] == bytes[1..5];
    }
  }

  datatype Stripped = Bare(packet: seq<Byte>) | TooShort | InvalidPrefix

  function StripAirMagic(bytes: seq<Byte>): Stripped {
    if |bytes| < 2 then TooShort
    else if bytes[..2] != AIR_MAGIC then InvalidPrefix
    else Bare(bytes[2..])
  }

  // Opens the body first; only an authentic body reaches a version decoder.
  function DecodePacket(p: Packet, cipher: Cipher): PacketResult {
    if |p.body| > MAX_BODY_LEN then Rejected(TooLong)
    else if |p.body| < TAG_SIZE then Rejected(MissingTag)
    else
      match Open(cipher, p.ver, p.number, p.body)
      case None => Rejected(Authentication)
      case Some(plaintext) =>
        if p.ver != VERSION then Rejected(UnknownVersion(p.ver))
        else
          match DecodeBody(plaintext)
          case Folded(x) => Decoded(x)
          case Refused(e) => Rejected(Body(e))
  }

  // The packet that carries these measurements.
  function SealedPacket(cipher: Cipher, number: Word, ms: seq<Measurement>): Packet {
    Packet(VERSION, number, Seal(cipher, VERSION, number, Section(ms)))
  }

  // ---- what the packet decoder accepts ----

  ghost predicate CarriedBy(ms: seq<Measurement>, x: Metrics) {
    ms != [] && DistinctKinds(ms) && Values(x) == Listed(ms)
  }

  lemma {:induction false} AtMostThreeKinds(ms: seq<Measurement>)
    requires DistinctKinds(ms)
    ensures |ms| <= VARIANT_COUNT
  {
    if |ms| > 3 {
      FourRepeatAKind(ms[0], ms[1], ms[2], ms[3]);
    }
  }

  lemma {:induction false} FourRepeatAKind(a: Measurement, b: Measurement, c: Measurement, d: Measurement)
    ensures SameKind(a, b) || SameKind(a, c) || SameKind(a, d) || SameKind(b, c) || SameKind(b, d) || SameKind(c, d)
  {
  }

  // Main result: a packet decodes exactly when it is a version-1 packet sealed
  // under this key and address from a nonempty list of distinct kinds, and it
  // decodes to exactly those values.
  lemma {:induction false} DecodesExactlySealedPackets(p: Packet, cipher: Cipher, x: Metrics)
    requires cipher.aead.Lawful()
    ensures DecodePacket(p, cipher) == Decoded(x) <==>
              exists ms :: CarriedBy(ms, x) && p == SealedPacket(cipher, p.number, ms)
  {
    if ms :| CarriedBy(ms, x) && p == SealedPacket(cipher, p.number, ms) {
      SealedPacketDecodes(p.number, cipher, ms, x);
    }
    if DecodePacket(p, cipher) == Decoded(x) {
      DecodedPacketIsSealed(p, cipher, x);
    }
  }

  lemma {:induction false} SealedPacketDecodes(number: Word, cipher: Cipher, ms: seq<Measurement>, x: Metrics)
    requires cipher.aead.Lawful() && CarriedBy(ms, x)
    ensures DecodePacket(SealedPacket(cipher, number, ms), cipher) == Decoded(x)
  {
    hide Values, Section, DecodeBody, Seal, Open, DistinctKinds;
    var p := SealedPacket(cipher, number, ms);
    AtMostThreeKinds(ms);
    BodyIsCharacterised(Section(ms));
    assert Accepts(Section(ms), ms, x);
    assert DecodeBody(Section(ms)) == Folded(x);
    OpensWhatItSealed(cipher, VERSION, number, Section(ms), p.body);
  }

  lemma {:induction false} DecodedPacketIsSealed(p: Packet, cipher: Cipher, x: Metrics)
    requires cipher.aead.Lawful() && DecodePacket(p, cipher) == Decoded(x)
    ensures exists ms :: CarriedBy(ms, x) && p == SealedPacket(cipher, p.number, ms)
  {
    hide Values, DistinctKinds, Section, DecodeBody, Seal, Open;
    var plaintext := Open(cipher, p.ver, p.number, p.body).value;
    OpensWhatItSealed(cipher, p.ver, p.number, plaintext, p.body);
    BodyIsCharacterised(plaintext);
    var ms :| Accepts(plaintext, ms, x);
    assert CarriedBy(ms, x) && p == SealedPacket(cipher, p.number, ms);
  }

  // Main result: every other rejection comes exactly for its reason, and in this
  // order: too many bytes, too few for a tag, bytes that were not sealed under
  // this key, address, version and number, and - of an authentic version-1
  // packet - the leftmost fault of what was sealed.
  lemma {:induction false} RejectionsAreExact(p: Packet, cipher: Cipher)
    requires cipher.aead.Lawful()
    ensures DecodePacket(p, cipher) == Rejected(TooLong) <==> |p.body| > 25
    ensures DecodePacket(p, cipher) == Rejected(MissingTag) <==> |p.body| < 16
    ensures DecodePacket(p, cipher) == Rejected(Authentication) <==>
              16 <= |p.body| <= 25 && forall plaintext :: p.body != Seal(cipher, p.ver, p.number, plaintext)
    ensures forall e :: DecodePacket(p, cipher) == Rejected(Body(e)) <==>
                          p.ver == VERSION && |p.body| <= 25 && SealsFault(p, cipher, e)
    ensures DecodePacket(p, cipher) != Rejected(Header)
  {
    hide Seal, Open, DecodeBody, SealsFault;
    forall plaintext
      ensures Open(cipher, p.ver, p.number, p.body) == Some(plaintext) <==>
                p.body == Seal(cipher, p.ver, p.number, plaintext)
      ensures p.body == Seal(cipher, p.ver, p.number, plaintext) ==> |p.body| >= TAG_SIZE
    {
      OpensWhatItSealed(cipher, p.ver, p.number, plaintext, p.body);
    }
    BodyFaultsAreExact(p, cipher);
  }

  // The body was sealed from a plaintext with this leftmost fault.
  ghost predicate SealsFault(p: Packet, cipher: Cipher, e: BodyError) {
    exists plaintext, ms ::
      p.body == Seal(cipher, VERSION, p.number, plaintext) && LeftmostFault(plaintext, ms, e)
  }

  lemma {:induction false} BodyFaultsAreExact(p: Packet, cipher: Cipher)
    requires cipher.aead.Lawful()
    ensures forall e :: DecodePacket(p, cipher) == Rejected(Body(e)) <==>
                          p.ver == VERSION && |p.body| <= 25 && SealsFault(p, cipher, e)
  {
    hide SealsFault;
    forall e
      ensures DecodePacket(p, cipher) == Rejected(Body(e)) <==>
                p.ver == VERSION && |p.body| <= 25 && SealsFault(p, cipher, e)
    {
      if DecodePacket(p, cipher) == Rejected(Body(e)) {
        RejectedSealsFault(p, cipher, e);
      }
      if p.ver == VERSION && |p.body| <= 25 && SealsFault(p, cipher, e) {
        SealedFaultIsRejected(p, cipher, e);
      }
    }
  }

  lemma {:induction false} RejectedSealsFault(p: Packet, cipher: Cipher, e: BodyError)
    requires cipher.aead.Lawful() && DecodePacket(p, cipher) == Rejected(Body(e))
    ensures p.ver == VERSION && |p.body| <= 25 && SealsFault(p, cipher, e)
  {
    hide Seal, Open, DecodeBody, LeftmostFault;
    var plaintext := Open(cipher, p.ver, p.number, p.body).value;
    OpensWhatItSealed(cipher, p.ver, p.number, plaintext, p.body);
    BodyIsCharacterised(plaintext);
    var ms :| LeftmostFault(plaintext, ms, e);
    assert p.ver == VERSION && |p.body| <= 25;
    assert p.body == Seal(cipher, VERSION, p.number, plaintext);
  }

  lemma {:induction false} SealedFaultIsRejected(p: Packet, cipher: Cipher, e: BodyError)
    requires cipher.aead.Lawful() && p.ver == VERSION && |p.body| <= 25 && SealsFault(p, cipher, e)
    ensures DecodePacket(p, cipher) == Rejected(Body(e))
  {
    hide Seal, Open, DecodeBody, LeftmostFault;
    var plaintext, ms :|
      p.body == Seal(cipher, VERSION, p.number, plaintext) && LeftmostFault(plaintext, ms, e);
    OpensWhatItSealed(cipher, p.ver, p.number, plaintext, p.body);
    BodyIsCharacterised(plaintext);
    assert p.ver == VERSION && p.body == Seal(cipher, p.ver, p.number, plaintext);
    assert DecodeBody(plaintext) == Refused(e);
  }

  // An unsupported version is reported only of an authentic packet, never of
  // noise.
  lemma {:induction false} VersionIsJudgedAfterTheSeal(p: Packet, cipher: Cipher, v: Byte)
    requires cipher.aead.Lawful()
    ensures DecodePacket(p, cipher) == Rejected(UnknownVersion(v)) <==>
              && v == p.ver != VERSION && |p.body| <= MAX_BODY_LEN
              && exists plaintext :: p.body == Seal(cipher, p.ver, p.number, plaintext)
  {
    hide Seal, Open, DecodeBody;
    var text := Open(cipher, p.ver, p.number, p.body);
    if text.Some? {
      OpensWhatItSealed(cipher, p.ver, p.number, text.value, p.body);
    }
    if plaintext :| p.body == Seal(cipher, p.ver, p.number, plaintext) {
      OpensWhatItSealed(cipher, p.ver, p.number, plaintext, p.body);
    }
  }

  // ---- encoding into a buffer ----

  lemma {:induction false} SectionGrows(ms: seq<Measurement>, i: nat)
    requires i < |ms|
    ensures Section(ms[..i + 1]) == Section(ms[..i]) + EncodedMeasurement(ms[i])
    decreases i
  {
    hide EncodedMeasurement;
    if i == 0 {
    } else {
      SectionGrows(ms[1..], i - 1);
      assert ms[1..][..i] == ms[..i + 1][1..] && ms[1..][..i - 1] == ms[..i][1..];
    }
  }

  // Writes the packet over `out` from `base` on: header, then the section, then
  // the section sealed in place with its tag behind it. `None` says it does not
  // fit; the buffer may then hold part of it.
  method EncodePacket(cipher: Cipher, number: Word, ms: seq<Measurement>, out: array<Byte>, base: nat)
    returns (r: Option<nat>)
    requires cipher.aead.Lawful() && base <= out.Length
    modifies out
    ensures r == if base + HEADER_SIZE + MEASUREMENT_LEN * |ms| + TAG_SIZE <= out.Length
                 then Some(HEADER_SIZE + MEASUREMENT_LEN * |ms| + TAG_SIZE) else None
    ensures r.Some? ==> out[..] == Spliced(old(out[..]), base, PacketBytes(SealedPacket(cipher, number, ms)))
    ensures out[..base] == old(out[..base])
  {
    hide Spliced, Section, EncodedMeasurement, ToLe32, Nonce, AssociatedData;
    ghost var before := out[..];
    if out.Length - base < 1 {
      return None;
    }
    CopyInto(out, base, [VERSION]);
    SplicedKeepsFront(before, base, [VERSION]);
    if out.Length - base < HEADER_SIZE {
      return None;
    }
    CopyInto(out, base + 1, ToLe32(number));
    var header := [VERSION] + ToLe32(number);
    SplicesJoin(before, base, [VERSION], ToLe32(number));
    SplicedKeepsFront(before, base, header);
    var written := 0;
    assert header + Section(ms[..0]) == header;
    for i := 0 to |ms|
      invariant written == MEASUREMENT_LEN * i && base + HEADER_SIZE + written <= out.Length
      invariant out[..] == Spliced(before, base, header + Section(ms[..i]))
      invariant out[..base] == before[..base]
    {
      if out.Length - base - HEADER_SIZE - written < MEASUREMENT_LEN {
        return None;
      }
      var entry := EncodedMeasurement(ms[i]);
      CopyInto(out, base + HEADER_SIZE + written, entry);
      SectionGrows(ms, i);
      SplicesJoin(before, base, header + Section(ms[..i]), entry);
      assert header + Section(ms[..i]) + entry == header + Section(ms[..i + 1]);
      SplicedKeepsFront(before, base, header + Section(ms[..i + 1]));
      written := written + MEASUREMENT_LEN;
    }
    assert ms[..|ms|] == ms;
    if out.Length - base - HEADER_SIZE - written < TAG_SIZE {
      return None;
    }
    SplicedPart(before, base, header + Section(ms), HEADER_SIZE);
    var data := out[base + HEADER_SIZE..base + HEADER_SIZE + written];
    assert (header + Section(ms))[HEADER_SIZE..] == Section(ms);
    var body := Seal(cipher, VERSION, number, data);
    CopyInto(out, base + HEADER_SIZE, body);
    SpliceBehind(before, base, header, Section(ms), body);
    SplicedKeepsFront(before, base, header + body);
    return Some(HEADER_SIZE + written + TAG_SIZE);
  }

  lemma {:induction false} SplicedKeepsFront(s: seq<Byte>, at: nat, data: seq<Byte>)
    requires at + |data| <= |s|
    ensures Spliced(s, at, data)[..at] == s[..at]
  {
  }

  lemma {:induction false} SplicedPart(s: seq<Byte>, at: nat, data: seq<Byte>, from: nat)
    requires at + |data| <= |s| && from <= |data|
    ensures Spliced(s, at, data)[at + from..at + |data|] == data[from..]
  {
  }

  lemma {:induction false} SpliceBehind(s: seq<Byte>, at: nat, head: seq<Byte>, a: seq<Byte>, b: seq<Byte>)
    requires at + |head| + |b| <= |s| && |a| <= |b|
    ensures Spliced(Spliced(s, at, head + a), at + |head|, b) == Spliced(s, at, head + b)
  {
    hide Spliced;
    SplicesJoin(s, at, head, a);
    SpliceCovers(Spliced(s, at, head), at + |head|, a, b);
    SplicesJoin(s, at, head, b);
  }

  // The packet behind the air magic, at the front of `out`.
  method EncodeAir(cipher: Cipher, number: Word, ms: seq<Measurement>, out: array<Byte>) returns (r: Option<nat>)
    requires cipher.aead.Lawful()
    modifies out
    ensures r == if 2 + HEADER_SIZE + MEASUREMENT_LEN * |ms| + TAG_SIZE <= out.Length
                 then Some(2 + HEADER_SIZE + MEASUREMENT_LEN * |ms| + TAG_SIZE) else None
    ensures r.Some? ==> out[..r.value] == AIR_MAGIC + PacketBytes(SealedPacket(cipher, number, ms))
  {
    hide Section, SealedPacket, PacketBytes;
    if out.Length < 2 {
      return None;
    }
    CopyInto(out, 0, AIR_MAGIC);
    assert out[..2] == AIR_MAGIC;
    var written := EncodePacket(cipher, number, ms, out, 2);
    if written.None? {
      return None;
    }
    SealedLength(cipher, number, ms);
    r := Some(2 + written.value);
    assert out[..r.value] == out[..2] + PacketBytes(SealedPacket(cipher, number, ms));
  }

  lemma {:induction false} SealedLength(cipher: Cipher, number: Word, ms: seq<Measurement>)
    requires cipher.aead.Lawful()
    ensures |PacketBytes(SealedPacket(cipher, number, ms))| == HEADER_SIZE + MEASUREMENT_LEN * |ms| + TAG_SIZE
  {
  }

  // Stripping the magic gives the packet back, and nothing else strips: what is
  // too short for the magic, and what starts with anything else, is told apart.
  lemma {:induction false} StripsExactlyTheMagic(bytes: seq<Byte>, packet: seq<Byte>)
    ensures StripAirMagic(bytes) == Bare(packet) <==> bytes == AIR_MAGIC + packet
    ensures StripAirMagic(bytes) == TooShort <==> |bytes| < 2
    ensures StripAirMagic(bytes) == InvalidPrefix <==> |bytes| >= 2 && (bytes[0] != 0x48 || bytes[1] != 0x50)
  {
  }
}
