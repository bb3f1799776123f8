// Measurements on the wire and the version-1 body: a section of
// id-and-value entries folded into named slots
// (common/src/wire.rs, common/src/measurement.rs, common/src/packet/v1.rs).
module Measurements {
  import opened Words

  // ---- little-endian integers ----

  type U16 = v: int | 0 <= v < 0x1_0000
  type I16 = v: int | -0x8000 <= v < 0x8000
  type I8 = v: int | -0x80 <= v < 0x80

  // Two's complement at 16 and 8 bits.
  function Unsigned16(v: I16): U16 {
    if v < 0 then v + 0x1_0000 else v
  }

  function Signed16(v: U16): I16 {
    if v >= 0x8000 then v - 0x1_0000 else v
  }

  function Unsigned8(v: I8): Byte {
    if v < 0 then v + 0x100 else v
  }

  function Signed8(v: Byte): I8 {
    if v >= 0x80 then v - 0x100 else v
  }

  // ---- one measurement ----

  datatype Measurement =
    | Battery(millivolts: U16)
    | Temperature(centiCelsius: I16)
    | Humidity(centiPercent: U16)

  datatype MeasurementError = Truncated | UnknownId(id: Byte)

  datatype MeasurementResult = Measured(m: Measurement, read: nat) | Unreadable(error: MeasurementError)

  const MEASUREMENT_LEN := 3
  const VARIANT_COUNT := 3

  function EncodedMeasurement(m: Measurement): (b: seq<Byte>)
    ensures |b| == MEASUREMENT_LEN
  {
    match m
    case Battery(v) => [0x01] + ToLe16(v)
    case Temperature(v) => [0x02] + ToLe16(Unsigned16(v))
    case Humidity(v) => [0x03] + ToLe16(v)
  }

  // Reads one entry off the front; bytes behind it are ignored.
  function DecodeMeasurement(bytes: seq<Byte>): MeasurementResult {
    if bytes == [] then Unreadable(Truncated)
    else if !(1 <= bytes[0] <= 3) then Unreadable(UnknownId(bytes[0]))
    else if |bytes| < MEASUREMENT_LEN then Unreadable(Truncated)
    else
      var v := FromLe16(bytes[1], bytes[2]);
      Measured(match bytes[0]
               case 1 => Battery(v)
               case 2 => Temperature(Signed16(v))
               case _ => Humidity(v),
               MEASUREMENT_LEN)
  }

  lemma {:induction false} MeasurementRoundTrip(m: Measurement, rest: seq<Byte>)
    ensures DecodeMeasurement(EncodedMeasurement(m) + rest) == Measured(m, MEASUREMENT_LEN)
  {
  }

  // Nothing else reads as a measurement.
  lemma {:induction false} ReadMeasurementIsEncoded(bytes: seq<Byte>)
    requires DecodeMeasurement(bytes).Measured?
    ensures var r := DecodeMeasurement(bytes);
            r.read == MEASUREMENT_LEN <= |bytes| && bytes == EncodedMeasurement(r.m) + bytes[MEASUREMENT_LEN..]
  {
    Le16Injective(bytes[1], bytes[2]);
    assert bytes == [bytes[0], bytes[1], bytes[2]] + bytes[MEASUREMENT_LEN..];
  }

  // What does not read: the beginning of an entry, or an id no entry has.
  lemma {:induction false} UnreadableExactly(bytes: seq<Byte>)
    ensures DecodeMeasurement(bytes) == Unreadable(Truncated) <==>
              exists m :: |bytes| < |EncodedMeasurement(m)| && bytes == EncodedMeasurement(m)[..|bytes|]
    ensures forall id :: DecodeMeasurement(bytes) == Unreadable(UnknownId(id)) <==>
                           bytes != [] && id == bytes[0] && forall m :: EncodedMeasurement(m)[0] != id
  {
    hide DecodeMeasurement, EncodedMeasurement;
    if DecodeMeasurement(bytes) == Unreadable(Truncated) {
      var m := BeginningOf(bytes);
    }
    if m :| |bytes| < |EncodedMeasurement(m)| && bytes == EncodedMeasurement(m)[..|bytes|] {
      BeginningIsTruncated(bytes, m);
    }
    UnknownIsUnused(bytes);
  }

  lemma {:induction false} BeginningOf(bytes: seq<Byte>) returns (m: Measurement)
    requires DecodeMeasurement(bytes) == Unreadable(Truncated)
    ensures |bytes| < |EncodedMeasurement(m)| && bytes == EncodedMeasurement(m)[..|bytes|]
  {
    hide ToLe16;
    var v: Byte := if |bytes| == 2 then bytes[1] else 0;
    LowByte(v);
    m := if bytes == [] || bytes[0] == 1 then Battery(v)
         else if bytes[0] == 2 then Temperature(v) else Humidity(v);
    assert bytes != [] ==> bytes[0] == EncodedMeasurement(m)[0];
    assert |bytes| == 2 ==> bytes[1] == EncodedMeasurement(m)[1];
  }

  lemma {:induction false} LowByte(v: Byte)
    ensures ToLe16(v)[0] == v
  {
  }

  lemma {:induction false} BeginningIsTruncated(bytes: seq<Byte>, m: Measurement)
    requires |bytes| < |EncodedMeasurement(m)| && bytes == EncodedMeasurement(m)[..|bytes|]
    ensures DecodeMeasurement(bytes) == Unreadable(Truncated)
  {
    assert bytes != [] ==> bytes[0] == EncodedMeasurement(m)[0];
  }

  lemma {:induction false} UnknownIsUnused(bytes: seq<Byte>)
    ensures forall id :: DecodeMeasurement(bytes) == Unreadable(UnknownId(id)) <==>
                           bytes != [] && id == bytes[0] && forall m :: EncodedMeasurement(m)[0] != id
  {
    hide ToLe16;
    assert EncodedMeasurement(Battery(0))[0] == 1 && EncodedMeasurement(Temperature(0))[0] == 2;
    assert EncodedMeasurement(Humidity(0))[0] == 3;
  }

  // ---- the section ----

  datatype Metrics = Metrics(battery: Option<U16>, temperature: Option<I16>, humidity: Option<U16>)

  datatype BodyError = BadMeasurement(error: MeasurementError) | Duplicate(m: Measurement) | Empty

  datatype BodyResult = Folded(metrics: Metrics) | Refused(error: BodyError)

  predicate SameKind(a: Measurement, b: Measurement) {
    (a.Battery? && b.Battery?) || (a.Temperature? && b.Temperature?) || (a.Humidity? && b.Humidity?)
  }

  predicate Taken(slots: Metrics, m: Measurement) {
    match m
    case Battery(_) => slots.battery.Some?
    case Temperature(_) => slots.temperature.Some?
    case Humidity(_) => slots.humidity.Some?
  }

  function Filled(slots: Metrics, m: Measurement): Metrics {
    match m
    case Battery(v) => slots.(battery := Some(v))
    case Temperature(v) => slots.(temperature := Some(v))
    case Humidity(v) => slots.(humidity := Some(v))
  }

  const NO_METRICS := Metrics(None, None, None)

  // The fold of a section into slots that already hold something.
  function Fold(rest: seq<Byte>, slots: Metrics, any: bool): BodyResult
    decreases |rest|
  {
    if rest == [] then (if any then Folded(slots) else Refused(Empty))
    else
      match DecodeMeasurement(rest)
      case Unreadable(e) => Refused(BadMeasurement(e))
      case Measured(m, n) =>
        if Taken(slots, m) then Refused(Duplicate(m))
        else Fold(rest[n..], Filled(slots, m), true)
  }

  function DecodeBody(body: seq<Byte>): BodyResult {
    Fold(body, NO_METRICS, false)
  }

  // Walks a section; an unreadable entry is its last item.
  class Walk {
    var rest: seq<Byte>

    constructor (section: seq<Byte>)
      ensures rest == section
    {
      rest := section;
    }

    method Next() returns (item: Option<MeasurementResult>)
      modifies this
      ensures item == if old(rest) == [] then None else Some(DecodeMeasurement(old(rest)))
      ensures rest == if item.Some? && item.value.Measured? then old(rest)[item.value.read..] else []
    {
      if rest == [] {
        return None;
      }
      var m := DecodeMeasurement(rest);
      rest := if m.Measured? then rest[m.read..] else [];
      return Some(m);
    }
  }

  // The version-1 decoder: three slots and a flag, filled in one pass.
  method DecodeV1(body: seq<Byte>) returns (r: BodyResult)
    ensures r == DecodeBody(body)
  {
    var walk := new Walk(body);
    var battery: Option<U16> := None;
    var temperature: Option<I16> := None;
    var humidity: Option<U16> := None;
    var hasMeasurements := false;
    while true
      invariant Fold(walk.rest, Metrics(battery, temperature, humidity), hasMeasurements) == DecodeBody(body)
      decreases |walk.rest|
    {
      var next := walk.Next();
      if next.None? {
        break;
      }
      if next.value.Unreadable? {
        return Refused(BadMeasurement(next.value.error));
      }
      var m := next.value.m;
      match m {
        case Battery(v) =>
          if battery.Some? {
            return Refused(Duplicate(m));
          }
          battery := Some(v);
        case Temperature(v) =>
          if temperature.Some? {
            return Refused(Duplicate(m));
          }
          temperature := Some(v);
        case Humidity(v) =>
          if humidity.Some? {
            return Refused(Duplicate(m));
          }
          humidity := Some(v);
      }
      hasMeasurements := true;
    }
    return if hasMeasurements then Folded(Metrics(battery, temperature, humidity)) else Refused(Empty);
  }

  // ---- what the decoder accepts ----

  function Section(ms: seq<Measurement>): (b: seq<Byte>)
    ensures |b| == MEASUREMENT_LEN * |ms|
    decreases |ms|
  {
    if ms == [] then [] else EncodedMeasurement(ms[0]) + Section(ms[1..])
  }

  ghost predicate DistinctKinds(ms: seq<Measurement>) {
    forall i, j :: 0 <= i < j < |ms| ==> !SameKind(ms[i], ms[j])
  }

  // The measurements held in the slots.
  ghost function Values(x: Metrics): set<Measurement> {
    (match x.battery case Some(v) => {Battery(v)} case None => {})
    + (match x.temperature case Some(v) => {Temperature(v)} case None => {})
    + (match x.humidity case Some(v) => {Humidity(v)} case None => {})
  }

  ghost function Listed(ms: seq<Measurement>): set<Measurement> {
    set m | m in ms
  }

  lemma {:induction false} ValuesInjective(x: Metrics, y: Metrics)
    requires Values(x) == Values(y)
    ensures x == y
  {
    forall m
      ensures m in Values(x) <==> m in Values(y)
    {
    }
    assert x.battery.Some? ==> Battery(x.battery.value) in Values(y);
    assert y.battery.Some? ==> Battery(y.battery.value) in Values(x);
    assert x.temperature.Some? ==> Temperature(x.temperature.value) in Values(y);
    assert y.temperature.Some? ==> Temperature(y.temperature.value) in Values(x);
    assert x.humidity.Some? ==> Humidity(x.humidity.value) in Values(y);
    assert y.humidity.Some? ==> Humidity(y.humidity.value) in Values(x);
  }

  // A kind is taken exactly when a measurement of that kind is held.
  lemma {:induction false} TakenIsHeld(x: Metrics, m: Measurement)
    ensures Taken(x, m) <==> exists h :: h in Values(x) && SameKind(h, m)
    ensures !Taken(x, m) ==> Values(Filled(x, m)) == Values(x) + {m}
  {
    if Taken(x, m) {
      var h := match m
        case Battery(_) => Battery(x.battery.value)
        case Temperature(_) => Temperature(x.temperature.value)
        case Humidity(_) => Humidity(x.humidity.value);
      assert h in Values(x) && SameKind(h, m);
    }
  }

  // The body is a section of distinct kinds and x holds exactly its values.
  ghost predicate Accepts(body: seq<Byte>, ms: seq<Measurement>, x: Metrics) {
    ms != [] && DistinctKinds(ms) && body == Section(ms) && Values(x) == Listed(ms)
  }

  // e is the leftmost fault: everything before it is a section of distinct
  // kinds, and what follows is unreadable, repeats a kind, or is missing.
  ghost predicate LeftmostFault(body: seq<Byte>, ms: seq<Measurement>, e: BodyError) {
    && DistinctKinds(ms) && Section(ms) <= body
    && var rest := body[|Section(ms)|..];
       match e
       case Empty => ms == [] && body == []
       case BadMeasurement(why) => rest != [] && DecodeMeasurement(rest) == Unreadable(why)
       case Duplicate(m) =>
         DecodeMeasurement(rest) == Measured(m, MEASUREMENT_LEN) && exists h :: h in ms && SameKind(h, m)
  }

  // The wire contract, byte for byte: 2950 mV, 21.05 degrees and 48.75 percent,
  // and a negative temperature in two's complement.
  lemma {:induction false} GoldenBytes()
    ensures Section([Battery(2950), Temperature(2105), Humidity(4875)]) ==
              [0x01, 0x86, 0x0B, 0x02, 0x39, 0x08, 0x03, 0x0B, 0x13]
    ensures EncodedMeasurement(Temperature(-1250)) == [0x02, 0x1E, 0xFB]
  {
    var ms := [Battery(2950), Temperature(2105), Humidity(4875)];
    assert ms[1..] == [Temperature(2105), Humidity(4875)] && ms[1..][1..] == [Humidity(4875)];
  }

  // ---- both directions ----

  ghost predicate Apart(x: Metrics, ms: seq<Measurement>) {
    forall i :: 0 <= i < |ms| ==> !Taken(x, ms[i])
  }

  lemma {:induction false} FilledStaysApart(x: Metrics, ms: seq<Measurement>)
    requires ms != [] && DistinctKinds(ms) && Apart(x, ms)
    ensures DistinctKinds(ms[1..]) && Apart(Filled(x, ms[0]), ms[1..])
  {
    assert forall i :: 0 <= i < |ms[1..]| ==> ms[1..][i] == ms[i + 1];
  }

  // The fold takes in a section of new, distinct kinds and goes on behind it.
  lemma {:induction false} FoldTakesSection(ms: seq<Measurement>, rest: seq<Byte>, x: Metrics, any: bool)
    returns (y: Metrics)
    requires DistinctKinds(ms) && Apart(x, ms)
    ensures Values(y) == Values(x) + Listed(ms)
    ensures Fold(Section(ms) + rest, x, any) == Fold(rest, y, any || ms != [])
    decreases |ms|
  {
    hide EncodedMeasurement, DecodeMeasurement, Values;
    if ms == [] {
      y := x;
      assert Section(ms) + rest == rest;
    } else {
      var m, tail := ms[0], Section(ms[1..]) + rest;
      MeasurementRoundTrip(m, tail);
      assert Section(ms) + rest == EncodedMeasurement(m) + tail;
      assert (Section(ms) + rest)[MEASUREMENT_LEN..] == tail;
      TakenIsHeld(x, m);
      FilledStaysApart(x, ms);
      y := FoldTakesSection(ms[1..], rest, Filled(x, m), true);
      assert Listed(ms) == {m} + Listed(ms[1..]);
    }
  }

  // The longest prefix that folds: the fold of the whole is decided by what
  // comes right behind it.
  lemma {:induction false} FoldSplits(body: seq<Byte>, x: Metrics) returns (ms: seq<Measurement>, rest: seq<Byte>)
    ensures body == Section(ms) + rest && DistinctKinds(ms) && Apart(x, ms)
    ensures rest != [] && DecodeMeasurement(rest).Measured? ==>
              || Taken(x, DecodeMeasurement(rest).m)
              || exists h :: h in ms && SameKind(h, DecodeMeasurement(rest).m)
    decreases |body|
  {
    hide EncodedMeasurement, DecodeMeasurement, Values;
    if body == [] || DecodeMeasurement(body).Unreadable? || Taken(x, DecodeMeasurement(body).m) {
      ms, rest := [], body;
    } else {
      ReadMeasurementIsEncoded(body);
      var m := DecodeMeasurement(body).m;
      TakenIsHeld(x, m);
      ms, rest := FoldSplits(body[MEASUREMENT_LEN..], Filled(x, m));
      var more := ms;
      ms := [m] + more;
      assert ms[1..] == more;
      assert body == EncodedMeasurement(m) + (Section(more) + rest) == Section(ms) + rest;
      assert forall i :: 1 <= i < |ms| ==> ms[i] == more[i - 1];
      if rest != [] && DecodeMeasurement(rest).Measured? {
        FilledTakesOneKind(x, m, DecodeMeasurement(rest).m);
        assert m in ms && forall h :: h in more ==> h in ms;
      }
    }
  }

  lemma {:induction false} FilledTakesOneKind(x: Metrics, m: Measurement, n: Measurement)
    ensures Taken(Filled(x, m), n) <==> Taken(x, n) || SameKind(m, n)
  {
  }

  // Main result: the decoder folds a body exactly when it is the section of a
  // nonempty list of distinct kinds, in any order, and then holds exactly those
  // values; otherwise it reports exactly the leftmost fault.
  lemma {:induction false} BodyIsCharacterised(body: seq<Byte>)
    ensures forall x :: DecodeBody(body) == Folded(x) <==> exists ms :: Accepts(body, ms, x)
    ensures forall e :: DecodeBody(body) == Refused(e) <==> exists ms :: LeftmostFault(body, ms, e)
  {
    forall x, ms | Accepts(body, ms, x)
      ensures DecodeBody(body) == Folded(x)
    {
      AcceptedFolds(body, ms, x);
    }
    forall e, ms | LeftmostFault(body, ms, e)
      ensures DecodeBody(body) == Refused(e)
    {
      FaultIsRefused(body, ms, e);
    }
    EveryBodyIsExplained(body);
  }

  lemma {:induction false} AcceptedFolds(body: seq<Byte>, ms: seq<Measurement>, x: Metrics)
    requires Accepts(body, ms, x)
    ensures DecodeBody(body) == Folded(x)
  {
    var y := FoldTakesSection(ms, [], NO_METRICS, false);
    assert Section(ms) + [] == body;
    assert Values(NO_METRICS) + Listed(ms) == Listed(ms);
    ValuesInjective(x, y);
  }

  lemma {:induction false} FaultIsRefused(body: seq<Byte>, ms: seq<Measurement>, e: BodyError)
    requires LeftmostFault(body, ms, e)
    ensures DecodeBody(body) == Refused(e)
  {
    var rest := body[|Section(ms)|..];
    var y := FoldTakesSection(ms, rest, NO_METRICS, false);
    assert body == Section(ms) + rest;
    if e.Duplicate? {
      var h :| h in ms && SameKind(h, e.m);
      assert h in Values(y);
      TakenIsHeld(y, e.m);
    }
  }

  lemma {:induction false} EveryBodyIsExplained(body: seq<Byte>)
    ensures match DecodeBody(body)
            case Folded(x) => exists ms :: Accepts(body, ms, x)
            case Refused(e) => exists ms :: LeftmostFault(body, ms, e)
  {
    var ms, rest := FoldSplits(body, NO_METRICS);
    var y := FoldTakesSection(ms, rest, NO_METRICS, false);
    assert body[|Section(ms)|..] == rest;
    if rest == [] {
      assert body == Section(ms);
      if ms == [] {
        assert LeftmostFault(body, ms, Empty);
      } else {
        assert Values(y) == Listed(ms);
        assert Accepts(body, ms, y);
      }
    } else if DecodeMeasurement(rest).Unreadable? {
      assert LeftmostFault(body, ms, BadMeasurement(DecodeMeasurement(rest).error));
    } else {
      var m := DecodeMeasurement(rest).m;
      ReadMeasurementIsEncoded(rest);
      var h :| h in ms && SameKind(h, m);
      assert h in Values(y);
      TakenIsHeld(y, m);
      assert LeftmostFault(body, ms, Duplicate(m));
    }
  }

  // Wire order never matters.
  lemma {:induction false} OrderDoesNotMatter(ms: seq<Measurement>, other: seq<Measurement>)
    requires DistinctKinds(ms) && DistinctKinds(other) && Listed(ms) == Listed(other)
    ensures DecodeBody(Section(ms)) == DecodeBody(Section(other))
  {
    assert ms != [] ==> ms[0] in Listed(ms);
    assert other != [] ==> other[0] in Listed(other);
    var x := FoldTakesSection(ms, [], NO_METRICS, false);
    var y := FoldTakesSection(other, [], NO_METRICS, false);
    assert Section(ms) + [] == Section(ms) && Section(other) + [] == Section(other);
    ValuesInjective(x, y);
  }
}
