// Device keys at rest: sealed under one generation of key-encryption keys, with
// the generation in the clear (api/src/devices/keys.rs).
module DeviceKeys {
  import opened Words
  import opened UicrRecord
  import opened Packets

  const SEALED_VERSION: Byte := 1
  const NONCE_SIZE := 24
  const SEALED_SIZE := KEY_SIZE + TAG_SIZE
  const COLUMN_SIZE := 2 + NONCE_SIZE + SEALED_SIZE

  type XNonce = n: seq<Byte> | |n| == NONCE_SIZE witness seq(NONCE_SIZE, _ => 0)

  // ---- the ring of key-encryption keys ----

  datatype Ring = Ring(keks: map<Byte, Key>, current: Byte) {
    predicate Valid() {
      current in keks
    }
  }

  // One line of the key file, split at `=`; numbers and hex are read as far as
  // they can be.
  datatype Line =
    | Blank
    | NoAssignment
    | Current(version: Option<Byte>)
    | Generation(version: Option<Byte>, kek: Option<Key>)

  datatype RingError =
    | Syntax(line: nat)
    | CurrentTwice(line: nat)
    | BadVersion(line: nat)
    | BadKek(line: nat)
    | GenerationTwice(line: nat)
    | NoCurrent
    | NoKekForCurrent(version: Byte)

  datatype RingResult = Loaded(ring: Ring) | Unloadable(error: RingError)

  // A line that fails whatever stands around it.
  predicate WellFormed(line: Line) {
    match line
    case Blank => true
    case NoAssignment => false
    case Current(version) => version.Some?
    case Generation(version, kek) => version.Some? && kek.Some?
  }

  ghost predicate Repeats(a: Line, b: Line) {
    (a.Current? && b.Current?) || (a.Generation? && b.Generation? && a.version == b.version)
  }

  // A key file that means a ring: every line is well formed, nothing is said
  // twice, and the ring holds exactly what is said.
  ghost predicate Means(lines: seq<Line>, ring: Ring) {
    && (forall i :: 0 <= i < |lines| ==> WellFormed(lines[i]))
    && (forall i, j :: 0 <= i < j < |lines| ==> !Repeats(lines[i], lines[j]))
    && Current(Some(ring.current)) in lines
    && (forall v: Byte, k: Key :: Generation(Some(v), Some(k)) in lines <==> v in ring.keks && ring.keks[v] == k)
    && ring.Valid()
  }

  ghost predicate Understood(lines: seq<Line>, i: nat, current: Option<Byte>, keks: map<Byte, Key>)
    requires i <= |lines|
  {
    && (forall j :: 0 <= j < i ==> WellFormed(lines[j]))
    && (forall j, k :: 0 <= j < k < i ==> !Repeats(lines[j], lines[k]))
    && (forall v: Byte :: Current(Some(v)) in lines[..i] <==> current == Some(v))
    && (forall v: Byte, k: Key :: Generation(Some(v), Some(k)) in lines[..i] <==> v in keks && keks[v] == k)
  }

  // Lines 1 to i say something, and nothing twice.
  ghost predicate FaultFree(lines: seq<Line>, i: nat) {
    && i <= |lines|
    && (forall j :: 0 <= j < i ==> WellFormed(lines[j]))
    && (forall j, k :: 0 <= j < k < i ==> !Repeats(lines[j], lines[k]))
  }

  ghost predicate SaidBefore(lines: seq<Line>, i: nat)
    requires i < |lines|
  {
    exists j :: 0 <= j < i && Repeats(lines[j], lines[i])
  }

  // Line l is the first with a fault.
  ghost predicate FirstFaultAt(lines: seq<Line>, l: nat) {
    && 1 <= l <= |lines| && FaultFree(lines, l - 1)
    && (!WellFormed(lines[l - 1]) || SaidBefore(lines, l - 1))
  }

  // The fault a refused file is refused for: at its first faulty line, or at the
  // end. A second `current` counts before its value is read, a second key of a
  // generation only after both its parts are.
  ghost predicate Explains(lines: seq<Line>, e: RingError) {
    match e
    case Syntax(l) => FirstFaultAt(lines, l) && lines[l - 1].NoAssignment?
    case CurrentTwice(l) => FirstFaultAt(lines, l) && lines[l - 1].Current? && SaidBefore(lines, l - 1)
    case BadVersion(l) =>
      && FirstFaultAt(lines, l)
      && (lines[l - 1].Current? || lines[l - 1].Generation?) && lines[l - 1].version.None?
      && (lines[l - 1].Current? ==> !SaidBefore(lines, l - 1))
    case BadKek(l) =>
      && FirstFaultAt(lines, l)
      && lines[l - 1].Generation? && lines[l - 1].version.Some? && lines[l - 1].kek.None?
    case GenerationTwice(l) => FirstFaultAt(lines, l) && lines[l - 1].Generation? && WellFormed(lines[l - 1])
    case NoCurrent => FaultFree(lines, |lines|) && forall v: Byte :: Current(Some(v)) !in lines
    case NoKekForCurrent(v) =>
      && FaultFree(lines, |lines|) && Current(Some(v)) in lines
      && forall k: Key :: Generation(Some(v), Some(k)) !in lines
  }

  lemma {:induction false} FirstFaultIsOne(lines: seq<Line>, l: nat, m: nat)
    requires FirstFaultAt(lines, l)
    ensures !FaultFree(lines, l) && !FaultFree(lines, |lines|)
    ensures FirstFaultAt(lines, m) ==> l == m
  {
    if SaidBefore(lines, l - 1) {
      var j :| 0 <= j < l - 1 && Repeats(lines[j], lines[l - 1]);
    }
  }

  lemma {:induction false} CurrentIsOne(lines: seq<Line>, v: Byte, w: Byte)
    requires FaultFree(lines, |lines|) && Current(Some(v)) in lines && Current(Some(w)) in lines
    ensures v == w
  {
    var i :| 0 <= i < |lines| && lines[i] == Current(Some(v));
    var j :| 0 <= j < |lines| && lines[j] == Current(Some(w));
    var first, second := if i < j then i else j, if i < j then j else i;
    assert first < second ==> !Repeats(lines[first], lines[second]);
  }

  ghost function FaultLine(e: RingError): nat {
    match e
    case Syntax(l) => l
    case CurrentTwice(l) => l
    case BadVersion(l) => l
    case BadKek(l) => l
    case GenerationTwice(l) => l
    case _ => 0
  }

  // A file has at most one explanation.
  lemma {:induction false} ExplainedOnce(lines: seq<Line>, e: RingError, e': RingError)
    requires Explains(lines, e) && Explains(lines, e')
    ensures e == e'
  {
    if FaultLine(e) > 0 {
      FirstFaultIsOne(lines, FaultLine(e), FaultLine(e'));
    } else if FaultLine(e') > 0 {
      FirstFaultIsOne(lines, FaultLine(e'), FaultLine(e));
    } else if e.NoKekForCurrent? && e'.NoKekForCurrent? {
      CurrentIsOne(lines, e.version, e'.version);
    }
  }

  lemma {:induction false} ExplainedMeansNothing(lines: seq<Line>, e: RingError, ring: Ring)
    requires Explains(lines, e)
    ensures !Means(lines, ring)
  {
    if FaultLine(e) > 0 {
      FirstFaultIsOne(lines, FaultLine(e), FaultLine(e));
    }
    if Means(lines, ring) && e.NoKekForCurrent? {
      assert Generation(Some(ring.current), Some(ring.keks[ring.current])) in lines;
      CurrentIsOne(lines, e.version, ring.current);
    }
  }

  lemma {:induction false} RefusedFor(lines: seq<Line>, e: RingError)
    requires Explains(lines, e)
    ensures forall ring :: !Means(lines, ring)
    ensures forall e' :: Explains(lines, e') <==> e' == e
  {
    hide Explains, Means;
    forall ring
      ensures !Means(lines, ring)
    {
      ExplainedMeansNothing(lines, e, ring);
    }
    forall e' | Explains(lines, e')
      ensures e' == e
    {
      ExplainedOnce(lines, e, e');
    }
  }

  lemma {:induction false} UnderstoodIsFaultFree(lines: seq<Line>, i: nat, current: Option<Byte>, keks: map<Byte, Key>)
    requires i <= |lines| && Understood(lines, i, current, keks)
    ensures FaultFree(lines, i)
  {
  }

  lemma {:induction false} OneMoreLine(lines: seq<Line>, i: nat, current: Option<Byte>, keks: map<Byte, Key>)
    requires i < |lines| && Understood(lines, i, current, keks) && WellFormed(lines[i])
    requires lines[i].Current? ==> current.None?
    requires lines[i].Generation? ==> lines[i].version.value !in keks
    ensures var current' := if lines[i].Current? then lines[i].version else current;
            var keks' := if lines[i].Generation? then keks[lines[i].version.value := lines[i].kek.value] else keks;
            Understood(lines, i + 1, current', keks')
  {
    assert lines[..i + 1] == lines[..i] + [lines[i]];
    forall j | 0 <= j < i
      ensures !Repeats(lines[j], lines[i])
    {
      assert lines[j] in lines[..i];
      if lines[j].Current? {
        assert lines[j] == Current(Some(lines[j].version.value));
      } else if lines[j].Generation? {
        assert lines[j] == Generation(Some(lines[j].version.value), Some(lines[j].kek.value));
      }
    }
  }

  // The parser's own memory tells whether a line repeats an earlier one.
  lemma {:induction false} RepeatIsSeen(lines: seq<Line>, i: nat, current: Option<Byte>, keks: map<Byte, Key>)
    requires i < |lines| && Understood(lines, i, current, keks)
    ensures lines[i].Current? ==> (SaidBefore(lines, i) <==> current.Some?)
    ensures lines[i].Generation? && lines[i].version.Some? ==>
              (SaidBefore(lines, i) <==> lines[i].version.value in keks)
  {
    if (lines[i].Current? && current.Some?)
       || (lines[i].Generation? && lines[i].version.Some? && lines[i].version.value in keks) {
      var earlier := if lines[i].Current? then Current(Some(current.value))
                     else Generation(lines[i].version, Some(keks[lines[i].version.value]));
      assert earlier in lines[..i];
      var j :| 0 <= j < i && lines[..i][j] == earlier;
      assert Repeats(lines[j], lines[i]);
    }
    if SaidBefore(lines, i) {
      var j :| 0 <= j < i && Repeats(lines[j], lines[i]);
      assert lines[j] in lines[..i];
      if lines[j].Current? {
        assert lines[j] == Current(Some(lines[j].version.value));
      } else {
        assert lines[j] == Generation(Some(lines[j].version.value), Some(lines[j].kek.value));
      }
    }
  }

  // Main result of the parser: it loads exactly the files that mean a ring, and
  // then exactly that ring - in whatever order the lines stand; and it refuses a
  // file with exactly the fault that explains it.
  method ParseRing(lines: seq<Line>) returns (r: RingResult)
    ensures forall ring :: r == Loaded(ring) <==> Means(lines, ring)
    ensures forall e :: r == Unloadable(e) <==> Explains(lines, e)
  {
    hide Means, Understood, Repeats, SaidBefore, FaultFree;
    var current: Option<Byte> := None;
    var keks: map<Byte, Key> := map[];
    NothingYet(lines);
    for i := 0 to |lines|
      invariant Understood(lines, i, current, keks)
    {
      var line := lines[i];
      UnderstoodIsFaultFree(lines, i, current, keks);
      RepeatIsSeen(lines, i, current, keks);
      var fault: Option<RingError> := None;
      match line {
        case Blank =>
        case NoAssignment =>
          fault := Some(Syntax(i + 1));
        case Current(version) =>
          if current.Some? {
            fault := Some(CurrentTwice(i + 1));
          } else if version.None? {
            fault := Some(BadVersion(i + 1));
          }
        case Generation(version, kek) =>
          if version.None? {
            fault := Some(BadVersion(i + 1));
          } else if kek.None? {
            fault := Some(BadKek(i + 1));
          } else if version.value in keks {
            fault := Some(GenerationTwice(i + 1));
          }
      }
      if fault.Some? {
        RefusedFor(lines, fault.value);
        return Unloadable(fault.value);
      }
      OneMoreLine(lines, i, current, keks);
      if line.Current? {
        current := line.version;
      }
      if line.Generation? {
        keks := keks[line.version.value := line.kek.value];
      }
    }
    UnderstoodMeans(lines, current, keks);
    UnderstoodIsFaultFree(lines, |lines|, current, keks);
    if current.None? {
      RefusedFor(lines, NoCurrent);
      return Unloadable(NoCurrent);
    }
    if current.value !in keks {
      RefusedFor(lines, NoKekForCurrent(current.value));
      return Unloadable(NoKekForCurrent(current.value));
    }
    var ring := Ring(keks, current.value);
    MeantIsNotExplained(lines, ring);
    return Loaded(ring);
  }

  lemma {:induction false} MeantIsNotExplained(lines: seq<Line>, ring: Ring)
    requires Means(lines, ring)
    ensures forall e :: !Explains(lines, e)
  {
    hide Means, Explains;
    forall e
      ensures !Explains(lines, e)
    {
      if Explains(lines, e) {
        ExplainedMeansNothing(lines, e, ring);
      }
    }
  }

  lemma {:induction false} NothingYet(lines: seq<Line>)
    ensures Understood(lines, 0, None, map[])
  {
  }

  lemma {:induction false} UnderstoodMeans(lines: seq<Line>, current: Option<Byte>, keks: map<Byte, Key>)
    requires Understood(lines, |lines|, current, keks)
    ensures forall v: Byte :: Current(Some(v)) in lines <==> current == Some(v)
    ensures forall v: Byte, k: Key :: Generation(Some(v), Some(k)) in lines <==> v in keks && keks[v] == k
    ensures forall ring :: Means(lines, ring) <==>
                             current == Some(ring.current) && current.value in keks && ring.keks == keks
  {
    assert lines[..|lines|] == lines;
    forall ring
      ensures Means(lines, ring) <==> current == Some(ring.current) && current.value in keks && ring.keks == keks
    {
      if Means(lines, ring) {
        SameAssignments(lines, ring.keks, keks);
      }
    }
  }

  lemma {:induction false} SameAssignments(lines: seq<Line>, a: map<Byte, Key>, b: map<Byte, Key>)
    requires forall v: Byte, k: Key :: Generation(Some(v), Some(k)) in lines <==> v in a && a[v] == k
    requires forall v: Byte, k: Key :: Generation(Some(v), Some(k)) in lines <==> v in b && b[v] == k
    ensures a == b
  {
    forall v: Byte
      ensures v in a ==> v in b && b[v] == a[v]
      ensures v in b ==> v in a && a[v] == b[v]
    {
      if v in a {
        assert Generation(Some(v), Some(a[v])) in lines;
      }
      if v in b {
        assert Generation(Some(v), Some(b[v])) in lines;
      }
    }
  }

  // ---- sealing and opening ----

  datatype SealedKey = SealedKey(ver: Byte, kekVer: Byte, nonce: XNonce, text: seq<Byte>)

  function KeyContext(ver: Byte, kekVer: Byte, addr: DeviceAddr): (d: seq<Byte>)
    ensures |d| == 8
  {
    [ver, kekVer] + addr
  }

  function ColumnBytes(s: SealedKey): seq<Byte> {
    [s.ver, s.kekVer] + s.nonce + s.text
  }

  function SealKey(aead: Aead, ring: Ring, key: Key, addr: DeviceAddr, nonce: XNonce): SealedKey
    requires ring.Valid()
  {
    SealedKey(SEALED_VERSION, ring.current, nonce,
              aead.seal(ring.keks[ring.current], nonce, KeyContext(SEALED_VERSION, ring.current, addr), key))
  }

  datatype KeyFault =
    | Missing
    | InvalidLength(len: nat)
    | UnknownSealVersion(ver: Byte)
    | KekUnavailable(kekVer: Byte)
    | Unopenable

  datatype KeyResult = KeyIs(key: Key) | Faulty(fault: KeyFault)

  function ParseColumn(bytes: seq<Byte>): Option<SealedKey>
    requires |bytes| == COLUMN_SIZE
  {
    if bytes[0] != SEALED_VERSION then None
    else Some(SealedKey(bytes[0], bytes[1], bytes[2..2 + NONCE_SIZE], bytes[2 + NONCE_SIZE..]))
  }

  function OpenSealed(aead: Aead, s: SealedKey, ring: Ring, addr: DeviceAddr): KeyResult {
    if s.kekVer !in ring.keks then Faulty(KekUnavailable(s.kekVer))
    else
      match aead.open(ring.keks[s.kekVer], s.nonce, KeyContext(s.ver, s.kekVer, addr), s.text)
      case Some(key) => if |key| == KEY_SIZE then KeyIs(key) else Faulty(Unopenable)
      case None => Faulty(Unopenable)
  }

  function OpenKeyColumn(aead: Aead, column: Option<seq<Byte>>, addr: DeviceAddr, ring: Ring): KeyResult {
    match column
    case None => Faulty(Missing)
    case Some(bytes) =>
      if |bytes| != COLUMN_SIZE then Faulty(InvalidLength(|bytes|))
      else
        match ParseColumn(bytes)
        case None => Faulty(UnknownSealVersion(bytes[0]))
        case Some(s) => OpenSealed(aead, s, ring, addr)
  }

  // Main result: a stored column opens to a key exactly when it is that key
  // sealed for this address under a generation the ring still holds; which
  // generation is current does not matter.
  lemma {:induction false} OpensExactlySealedKeys(
    aead: Aead, column: Option<seq<Byte>>, addr: DeviceAddr, ring: Ring, key: Key)
    requires aead.Lawful()
    ensures OpenKeyColumn(aead, column, addr, ring) == KeyIs(key) <==>
              exists v: Byte, nonce: XNonce :: v in ring.keks &&
                column == Some(ColumnBytes(SealKey(aead, Ring(ring.keks, v), key, addr, nonce)))
  {
    hide Aead.Lawful;
    if OpenKeyColumn(aead, column, addr, ring) == KeyIs(key) {
      OpenedColumnIsSealed(aead, column.value, addr, ring, key);
    }
    if v: Byte, nonce: XNonce :|
         v in ring.keks && column == Some(ColumnBytes(SealKey(aead, Ring(ring.keks, v), key, addr, nonce))) {
      SealedColumnOpens(aead, Ring(ring.keks, v), key, addr, nonce, ring);
    }
  }

  // Nothing is this column's key under the generation it names.
  ghost predicate NothingSealed(aead: Aead, bytes: seq<Byte>, addr: DeviceAddr, keks: map<Byte, Key>, v: Byte)
    requires v in keks
  {
    forall key: Key, nonce: XNonce :: bytes != ColumnBytes(SealKey(aead, Ring(keks, v), key, addr, nonce))
  }

  // Main result: and it does not open exactly for these reasons, in this order:
  // no column, one of the wrong size, an unknown layout, a generation the ring
  // does not hold, and bytes that are no key sealed for this address under it.
  lemma {:induction false} KeyFaultsAreExact(aead: Aead, column: Option<seq<Byte>>, addr: DeviceAddr, ring: Ring)
    requires aead.Lawful()
    ensures var r := OpenKeyColumn(aead, column, addr, ring);
            && (r == Faulty(Missing) <==> column.None?)
            && (forall n :: r == Faulty(InvalidLength(n)) <==> column.Some? && n == |column.value| != 74)
            && (forall v :: r == Faulty(UnknownSealVersion(v)) <==>
                              column.Some? && |column.value| == 74 && v == column.value[0] != 1)
            && (forall v :: r == Faulty(KekUnavailable(v)) <==>
                              && column.Some? && |column.value| == 74 && column.value[0] == 1
                              && v == column.value[1] && v !in ring.keks)
            && (r == Faulty(Unopenable) <==>
                && column.Some? && |column.value| == 74 && column.value[0] == 1 && column.value[1] in ring.keks
                && NothingSealed(aead, column.value, addr, ring.keks, column.value[1]))
  {
    hide Aead.Lawful, SealKey, OpenSealed;
    if column.Some? && |column.value| == 74 && column.value[0] == 1 {
      SealedOrNot(aead, column.value, addr, ring);
    }
  }

  lemma {:induction false} SealedOrNot(aead: Aead, bytes: seq<Byte>, addr: DeviceAddr, ring: Ring)
    requires aead.Lawful() && |bytes| == COLUMN_SIZE && bytes[0] == SEALED_VERSION
    ensures var r := OpenSealed(aead, ParseColumn(bytes).value, ring, addr);
            && (r.Faulty? ==> r.fault == Unopenable || r.fault == KekUnavailable(bytes[1]))
            && (r == Faulty(KekUnavailable(bytes[1])) <==> bytes[1] !in ring.keks)
            && (r == Faulty(Unopenable) <==>
                bytes[1] in ring.keks && NothingSealed(aead, bytes, addr, ring.keks, bytes[1]))
  {
    hide Aead.Lawful, SealKey, ColumnBytes;
    var r := OpenKeyColumn(aead, Some(bytes), addr, ring);
    assert r == OpenSealed(aead, ParseColumn(bytes).value, ring, addr);
    if r.KeyIs? {
      KeyWasSealed(aead, bytes, addr, ring, r.key);
    }
    if bytes[1] in ring.keks {
      forall key: Key, nonce: XNonce
        ensures bytes == ColumnBytes(SealKey(aead, Ring(ring.keks, bytes[1]), key, addr, nonce)) ==> r == KeyIs(key)
      {
        if bytes == ColumnBytes(SealKey(aead, Ring(ring.keks, bytes[1]), key, addr, nonce)) {
          SealedColumnOpens(aead, Ring(ring.keks, bytes[1]), key, addr, nonce, ring);
        }
      }
    }
  }

  lemma {:induction false} KeyWasSealed(aead: Aead, bytes: seq<Byte>, addr: DeviceAddr, ring: Ring, key: Key)
    requires aead.Lawful() && |bytes| == COLUMN_SIZE && bytes[1] in ring.keks
    requires OpenKeyColumn(aead, Some(bytes), addr, ring) == KeyIs(key)
    ensures !NothingSealed(aead, bytes, addr, ring.keks, bytes[1])
  {
    hide Aead.Lawful, SealKey, OpenKeyColumn;
    OpenedColumnIsSealed(aead, bytes, addr, ring, key);
    var v: Byte, nonce: XNonce :| v in ring.keks &&
      bytes == ColumnBytes(SealKey(aead, Ring(ring.keks, v), key, addr, nonce));
    NamesItsGeneration(aead, Ring(ring.keks, v), key, addr, nonce);
  }

  lemma {:induction false} NamesItsGeneration(aead: Aead, ring: Ring, key: Key, addr: DeviceAddr, nonce: XNonce)
    requires ring.Valid()
    ensures ColumnBytes(SealKey(aead, ring, key, addr, nonce))[1] == ring.current
  {
  }

  // The column's layout: version, generation, nonce, and the key sealed with
  // version, generation and address as associated data.
  lemma {:induction false} ColumnLayout(aead: Aead, ring: Ring, key: Key, addr: DeviceAddr, nonce: XNonce)
    requires ring.Valid()
    ensures ColumnBytes(SealKey(aead, ring, key, addr, nonce)) ==
              [1, ring.current] + nonce + aead.seal(ring.keks[ring.current], nonce, [1, ring.current] + addr, key)
  {
  }

  lemma {:induction false} KeyLaw(aead: Aead, kek: Key, nonce: XNonce, d: seq<Byte>, key: seq<Byte>, text: seq<Byte>)
    requires aead.Lawful()
    ensures aead.open(kek, nonce, d, text) == Some(key) <==> text == aead.seal(kek, nonce, d, key)
    ensures |aead.seal(kek, nonce, d, key)| == |key| + TAG_SIZE
  {
  }

  // Sealed under one ring, a key opens under any ring with that generation.
  lemma {:induction false} SealedColumnOpens(
    aead: Aead, ring: Ring, key: Key, addr: DeviceAddr, nonce: XNonce, later: Ring)
    requires aead.Lawful() && ring.Valid()
    requires ring.current in later.keks && later.keks[ring.current] == ring.keks[ring.current]
    ensures OpenKeyColumn(aead, Some(ColumnBytes(SealKey(aead, ring, key, addr, nonce))), addr, later) == KeyIs(key)
  {
    hide Aead.Lawful;
    var s := SealKey(aead, ring, key, addr, nonce);
    var bytes := ColumnBytes(s);
    KeyLaw(aead, ring.keks[ring.current], nonce, KeyContext(SEALED_VERSION, ring.current, addr), key, s.text);
    assert bytes[2..2 + NONCE_SIZE] == nonce && bytes[2 + NONCE_SIZE..] == s.text;
    assert ParseColumn(bytes) == Some(s);
  }

  lemma {:induction false} OpenedColumnIsSealed(aead: Aead, bytes: seq<Byte>, addr: DeviceAddr, ring: Ring, key: Key)
    requires aead.Lawful() && OpenKeyColumn(aead, Some(bytes), addr, ring) == KeyIs(key)
    ensures exists v: Byte, nonce: XNonce :: v in ring.keks &&
              bytes == ColumnBytes(SealKey(aead, Ring(ring.keks, v), key, addr, nonce))
  {
    hide Aead.Lawful;
    var s := ParseColumn(bytes).value;
    KeyLaw(aead, ring.keks[s.kekVer], s.nonce, KeyContext(s.ver, s.kekVer, addr), key, s.text);
    assert s == SealKey(aead, Ring(ring.keks, s.kekVer), key, addr, s.nonce);
    assert bytes == [bytes[0], bytes[1]] + bytes[2..2 + NONCE_SIZE] + bytes[2 + NONCE_SIZE..] == ColumnBytes(s);
  }

  // The context binds the version, the generation and the address.
  lemma {:induction false} KeyContextInjective(
    ver: Byte, kekVer: Byte, addr: DeviceAddr, ver': Byte, kekVer': Byte, addr': DeviceAddr)
    requires KeyContext(ver, kekVer, addr) == KeyContext(ver', kekVer', addr')
    ensures ver == ver' && kekVer == kekVer' && addr == addr'
  {
    var d, d' := KeyContext(ver, kekVer, addr), KeyContext(ver', kekVer', addr');
    assert d[0] == ver && d'[0] == ver' && d[1] == kekVer && d'[1] == kekVer' && d[2..] == addr && d'[2..] == addr';
  }
}
