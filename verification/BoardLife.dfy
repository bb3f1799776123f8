// The life of one board: boots, packets and power cuts, `flash`, `--unlock`,
// and `provision` / `rotate` stopped after any step
// (provision/src/commands.rs, provision/src/chip.rs, firmware/sensor/src/main.rs).
//
// The claim is the one the packet cipher rests on: a nonce is derived from the
// sequence number alone, so no (key, number) pair may ever be used twice.
module BoardLife {
  import opened Words
  import opened SeqCounter
  import opened UicrRecord
  import SensorRuns

  // The core runs the sensor firmware, or does not. A boot reads its key first
  // and scans storage later, and the tool can halt it in between; it can also
  // halt it inside a reservation, before or after the ceiling is written.
  datatype Core =
    | Off
    | Booting(key: Key)
    | Running(key: Key, ram: Ram)
    | Halfway(key: Key, ram: Ram, written: bool)

  // How far an install has come. While one is under way the core is halted.
  datatype Stage =
    | Minted(recordBlank: bool)  // key issued; the record was read before the halt
    | Writing(next: nat)         // key words up to `next` written, header still erased
    | Written                    // header written too
    | Verified                   // the record read back as written
    | Flashed                    // the new image is on the board
    | Clearing                   // storage is being erased

  datatype Tool = Idle | Installing(key: Key, stage: Stage)

  // `known` is every key the UICR ever decoded to, `issued` every number handed
  // out with the key it was sealed under, in order.
  datatype Board = Board(
    uicr: Record, words: Storage, core: Core, tool: Tool,
    known: set<Key>, issued: seq<(Key, Word)>)

  datatype Event =
    | ReadKey
    | Scan(ram: Ram)
    | Call(env: Env)
    | BeginReservation(pageLeft: Option<Page>)
    | WriteCeiling(wordLeft: Option<Word>)
    | ReadBack(fails: bool)
    | PowerCut
    | Mint(key: Key)
    | EraseRecord(recordFault: Option<Record>)
    | WriteRecordWord(wordFault: Option<Word>)
    | VerifyRecord
    | FlashImage(survives: bool, left: Storage, record: Record)
    | EraseStoragePage(start: Slot, page: Page, fails: bool)
    | Reset
    | Abort
    | Reflash(survives': bool)
    | EraseChip

  function KeyIn(uicr: Record): Option<Key> {
    match Decode(uicr)
    case Provisioned(key) => Some(key)
    case _ => None
  }

  function WithRecord(s: Board, uicr: Record): Board {
    s.(uicr := uicr, known := s.known + (match KeyIn(uicr) case Some(k) => {k} case None => {}))
  }

  // The index of the record word written next: key words first, header last.
  function NextWord(stage: Stage): nat
    requires stage.Writing?
  {
    if stage.next < RECORD_WORDS - 1 then stage.next + 1 else 0
  }

  ghost predicate Step(s: Board, e: Event, s': Board) {
    match e
    // The firmware's boot: it reads its key ...
    case ReadKey =>
      && s.tool.Idle? && s.core.Off? && KeyIn(s.uicr).Some?
      && s' == s.(core := Booting(KeyIn(s.uicr).value))
    // ... and scans storage, whatever happened to UICR in the meantime.
    case Scan(ram) =>
      && s.tool.Idle? && s.core.Booting? && Boots(s.words, ram)
      && s' == s.(core := Running(s.core.key, ram))
    // One packet: a number meets the key the firmware holds.
    case Call(env) =>
      && s.tool.Idle? && s.core.Running?
      && s' == AfterCall(s, Next(s.words, s.core.ram, env))
    // The same packet's reservation in its three steps, for when the tool halts
    // the core between them.
    case BeginReservation(left) =>
      && s.tool.Idle? && s.core.Running? && MustReserve(s.core.ram)
      && s' == AfterBegin(s, left)
    case WriteCeiling(left) =>
      && s.tool.Idle? && s.core.Halfway? && !s.core.written
      && s' == AfterCeiling(s, left)
    case ReadBack(fails) =>
      && s.tool.Idle? && s.core.Halfway? && s.core.written
      && s' == AfterReadBack(s, fails)
    case PowerCut =>
      s' == s.(core := Off, tool := Idle)
    // `provision` and `rotate` halt the core, then ask for a key.
    case Mint(key) =>
      && s.tool.Idle?
      && s' == s.(tool := Installing(key, Minted(DecodeHeader(s.uicr[0]) == BlankHeader)))
    // Skipped when the header was blank; a completed erase is read back.
    case EraseRecord(fault) =>
      && s.tool.Installing? && s.tool.stage == Minted(false)
      && s' == AfterRecordErase(s, fault)
    case WriteRecordWord(fault) =>
      && s.tool.Installing?
      && (s.tool.stage == Minted(true) || (s.tool.stage.Writing? && s.tool.stage.next < RECORD_WORDS))
      && s' == AfterRecordWrite(s, fault)
    // The readback; a mismatch ends the install.
    case VerifyRecord =>
      && s.tool.Installing? && s.tool.stage.Written?
      && s' == s.(tool := if s.uicr == RecordOf(s.tool.key) then Installing(s.tool.key, Verified) else Idle)
    // Programming the image, wherever in flash or UICR it goes, stops the program under
    // it or, at worst, leaves a counter running out of its RAM. A boot that was
    // halted does not go on: its code is gone and its scan has no RAM to live on.
    case FlashImage(survives, left, record) =>
      && s.tool.Installing? && s.tool.stage.Verified?
      && s' == AfterFlash(s, survives, left, record)
    // A page erase, which may leave anything and may do so unnoticed.
    case EraseStoragePage(start, page, fails) =>
      && start == PageStart(start)
      && s.tool.Installing? && (s.tool.stage.Flashed? || s.tool.stage.Clearing?)
      && s' == AfterStorageErase(s, start, page, fails)
    case Reset =>
      && s.tool.Installing? && (s.tool.stage.Verified? || s.tool.stage.Flashed? || s.tool.stage.Clearing?)
      && s' == s.(core := Off, tool := Idle)
    // Any failure drops the session, and the core resumes where it was halted.
    case Abort =>
      && s.tool.Installing?
      && s' == s.(tool := Idle)
    // `flash`: a new image, UICR and storage untouched.
    case Reflash(survives) =>
      && s.tool.Idle?
      && s' == s.(core := if survives then s.core else Off)
    // Unlocking erases the whole chip before any key is asked for.
    case EraseChip =>
      && s.tool.Idle?
      && s' == s.(uicr := ErasedWords(), words := ErasedStorage(), core := Off)
  }

  function AfterCall(s: Board, a: After): Board
    requires s.core.Running?
  {
    s.(words := a.words,
       core := if a.result.Panicked? then Off else Running(s.core.key, a.ram),
       issued := if a.result.Issued? then s.issued + [(s.core.key, a.result.n)] else s.issued)
  }

  function AfterBegin(s: Board, left: Option<Page>): Board
    requires s.core.Running?
  {
    var env := Env(left, None, false);
    s.(words := EraseStep(s.words, s.core.ram, env),
       core := if EraseFails(s.core.ram, env) then s.core else Halfway(s.core.key, s.core.ram, false))
  }

  function AfterCeiling(s: Board, left: Option<Word>): Board
    requires s.core.Halfway?
  {
    var (key, ram, slot) := (s.core.key, s.core.ram, s.core.ram.nextSlot);
    match left
    case Some(residue) => s.(words := s.words[slot := residue], core := Running(key, ram))
    case None => s.(words := s.words[slot := And(s.words[slot], NewCeiling(ram))], core := Halfway(key, ram, true))
  }

  function AfterReadBack(s: Board, fails: bool): Board
    requires s.core.Halfway?
  {
    var (key, ram) := (s.core.key, s.core.ram);
    if fails then s.(core := Running(key, ram))
    else if s.words[ram.nextSlot] != NewCeiling(ram) then s.(core := Off)
    else s.(core := Running(key, Take(Reserved(ram))), issued := s.issued + [(key, ram.nextSeq)])
  }

  function Reserved(ram: Ram): Ram {
    Ram(ram.nextSeq, NewCeiling(ram), NextSlot(ram.nextSlot))
  }

  function StageOf(stage: Stage): Stage {
    if stage == Minted(true) then Writing(0) else stage
  }

  function AfterRecordWrite(s: Board, fault: Option<Word>): Board
    requires s.tool.Installing? && StageOf(s.tool.stage).Writing? && StageOf(s.tool.stage).next < RECORD_WORDS
  {
    var stage := StageOf(s.tool.stage);
    var i := NextWord(stage);
    match fault
    case Some(residue) => WithRecord(s, s.uicr[i := residue]).(tool := Idle)
    case None =>
      WithRecord(s, s.uicr[i := And(s.uicr[i], RecordOf(s.tool.key)[i])])
        .(tool := Installing(s.tool.key, if i == 0 then Written else Writing(stage.next + 1)))
  }

  function ErasedWords(): Record {
    seq(RECORD_WORDS, _ => ERASED)
  }

  function AfterRecordErase(s: Board, fault: Option<Record>): Board
    requires s.tool.Installing?
  {
    match fault
    case None => WithRecord(s, ErasedWords()).(tool := Installing(s.tool.key, Writing(0)))
    case Some(residue) => WithRecord(s, residue).(tool := Idle)
  }

  function AfterFlash(s: Board, survives: bool, left: Storage, record: Record): Board
    requires s.tool.Installing?
  {
    WithRecord(s, record).(words := left, tool := Installing(s.tool.key, Flashed),
       core := if survives && !s.core.Booting? then s.core else Off)
  }

  function AfterStorageErase(s: Board, start: Slot, page: Page, fails: bool): Board
    requires s.tool.Installing? && start == PageStart(start)
  {
    s.(words := SetPage(s.words, start, page),
       tool := if fails then Idle else Installing(s.tool.key, Clearing))
  }

  // The steps of an install, each where it can be taken.

  lemma {:induction false} CanMint(s: Board, key: Key)
    requires s.tool.Idle?
    ensures Step(s, Mint(key), s.(tool := Installing(key, Minted(DecodeHeader(s.uicr[0]) == BlankHeader))))
  {
  }

  lemma {:induction false} CanReset(s: Board)
    requires s.tool.Installing? && (s.tool.stage.Verified? || s.tool.stage.Flashed? || s.tool.stage.Clearing?)
    ensures Step(s, Reset, s.(core := Off, tool := Idle))
  {
  }

  lemma {:induction false} CanEraseRecord(s: Board, fault: Option<Record>)
    requires s.tool.Installing? && s.tool.stage == Minted(false)
    ensures Step(s, EraseRecord(fault), AfterRecordErase(s, fault))
    ensures var s' := AfterRecordErase(s, fault);
            && s'.uicr == (if fault.None? then ErasedWords() else fault.value)
            && s'.words == s.words && s'.core == s.core
            && s'.tool == if fault.None? then Installing(s.tool.key, Writing(0)) else Idle
  {
  }

  lemma {:induction false} CanFlashImage(s: Board, survives: bool, left: Storage, record: Record)
    requires s.tool.Installing? && s.tool.stage.Verified?
    ensures Step(s, FlashImage(survives, left, record), AfterFlash(s, survives, left, record))
  {
  }

  lemma {:induction false} CanEraseStoragePage(s: Board, start: Slot, page: Page, fails: bool)
    requires s.tool.Installing? && (s.tool.stage.Flashed? || s.tool.stage.Clearing?) && start == PageStart(start)
    ensures Step(s, EraseStoragePage(start, page, fails), AfterStorageErase(s, start, page, fails))
    ensures var s' := AfterStorageErase(s, start, page, fails);
            && s'.uicr == s.uicr && s'.core == s.core && s'.words == SetPage(s.words, start, page)
            && s'.tool == if fails then Idle else Installing(s.tool.key, Clearing)
  {
  }

  lemma {:induction false} CanAbort(s: Board)
    requires s.tool.Installing?
    ensures Step(s, Abort, s.(tool := Idle))
  {
  }

  lemma {:induction false} CanWriteRecordWord(s: Board, fault: Option<Word>)
    requires s.tool.Installing? && StageOf(s.tool.stage).Writing? && StageOf(s.tool.stage).next < RECORD_WORDS
    ensures Step(s, WriteRecordWord(fault), AfterRecordWrite(s, fault))
    ensures AfterRecordWrite(s, fault).core == s.core && AfterRecordWrite(s, fault).words == s.words
  {
  }

  lemma {:induction false} CanVerifyRecord(s: Board)
    requires s.tool.Installing? && s.tool.stage.Written?
    ensures Step(s, VerifyRecord, s.(tool := if s.uicr == RecordOf(s.tool.key)
              then Installing(s.tool.key, Verified) else Idle))
  {
  }

  // The key's record is not made of bits of a key this board ever held.
  ghost predicate NotMadeOf(known: set<Key>, key: Key) {
    forall k :: k in known ==> !WordsWithin(RecordOf(k), key, RECORD_WORDS - 1)
  }

  // Key words 1 to n have no bit that this key's record does not have.
  ghost predicate WordsWithin(uicr: Record, key: Key, n: nat) {
    forall i :: 1 <= i <= n && i < RECORD_WORDS ==> Within(uicr[i], RecordOf(key)[i])
  }

  // Key words 1 to n are this key's, and the rest is erased.
  ghost predicate WordsAre(uicr: Record, key: Key, n: nat) {
    forall i :: 1 <= i < RECORD_WORDS ==> uicr[i] == if i <= n then RecordOf(key)[i] else ERASED
  }

  // The premises on keys, each about what comes from outside before the step is
  // taken. A minted key is one the board never held - and, when the record has a
  // blank header over words that are not erased, not made of bits of one, as a
  // key drawn at random is not. A torn record erase and an image programmed into
  // UICR leave no earlier key behind.
  ghost predicate FreshKeys(s: Board, e: Event) {
    match e
    case Mint(key) => key !in s.known && (s.uicr[0] == ERASED && !ErasedRecord(s.uicr) ==> NotMadeOf(s.known, key))
    case EraseRecord(Some(residue)) => NotAnEarlierKey(s, residue)
    case FlashImage(_, _, record) => NotAnEarlierKey(s, record)
    case _ => true
  }

  ghost predicate NotAnEarlierKey(s: Board, uicr: Record) {
    KeyIn(uicr).Some? && KeyIn(uicr) != KeyIn(s.uicr) ==> KeyIn(uicr).value !in s.known
  }

  // The premise on the 32-bit ceiling.
  predicate Fits(s: Board, e: Event) {
    (e.Call? || e.BeginReservation?) && s.core.Running? ==> SensorRuns.HasRoom(s.core.ram)
  }

  // ---- the invariant ----

  ghost predicate IssuedUnder(s: Board, key: Key) {
    exists p :: p in s.issued && p.0 == key
  }

  // Numbers handed out under one key increase.
  ghost predicate Increasing(issued: seq<(Key, Word)>) {
    forall i, j :: 0 <= i < j < |issued| && issued[i].0 == issued[j].0 ==> issued[i].1 < issued[j].1
  }

  // Every number used under the key in UICR lies below where a boot resumes.
  ghost predicate RecordSafe(s: Board) {
    KeyIn(s.uicr).Some? ==>
      && KeyIn(s.uicr).value in s.known
      && forall p :: p in s.issued && p.0 == KeyIn(s.uicr).value ==> SensorRuns.Covered(s.words, p.1)
  }

  // The running counter is above every number used under its key. Its storage
  // is its own unless UICR has been re-keyed beneath it - and then nothing has
  // been used under the new key. A boot will find every number used under the
  // key it read.
  ghost predicate CoreSafe(s: Board) {
    && (!s.core.Off? ==> s.core.key in s.known && NothingUnderAnotherKey(s, s.core.key))
    && match s.core
       case Off => true
       case Booting(key) => forall p :: p in s.issued && p.0 == key ==> SensorRuns.Covered(s.words, p.1)
       case Running(key, ram) => CounterSafe(s, key, ram)
       case Halfway(key, ram, _) => CounterSafe(s, key, ram) && MustReserve(ram) && SensorRuns.HasRoom(ram)
  }

  // When UICR holds a key other than the running one, nothing was used under it.
  ghost predicate NothingUnderAnotherKey(s: Board, key: Key) {
    KeyIn(s.uicr).Some? && KeyIn(s.uicr) != Some(key) ==> !IssuedUnder(s, KeyIn(s.uicr).value)
  }

  ghost predicate CounterSafe(s: Board, key: Key, ram: Ram) {
    && ram.nextSeq <= ram.reservedUntil
    && (forall p :: p in s.issued && p.0 == key ==> p.1 < ram.nextSeq)
    && (KeyIn(s.uicr) == Some(key) ==> SensorRuns.Tied(s.words, ram))
  }

  // What an install has established at each stage.
  ghost predicate ToolSafe(s: Board) {
    s.tool.Installing? ==>
      && !IssuedUnder(s, s.tool.key)
      && (!s.core.Off? ==> s.core.key != s.tool.key)
      && match s.tool.stage
         case Minted(blank) =>
           s.tool.key !in s.known && (blank ==> s.uicr[0] == ERASED && WritesNewKey(s, 0))
         case Writing(next) =>
           s.tool.key !in s.known && s.uicr[0] == ERASED && WritesNewKey(s, next)
         case Written => true
         case Verified => s.uicr == RecordOf(s.tool.key)
         case _ => UnusedRecord(s) && !s.core.Booting?
  }

  // With `next` key words written, the record is on its way to the minted key or
  // to one that is as new.
  ghost predicate WritesNewKey(s: Board, next: nat)
    requires s.tool.Installing?
  {
    || WordsAre(s.uicr, s.tool.key, next)
    || (NotMadeOf(s.known, s.tool.key) && WordsWithin(s.uicr, s.tool.key, next))
  }

  // Nothing was used under the key in UICR, and it is not the running one's.
  ghost predicate UnusedRecord(s: Board) {
    KeyIn(s.uicr).Some? ==>
      !IssuedUnder(s, KeyIn(s.uicr).value) && (!s.core.Off? ==> s.core.key != KeyIn(s.uicr).value)
  }

  ghost predicate Safe(s: Board) {
    && Increasing(s.issued)
    && (forall p :: p in s.issued ==> p.0 in s.known)
    && RecordSafe(s) && CoreSafe(s) && ToolSafe(s)
  }

  // ---- every step keeps it ----

  // Changing the record to one that holds no earlier key keeps everything safe.
  lemma {:induction false} RecordChangeIsSafe(s: Board, uicr: Record)
    requires Safe(s) && NotAnEarlierKey(s, uicr)
    ensures RecordSafe(WithRecord(s, uicr)) && CoreSafe(WithRecord(s, uicr))
  {
    var s' := WithRecord(s, uicr);
    if KeyIn(uicr).Some? && KeyIn(uicr) != KeyIn(s.uicr) {
      var key := KeyIn(uicr).value;
      assert !IssuedUnder(s', key);
    }
  }

  // A record whose header is erased holds no key.
  lemma {:induction false} BlankHoldsNoKey(uicr: Record)
    requires uicr[0] == ERASED
    ensures KeyIn(uicr) == None
  {
  }

  lemma {:induction false} RecordHoldsItsKey(uicr: Record, key: Key)
    ensures KeyIn(uicr) == Some(key) <==> uicr == RecordOf(key)
  {
    DecodesExactlyItsRecord(uicr, key);
  }

  lemma {:induction false} RecordWriteIsSafe(s: Board, fault: Option<Word>, s': Board)
    requires Safe(s) && Step(s, WriteRecordWord(fault), s')
    ensures Safe(s')
  {
    hide And, RecordOf, SensorRuns.Tied, SensorRuns.Covered, WritesNewKey, KeyIn;
    var stage := StageOf(s.tool.stage);
    var i := NextWord(stage);
    BlankHoldsNoKey(s.uicr);
    if i > 0 {
      BlankHoldsNoKey(s'.uicr);
      if fault.None? {
        WordGoesOn(s, s', stage.next);
      }
    } else {
      WrittenKeyIsNew(s, s'.uicr);
    }
    RecordChangeIsSafe(s, s'.uicr);
  }

  // Writing one more key word keeps the record on its way to a new key.
  lemma {:induction false} WordGoesOn(s: Board, s': Board, next: nat)
    requires s.tool.Installing? && s'.tool.Installing? && s'.tool.key == s.tool.key && s'.known == s.known
    requires next < RECORD_WORDS - 1 && WritesNewKey(s, next)
    requires s'.uicr == s.uicr[next + 1 := And(s.uicr[next + 1], RecordOf(s.tool.key)[next + 1])]
    ensures WritesNewKey(s', next + 1)
  {
    hide And, RecordOf, NotMadeOf;
    var w := RecordOf(s.tool.key)[next + 1];
    WriteErased(w);
    WriteStaysWithin(s.uicr[next + 1], w);
  }

  // Whatever was left in the key words, the header never completes a key the
  // board held before: the words behind it are the minted key's, or have only
  // bits of it while no earlier key does.
  lemma {:induction false} WrittenKeyIsNew(s: Board, uicr: Record)
    requires s.tool.Installing? && s.tool.key !in s.known && WritesNewKey(s, RECORD_WORDS - 1)
    requires forall i :: 1 <= i < RECORD_WORDS ==> uicr[i] == s.uicr[i]
    ensures KeyIn(uicr).Some? ==> KeyIn(uicr).value !in s.known
  {
    hide RecordOf, Within;
    if KeyIn(uicr).Some? {
      var found := KeyIn(uicr).value;
      RecordHoldsItsKey(uicr, found);
      if WordsAre(s.uicr, s.tool.key, RECORD_WORDS - 1) {
        SameWordsSameKey(found, s.tool.key);
      } else {
        assert WordsWithin(RecordOf(found), s.tool.key, RECORD_WORDS - 1);
      }
    }
  }

  // A key is determined by its record's key words.
  lemma {:induction false} SameWordsSameKey(a: Key, b: Key)
    requires forall i :: 1 <= i < RECORD_WORDS ==> RecordOf(a)[i] == RecordOf(b)[i]
    ensures a == b
  {
    hide RecordOf, ToLe32, KeyBytes;
    HeaderIsFirstWord(a);
    HeaderIsFirstWord(b);
    assert RecordOf(a) == RecordOf(b);
    KeyBytesOfRecord(a);
    KeyBytesOfRecord(b);
  }

  lemma {:induction false} RecordEraseIsSafe(s: Board, fault: Option<Record>, s': Board)
    requires Safe(s) && Step(s, EraseRecord(fault), s') && FreshKeys(s, EraseRecord(fault))
    ensures Safe(s')
  {
    if fault.None? {
      BlankHoldsNoKey(s'.uicr);
    }
    RecordChangeIsSafe(s, s'.uicr);
  }

  // Storage is overwritten and erased only under a key nothing was ever sealed
  // with.
  lemma {:induction false} FlashIsSafe(
    s: Board, survives: bool, left: Storage, record: Record, s': Board)
    requires Safe(s) && Step(s, FlashImage(survives, left, record), s')
    requires FreshKeys(s, FlashImage(survives, left, record))
    ensures Safe(s')
  {
    hide KeyIn, RecordOf, SensorRuns.Tied, SensorRuns.Covered;
    RecordHoldsItsKey(s.uicr, s.tool.key);
    assert UnusedRecord(s');
  }

  lemma {:induction false} StorageEraseIsSafe(s: Board, start: Slot, page: Page, fails: bool, s': Board)
    requires Safe(s) && Step(s, EraseStoragePage(start, page, fails), s')
    ensures Safe(s')
  {
    hide KeyIn, RecordOf, SensorRuns.Tied, SensorRuns.Covered;
    assert UnusedRecord(s');
  }

  lemma {:induction false} ScanIsSafe(s: Board, ram: Ram, s': Board)
    requires Safe(s) && Step(s, Scan(ram), s')
    ensures Safe(s')
  {
    SensorRuns.BootTies(s.words, ram);
  }

  lemma {:induction false} MintIsSafe(s: Board, key: Key, s': Board)
    requires Safe(s) && Step(s, Mint(key), s') && FreshKeys(s, Mint(key))
    ensures Safe(s')
  {
    hide KeyIn, NotMadeOf, RecordOf, DecodeHeader, WritesNewKey, SensorRuns.Tied, SensorRuns.Covered;
    BlankHeaderIsErased(s.uicr[0]);
    if s.uicr[0] == ERASED {
      NothingWrittenYet(s');
    }
  }

  lemma {:induction false} NothingWrittenYet(s: Board)
    requires s.tool.Installing? && (ErasedRecord(s.uicr) || NotMadeOf(s.known, s.tool.key))
    ensures WritesNewKey(s, 0)
  {
    hide RecordOf, NotMadeOf;
  }

  lemma {:induction false} BlankHeaderIsErased(w: Word)
    ensures DecodeHeader(w) == BlankHeader <==> w == ERASED
  {
  }

  lemma {:induction false} NextNumber(words: Storage, ram: Ram, env: Env)
    requires ram.nextSeq <= ram.reservedUntil && SensorRuns.HasRoom(ram)
    ensures var a := Next(words, ram, env);
            if a.result.Issued? then a.result.n == ram.nextSeq
                 && a.ram.nextSeq == ram.nextSeq + 1 <= a.ram.reservedUntil
            else a.ram == ram
  {
  }

  ghost predicate Counting(core: Core) {
    core.Running? || core.Halfway?
  }

  // A step of the running counter is safe when it leaves the counter tied to
  // its storage and hands out nothing or the next number.
  lemma {:induction false} CounterStepIsSafe(s: Board, s': Board, ram: Ram)
    requires Safe(s) && Counting(s.core) && s.tool.Idle?
    requires s' == s.(words := s'.words, core := s'.core, issued := s'.issued)
    requires s'.core.Off? || (Counting(s'.core) && s'.core.key == s.core.key && s'.core.ram == ram)
    requires s'.core.Halfway? ==> MustReserve(ram) && SensorRuns.HasRoom(ram)
    requires ram.nextSeq <= ram.reservedUntil
    requires KeyIn(s.uicr) == Some(s.core.key) ==> SensorRuns.Tied(s'.words, ram)
    requires if s'.issued == s.issued then ram.nextSeq == s.core.ram.nextSeq
             else s'.issued == s.issued + [(s.core.key, s.core.ram.nextSeq)] && ram.nextSeq == s.core.ram.nextSeq + 1
    ensures Safe(s')
  {
    hide KeyIn, SensorRuns.Tied, SensorRuns.Covered, SensorRuns.HasRoom;
    var key := s.core.key;
    forall i | 0 <= i < |s.issued| && s.issued[i].0 == key
      ensures s.issued[i].1 < s.core.ram.nextSeq
    {
      assert s.issued[i] in s.issued;
    }
    if KeyIn(s.uicr) == Some(key) {
      forall p | p in s'.issued && p.0 == key
        ensures SensorRuns.Covered(s'.words, p.1)
      {
        SensorRuns.TiedCovers(s'.words, ram, p.1);
      }
    } else if KeyIn(s.uicr).Some? {
      forall p | p in s'.issued
        ensures p.0 != KeyIn(s.uicr).value
      {
        assert p in s.issued || p.0 == key;
      }
    }
  }

  lemma {:induction false} CallIsSafe(s: Board, env: Env, s': Board)
    requires Safe(s) && Step(s, Call(env), s') && Fits(s, Call(env))
    ensures Safe(s')
  {
    hide KeyIn, Next, SensorRuns.Tied;
    var ram := s.core.ram;
    NextNumber(s.words, ram, env);
    if KeyIn(s.uicr) == Some(s.core.key) {
      SensorRuns.NextKeepsTie(s.words, ram, env);
    }
    CounterStepIsSafe(s, s', Next(s.words, ram, env).ram);
  }

  lemma {:induction false} BeginIsSafe(s: Board, left: Option<Page>, s': Board)
    requires Safe(s) && Step(s, BeginReservation(left), s') && Fits(s, BeginReservation(left))
    ensures Safe(s')
  {
    hide KeyIn, SensorRuns.Tied;
    if KeyIn(s.uicr) == Some(s.core.key) {
      SensorRuns.StorageChangeKeepsTie(s.words, s.core.ram, Env(left, None, false), 0);
    }
    CounterStepIsSafe(s, s', s.core.ram);
  }

  lemma {:induction false} CeilingIsSafe(s: Board, left: Option<Word>, s': Board)
    requires Safe(s) && Step(s, WriteCeiling(left), s')
    ensures Safe(s')
  {
    hide KeyIn, And, SensorRuns.Tied;
    if KeyIn(s.uicr) == Some(s.core.key) {
      SensorRuns.WriteKeepsTie(s.words, s.core.ram, s'.words[s.core.ram.nextSlot]);
    }
    CounterStepIsSafe(s, s', s.core.ram);
  }

  lemma {:induction false} ReadBackIsSafe(s: Board, fails: bool, s': Board)
    requires Safe(s) && Step(s, ReadBack(fails), s')
    ensures Safe(s')
  {
    hide KeyIn, SensorRuns.Tied;
    var ram := s.core.ram;
    if fails || s.words[ram.nextSlot] != NewCeiling(ram) {
      CounterStepIsSafe(s, s', ram);
    } else {
      if KeyIn(s.uicr) == Some(s.core.key) {
        SensorRuns.WriteTies(s.words, ram);
        TakeKeepsTie(s.words, Reserved(ram));
      }
      CounterStepIsSafe(s, s', Take(Reserved(ram)));
    }
  }

  lemma {:induction false} TakeKeepsTie(words: Storage, ram: Ram)
    requires SensorRuns.Tied(words, ram) && ram.nextSeq < ram.reservedUntil
    ensures SensorRuns.Tied(words, Take(ram))
  {
  }

  // Left alone, the three steps are the call.
  lemma {:induction false} CallInSteps(s: Board, env: Env) returns (states: seq<Board>, events: seq<Event>)
    requires s.tool.Idle? && s.core.Running? && MustReserve(s.core.ram)
    ensures IsLife(states, events) && states[0] == s
    ensures states[|events|] == AfterCall(s, Next(s.words, s.core.ram, env))
    ensures forall e :: e in events ==> e.BeginReservation? || e.WriteCeiling? || e.ReadBack?
  {
    hide And, NewCeiling, Take;
    var s1 := AfterBegin(s, env.eraseFault);
    assert Step(s, BeginReservation(env.eraseFault), s1);
    if EraseFails(s.core.ram, env) {
      states, events := [s, s1], [BeginReservation(env.eraseFault)];
      return;
    }
    var s2 := AfterCeiling(s1, env.writeFault);
    assert Step(s1, WriteCeiling(env.writeFault), s2);
    if env.writeFault.Some? {
      states, events := [s, s1, s2], [BeginReservation(env.eraseFault), WriteCeiling(env.writeFault)];
      return;
    }
    var s3 := AfterReadBack(s2, env.readFault);
    assert Step(s2, ReadBack(env.readFault), s3);
    states := [s, s1, s2, s3];
    events := [BeginReservation(env.eraseFault), WriteCeiling(env.writeFault), ReadBack(env.readFault)];
  }

  lemma {:induction false} StepIsSafe(s: Board, e: Event, s': Board)
    requires Safe(s) && Step(s, e, s') && FreshKeys(s, e) && Fits(s, e)
    ensures Safe(s')
  {
    hide KeyIn, Next, And;
    match e
    case Scan(ram) => ScanIsSafe(s, ram, s');
    case Mint(key) => MintIsSafe(s, key, s');
    case FlashImage(survives, left, record) => FlashIsSafe(s, survives, left, record, s');
    case Call(env) => CallIsSafe(s, env, s');
    case BeginReservation(left) => BeginIsSafe(s, left, s');
    case WriteCeiling(left) => CeilingIsSafe(s, left, s');
    case ReadBack(fails) => ReadBackIsSafe(s, fails, s');
    case EraseRecord(fault) => RecordEraseIsSafe(s, fault, s');
    case WriteRecordWord(fault) => RecordWriteIsSafe(s, fault, s');
    case EraseStoragePage(start, page, fails) => StorageEraseIsSafe(s, start, page, fails, s');
    case EraseChip => BlankHoldsNoKey(s'.uicr);
    case _ =>
  }

  // ---- over whole lives ----

  // A board as it arrives: any record, any storage, nothing used yet.
  ghost predicate Starts(s: Board) {
    && s.core.Off? && s.tool.Idle? && s.issued == []
    && s.known == (match KeyIn(s.uicr) case Some(k) => {k} case None => {})
  }

  lemma {:induction false} StartIsSafe(s: Board)
    requires Starts(s)
    ensures Safe(s)
  {
  }

  ghost predicate IsLife(states: seq<Board>, events: seq<Event>) {
    && |states| == |events| + 1
    && forall i :: 0 <= i < |events| ==> Step(states[i], events[i], states[i + 1])
  }

  ghost predicate PremisesHold(states: seq<Board>, events: seq<Event>)
    requires |states| == |events| + 1
  {
    forall i :: 0 <= i < |events| ==> FreshKeys(states[i], events[i]) && Fits(states[i], events[i])
  }

  lemma {:induction false} LivesAreSafe(states: seq<Board>, events: seq<Event>, k: nat)
    requires IsLife(states, events) && PremisesHold(states, events) && k < |states|
    requires Safe(states[0])
    ensures Safe(states[k])
  {
    if k == 0 {
    } else {
      LivesAreSafe(states, events, k - 1);
      assert Step(states[k - 1], events[k - 1], states[k]);
      StepIsSafe(states[k - 1], events[k - 1], states[k]);
    }
  }

  // Main result: over every life of a board, no (key, number) pair is ever
  // issued twice - under one key the numbers strictly increase.
  lemma {:induction false} NoncesNeverRepeat(states: seq<Board>, events: seq<Event>, k: nat)
    requires IsLife(states, events) && PremisesHold(states, events) && k < |states|
    requires Starts(states[0])
    ensures Increasing(states[k].issued)
    ensures forall i, j :: 0 <= i < j < |states[k].issued| ==> states[k].issued[i] != states[k].issued[j]
  {
    LivesAreSafe(states, events, k);
  }

  // No image programmed in this life touched the record.
  ghost predicate ImagesLeaveRecord(states: seq<Board>, events: seq<Event>)
    requires |states| == |events| + 1
  {
    forall i :: 0 <= i < |events| && events[i].FlashImage? ==> events[i].record == states[i].uicr
  }

  lemma {:induction false} RecordStands(states: seq<Board>, events: seq<Event>, k: nat)
    requires IsLife(states, events) && PremisesHold(states, events) && ImagesLeaveRecord(states, events)
    requires Starts(states[0]) && k < |states|
    requires states[k].tool.Installing? && (states[k].tool.stage.Flashed? || states[k].tool.stage.Clearing?)
    ensures states[k].uicr == RecordOf(states[k].tool.key)
    decreases k
  {
    hide Step, RecordOf;
    if k == 0 {
    } else {
      LivesAreSafe(states, events, k - 1);
      assert Step(states[k - 1], events[k - 1], states[k]);
      if events[k - 1].EraseStoragePage? {
        ErasingFollows(states[k - 1], events[k - 1], states[k]);
        RecordStands(states, events, k - 1);
      }
      StepLeavesRecord(states[k - 1], events[k - 1], states[k]);
    }
  }

  lemma {:induction false} ErasingFollows(s: Board, e: Event, s': Board)
    requires Step(s, e, s') && e.EraseStoragePage?
    ensures s.tool.Installing? && (s.tool.stage.Flashed? || s.tool.stage.Clearing?)
  {
  }

  lemma {:induction false} StepLeavesRecord(s: Board, e: Event, s': Board)
    requires Safe(s) && Step(s, e, s') && (e.FlashImage? ==> e.record == s.uicr)
    requires s'.tool.Installing? && (s'.tool.stage.Flashed? || s'.tool.stage.Clearing?)
    requires e.EraseStoragePage? ==> s.uicr == RecordOf(s.tool.key)
    ensures s'.uicr == RecordOf(s'.tool.key)
  {
    hide RecordOf, KeyIn, Next, And, Boots;
  }

  // Why the order of the install matters: whenever storage is erased, nothing
  // was ever issued under the key UICR holds - and that is exactly the newly
  // minted key, unless an image has overwritten the record.
  lemma {:induction false} StorageIsErasedOnlyUnderAFreshKey(states: seq<Board>, events: seq<Event>, k: nat)
    requires IsLife(states, events) && PremisesHold(states, events) && k < |events|
    requires Starts(states[0]) && events[k].EraseStoragePage?
    ensures states[k].tool.Installing?
    ensures forall p :: p in states[k].issued ==> p.0 != states[k].tool.key && KeyIn(states[k].uicr) != Some(p.0)
    ensures ImagesLeaveRecord(states, events) ==> Decode(states[k].uicr) == Provisioned(states[k].tool.key)
  {
    hide RecordOf, Step, Safe, KeyIn, Decode, PremisesHold, Starts;
    StartIsSafe(states[0]);
    LivesAreSafe(states, events, k);
    assert Step(states[k], events[k], states[k + 1]);
    ErasingFollows(states[k], events[k], states[k + 1]);
    NothingUsedWhileErasing(states[k]);
    if ImagesLeaveRecord(states, events) {
      RecordStands(states, events, k);
      DecodesExactlyItsRecord(states[k].uicr, states[k].tool.key);
    }
  }

  lemma {:induction false} NothingUsedWhileErasing(s: Board)
    requires Safe(s) && s.tool.Installing? && (s.tool.stage.Flashed? || s.tool.stage.Clearing?)
    ensures forall p :: p in s.issued ==> p.0 != s.tool.key && KeyIn(s.uicr) != Some(p.0)
  {
    hide KeyIn, RecordOf;
  }

  // What the install does not see: an image with a segment in UICR can take the
  // key away again after the record was verified, and the install still ends
  // with its reset.
  lemma {:induction false} AnImageInUicrTakesTheKey(s: Board) returns (s1: Board, s2: Board)
    requires s.tool.Installing? && s.tool.stage.Verified?
    ensures Step(s, FlashImage(false, s.words, ErasedWords()), s1) && Step(s1, Reset, s2)
    ensures FreshKeys(s, FlashImage(false, s.words, ErasedWords()))
    ensures KeyIn(s2.uicr).None?
  {
    hide RecordOf;
    BlankHoldsNoKey(ErasedWords());
    s1 := AfterFlash(s, false, s.words, ErasedWords());
    s2 := s1.(core := Off, tool := Idle);
  }

  lemma {:induction false} FreshCounterBootsAtZero()
    ensures Boots(ErasedStorage(), Ram(0, 0, 0))
  {
    var words := ErasedStorage();
    forall i: Slot
      ensures !Reached(words, i)
    {
      assert words[i] == ERASED && !IsValidRecord(ERASED);
    }
    assert IsScan(words, 0, 0);
  }

  lemma {:induction false} FreshCounterIssuesZero(words: Storage, ram: Ram)
    requires words[0] == ERASED && ram == Ram(0, 0, 0)
    ensures Next(words, ram, Env(None, None, false)).result == Issued(0)
  {
    WriteErased(NewCeiling(ram));
    assert EraseStep(words, ram, Env(None, None, false))[0] == ERASED;
  }

  // Clearing the counter under a live key is what the order prevents: from any
  // board whose key has handed out number 0, erased storage lets the next boot
  // hand out number 0 again.
  lemma {:induction false} ErasingUnderALiveKeyRepeats(s: Board) returns (s1: Board, s2: Board, s3: Board)
    requires KeyIn(s.uicr).Some? && (KeyIn(s.uicr).value, 0) in s.issued
    requires s.core.Off? && s.tool.Idle?
    ensures Step(s.(words := ErasedStorage()), ReadKey, s1)
    ensures Step(s1, Scan(Ram(0, 0, 0)), s2)
    ensures Step(s2, Call(Env(None, None, false)), s3)
    ensures s3.issued == s.issued + [(KeyIn(s.uicr).value, 0)]
  {
    s1 := s.(words := ErasedStorage(), core := Booting(KeyIn(s.uicr).value));
    s2, s3 := ScanOfErasedStorage(s1);
  }

  lemma {:induction false} ScanOfErasedStorage(s1: Board) returns (s2: Board, s3: Board)
    requires s1.core.Booting? && s1.tool.Idle? && s1.words == ErasedStorage()
    ensures Step(s1, Scan(Ram(0, 0, 0)), s2)
    ensures Step(s2, Call(Env(None, None, false)), s3)
    ensures s3.issued == s1.issued + [(s1.core.key, 0)]
  {
    FreshCounterBootsAtZero();
    FreshCounterIssuesZero(ErasedStorage(), Ram(0, 0, 0));
    s2 := s1.(core := Running(s1.core.key, Ram(0, 0, 0)));
    s3 := AfterCall(s2, Next(s2.words, Ram(0, 0, 0), Env(None, None, false)));
  }

  // Why a halted boot must not outlive the flashing: if one did, the install
  // erasing storage and then failing would let it scan erased storage under the
  // key it read before, and hand out that key's number 0 again.
  lemma {:induction false} ABootOutlivingTheFlashRepeats(s: Board) returns (states: seq<Board>, events: seq<Event>)
    requires s.core.Booting? && (s.core.key, 0) in s.issued
    requires s.tool.Installing? && s.tool.stage.Flashed?
    ensures IsLife(states, events) && states[0] == s && |states| == 6
    ensures states[5].issued == s.issued + [(s.core.key, 0)]
  {
    hide Boots, Next;
    var half := SetPage(s.words, 0, ErasedPage());
    var s1 := s.(words := half, tool := Installing(s.tool.key, Clearing));
    var s2 := s1.(words := SetPage(half, WORDS_PER_PAGE, ErasedPage()));
    assert s2.words == ErasedStorage();
    var s3 := s2.(tool := Idle);
    var s4, s5 := ScanOfErasedStorage(s3);
    var first := EraseStoragePage(0, ErasedPage(), false);
    var second := EraseStoragePage(WORDS_PER_PAGE, ErasedPage(), false);
    assert Step(s, first, s1) && Step(s1, second, s2);
    assert Step(s2, Abort, s3);
    states := [s, s1, s2, s3, s4, s5];
    events := [first, second, Abort, Scan(Ram(0, 0, 0)), Call(Env(None, None, false))];
  }
}
