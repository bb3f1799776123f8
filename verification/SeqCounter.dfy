// The sensor's flash-checkpointed packet counter
// (firmware/sensor/src/seq_counter.rs).
//
// Two flash pages form a circular append log of "reserved until" ceilings. A
// boot scans both pages and resumes at the highest ceiling it reaches, so the
// numbers handed out after a reboot start above every number handed out before.
module SeqCounter {
  import opened Words

  const RESERVATION_BLOCK: Word := 1024
  const WORDS_PER_PAGE := 1024
  const TOTAL_SLOTS := 2 * WORDS_PER_PAGE

  type Slot = i: int | 0 <= i < TOTAL_SLOTS
  type Page = p: seq<Word> | |p| == WORDS_PER_PAGE witness seq(WORDS_PER_PAGE, _ => ERASED)
  type Storage = s: seq<Word> | |s| == TOTAL_SLOTS witness seq(TOTAL_SLOTS, _ => ERASED)

  predicate IsValidRecord(w: Word) {
    w != 0 && w % RESERVATION_BLOCK == 0
  }

  function NextSlot(s: Slot): (r: Slot)
    ensures r == if s == TOTAL_SLOTS - 1 then 0 else s + 1
  {
    (s + 1) % TOTAL_SLOTS
  }

  function PrevSlot(s: Slot): Slot {
    if s == 0 then TOTAL_SLOTS - 1 else s - 1
  }

  // The first slot of the page holding s.
  function PageStart(s: Slot): Slot {
    if s < WORDS_PER_PAGE then 0 else WORDS_PER_PAGE
  }

  // The first slot of the page other than the one starting at `start`.
  function OtherPage(start: Slot): Slot {
    if start == 0 then WORDS_PER_PAGE else 0
  }

  // Every slot from lo up to hi is erased.
  ghost predicate Blank(words: Storage, lo: int, hi: int) {
    forall i: Slot :: lo <= i < hi ==> words[i] == ERASED
  }

  function ErasedPage(): (p: Page)
    ensures forall i :: 0 <= i < |p| ==> p[i] == ERASED
  {
    seq(WORDS_PER_PAGE, _ => ERASED)
  }

  function ErasedStorage(): (s: Storage)
    ensures forall i: Slot :: s[i] == ERASED
  {
    seq(TOTAL_SLOTS, _ => ERASED)
  }

  function SetPage(words: Storage, start: Slot, page: Page): (r: Storage)
    requires start == PageStart(start)
    ensures forall i: Slot :: r[i] == if PageStart(i) == start then page[i - start] else words[i]
  {
    if start == 0 then page + words[WORDS_PER_PAGE..] else words[..WORDS_PER_PAGE] + page
  }

  // ---- the boot scan ----

  // The scan of a page stops at its first word that is not a record, so a slot
  // is seen exactly when every word of its page up to it is one.
  ghost predicate Reached(words: Storage, i: Slot) {
    forall j: Slot :: PageStart(i) <= j <= i ==> IsValidRecord(words[j])
  }

  // What a boot finds: the highest reached ceiling and its first slot, or zero
  // when no slot is reached.
  ghost predicate IsScan(words: Storage, ceiling: Word, slot: Slot) {
    && (forall i: Slot :: Reached(words, i) ==> words[i] <= ceiling)
    && (if ceiling == 0 then slot == 0 && forall i: Slot :: !Reached(words, i)
        else Reached(words, slot) && words[slot] == ceiling &&
             forall i: Slot :: Reached(words, i) && words[i] == ceiling ==> slot <= i)
  }

  // What a scan has found when it has seen every slot below `upTo`.
  ghost predicate ScannedTo(words: Storage, upTo: int, ceiling: Word, slot: Slot) {
    && (forall i: Slot :: i < upTo && Reached(words, i) ==> words[i] <= ceiling)
    && (if ceiling == 0 then slot == 0
        else slot < upTo && Reached(words, slot) && words[slot] == ceiling &&
             forall i: Slot :: i < upTo && Reached(words, i) && words[i] == ceiling ==> slot <= i)
  }

  // The scan of a page gets as far as this slot.
  ghost predicate LookedAt(words: Storage, slot: Slot) {
    forall j: Slot :: PageStart(slot) <= j < slot ==> IsValidRecord(words[j])
  }

  lemma {:induction false} LooksAt(words: Storage, slot: Slot)
    requires forall j: Slot :: PageStart(slot) <= j < slot ==> IsValidRecord(words[j])
    ensures LookedAt(words, slot)
  {
  }

  lemma {:induction false} ScanStarts(words: Storage)
    ensures ScannedTo(words, 0, 0, 0)
  {
  }

  lemma {:induction false} SlotIsScanned(words: Storage, at: Slot, ceiling: Word, slot: Slot)
    requires ScannedTo(words, at, ceiling, slot)
    requires forall j: Slot :: PageStart(at) <= j <= at ==> IsValidRecord(words[j])
    ensures if words[at] > ceiling then ScannedTo(words, at + 1, words[at], at)
              else ScannedTo(words, at + 1, ceiling, slot)
  {
    assert Reached(words, at) && words[at] != 0;
  }

  // A word that is no record hides the rest of its page.
  lemma {:induction false} PageStops(words: Storage, at: Slot, ceiling: Word, slot: Slot)
    requires ScannedTo(words, at, ceiling, slot) && !IsValidRecord(words[at])
    ensures ScannedTo(words, PageStart(at) + WORDS_PER_PAGE, ceiling, slot)
    ensures forall i: Slot :: at < i < PageStart(at) + WORDS_PER_PAGE ==> !LookedAt(words, i)
  {
    assert forall i: Slot :: at <= i < PageStart(at) + WORDS_PER_PAGE ==> !Reached(words, i);
  }

  lemma {:induction false} ScanEnds(words: Storage, ceiling: Word, slot: Slot)
    requires ScannedTo(words, TOTAL_SLOTS, ceiling, slot)
    ensures IsScan(words, ceiling, slot)
  {
    forall i: Slot | Reached(words, i)
      ensures words[i] != 0
    {
      assert IsValidRecord(words[i]);
    }
  }

  lemma {:induction false} ScanIsUnique(words: Storage, c1: Word, s1: Slot, c2: Word, s2: Slot)
    requires IsScan(words, c1, s1) && IsScan(words, c2, s2)
    ensures c1 == c2 && s1 == s2
  {
  }

  // ---- the counter's working state and its transitions ----

  datatype Ram = Ram(nextSeq: Word, reservedUntil: Word, nextSlot: Slot)

  // The state `load` builds from what the scan found.
  ghost predicate Boots(words: Storage, ram: Ram) {
    exists slot: Slot :: IsScan(words, ram.reservedUntil, slot) &&
                         ram.nextSeq == ram.reservedUntil &&
                         ram.nextSlot == if ram.reservedUntil == 0 then 0 else NextSlot(slot)
  }

  // What the hardware does to one reservation attempt. A failed erase leaves
  // `eraseFault` in the page and a failed write leaves `writeFault` in the
  // word; a power cut during the operation is the same failure followed by a
  // reboot.
  datatype Env = Env(eraseFault: Option<Page>, writeFault: Option<Word>, readFault: bool)

  datatype Result = Issued(n: Word) | FlashError | Panicked

  datatype After = After(words: Storage, ram: Ram, result: Result)

  // The page an erase leaves behind.
  function PageAfterErase(fault: Option<Page>): Page {
    match fault
    case None => ErasedPage()
    case Some(residue) => residue
  }

  function EraseStep(words: Storage, ram: Ram, env: Env): Storage {
    if ram.nextSlot != PageStart(ram.nextSlot) then words
    else SetPage(words, ram.nextSlot, PageAfterErase(env.eraseFault))
  }

  // The ceiling the next reservation writes. The addition is unchecked in a
  // release build, so it wraps.
  function NewCeiling(ram: Ram): Word {
    (ram.reservedUntil + RESERVATION_BLOCK) % WORD_LIMIT
  }

  datatype Attempt = Attempt(words: Storage, ram: Ram, failure: Option<Result>)

  predicate EraseFails(ram: Ram, env: Env) {
    ram.nextSlot == PageStart(ram.nextSlot) && env.eraseFault.Some?
  }

  // Writes the ceiling and reads it back. A mismatch stops the program.
  function WriteStep(words: Storage, ram: Ram, env: Env): Attempt {
    var slot := ram.nextSlot;
    var stored := And(words[slot], NewCeiling(ram));
    if env.writeFault.Some? then Attempt(words[slot := env.writeFault.value], ram, Some(FlashError))
    else if env.readFault then Attempt(words[slot := stored], ram, Some(FlashError))
    else if stored != NewCeiling(ram) then Attempt(words[slot := stored], ram, Some(Panicked))
    else Attempt(words[slot := stored], Ram(ram.nextSeq, NewCeiling(ram), NextSlot(slot)), None)
  }

  // One reservation: erase on entering a page, then write.
  function Advance(words: Storage, ram: Ram, env: Env): Attempt {
    if EraseFails(ram, env) then Attempt(EraseStep(words, ram, env), ram, Some(FlashError))
    else WriteStep(EraseStep(words, ram, env), ram, env)
  }

  predicate MustReserve(ram: Ram) {
    ram.nextSeq >= ram.reservedUntil
  }

  function Take(ram: Ram): Ram {
    ram.(nextSeq := (ram.nextSeq + 1) % WORD_LIMIT)
  }

  function Next(words: Storage, ram: Ram, env: Env): After {
    if !MustReserve(ram) then After(words, Take(ram), Issued(ram.nextSeq))
    else
      var attempt := Advance(words, ram, env);
      if attempt.failure.Some? then After(attempt.words, attempt.ram, attempt.failure.value)
      else After(attempt.words, Take(attempt.ram), Issued(attempt.ram.nextSeq))
  }

  // ---- when a call answers what ----

  const NO_FAULT := Env(None, None, false)

  // An operation that the reservation reaches fails.
  predicate Faulted(ram: Ram, env: Env) {
    EraseFails(ram, env) || env.writeFault.Some? || env.readFault
  }

  // The word the next ceiling goes to: erased at the start of a page, and as it
  // stands elsewhere.
  function Target(words: Storage, ram: Ram): Word {
    if ram.nextSlot == PageStart(ram.nextSlot) then ERASED else words[ram.nextSlot]
  }

  // A call fails exactly when it must reserve and an operation fails. With none
  // failing it stops the program exactly when the word to write lacks a bit of
  // the next ceiling, and otherwise hands out the next number: from the block at
  // hand, or from a new one that starts where the last one ended.
  lemma {:induction false} CallsAreExact(words: Storage, ram: Ram, env: Env)
    ensures var a := Next(words, ram, env);
            && (a.result.FlashError? <==> MustReserve(ram) && Faulted(ram, env))
            && (a.result.Panicked? <==>
                MustReserve(ram) && !Faulted(ram, env) && !Within(NewCeiling(ram), Target(words, ram)))
            && (a.result.Issued? ==> a.result.n == ram.nextSeq && a.ram.nextSeq == (ram.nextSeq + 1) % WORD_LIMIT)
            && (a.result.Issued? && !MustReserve(ram) ==> a.words == words && a.ram == ram.(nextSeq := a.ram.nextSeq))
            && (a.result.Issued? && MustReserve(ram) ==>
                && a.ram.reservedUntil == (ram.reservedUntil + RESERVATION_BLOCK) % WORD_LIMIT
                && a.ram.nextSlot == NextSlot(ram.nextSlot) && a.words[ram.nextSlot] == a.ram.reservedUntil)
            && (!a.result.Issued? ==> a.ram == ram)
  {
    hide And;
    var slot := ram.nextSlot;
    if slot == PageStart(slot) && env.eraseFault.None? {
      assert EraseStep(words, ram, env)[slot] == ERASED;
    }
    WriteOver(Target(words, ram), NewCeiling(ram));
  }

  // ---- the flash peripheral and the counter itself ----

  class Flash {
    const words: array<Word>

    constructor (w: array<Word>)
      requires w.Length == TOTAL_SLOTS
      ensures words == w
    {
      words := w;
    }

    ghost predicate Valid() {
      words.Length == TOTAL_SLOTS
    }

    ghost function Contents(): Storage
      requires Valid()
      reads words
    {
      words[..]
    }

    method Read(slot: Slot, fails: bool) returns (r: Option<Word>)
      requires Valid()
      ensures r == if fails then None else Some(words[slot])
    {
      r := if fails then None else Some(words[slot]);
    }

    // Clears the bits the data does not have, or fails with anything left in the
    // word.
    method Write(slot: Slot, data: Word, fault: Option<Word>) returns (ok: bool)
      requires Valid()
      modifies words
      ensures ok == fault.None?
      ensures Contents() == old(Contents())[slot := if ok then And(old(words[slot]), data) else fault.value]
    {
      ok := fault.None?;
      words[slot] := if ok then And(words[slot], data) else fault.value;
    }

    // Sets every bit of a page, or fails with anything left in it.
    method Erase(start: Slot, fault: Option<Page>) returns (ok: bool)
      requires Valid() && start == PageStart(start)
      modifies words
      ensures ok == fault.None?
      ensures Contents() == SetPage(old(Contents()), start, PageAfterErase(fault))
    {
      ok := fault.None?;
      var page := PageAfterErase(fault);
      forall i | start <= i < start + WORDS_PER_PAGE {
        words[i] := page[i - start];
      }
      assert forall i: Slot :: words[i] == SetPage(old(Contents()), start, page)[i];
    }
  }

  class Counter {
    var nextSeq: Word
    var reservedUntil: Word
    var nextSlot: Slot
    const flash: Flash

    ghost predicate Valid()
      reads this
    {
      flash.Valid()
    }

    ghost function State(): Ram
      reads this
    {
      Ram(nextSeq, reservedUntil, nextSlot)
    }

    // A counter in a given state, as `Load` builds it.
    constructor (flash: Flash, ceiling: Word, slot: Slot)
      requires flash.Valid()
      ensures Valid() && this.flash == flash && State() == Ram(ceiling, ceiling, slot)
    {
      this.flash := flash;
      nextSeq, reservedUntil, nextSlot := ceiling, ceiling, slot;
    }

    // Scans both pages and builds the one state the stored words determine. It
    // fails exactly when a slot the scan looks at is one whose read fails.
    static method Load(flash: Flash, unreadable: set<Slot>) returns (r: Option<Counter>)
      requires flash.Valid()
      ensures r.None? <==> exists slot :: slot in unreadable && LookedAt(flash.Contents(), slot)
      ensures r.Some? ==> fresh(r.value) && r.value.Valid() && r.value.flash == flash
      ensures r.Some? ==> Boots(flash.Contents(), r.value.State())
    {
      hide ScannedTo, Reached, IsScan, LookedAt;
      ghost var words := flash.Contents();
      var maxReserved: Word := 0;
      var maxSlot: Slot := 0;
      ScanStarts(words);
      for page := 0 to 2
        invariant ScannedTo(words, page * WORDS_PER_PAGE, maxReserved, maxSlot)
        invariant forall i :: i in unreadable && i < page * WORDS_PER_PAGE ==> !LookedAt(words, i)
      {
        var start: Slot := page * WORDS_PER_PAGE;
        var slot := start;
        while slot < start + WORDS_PER_PAGE
          invariant start <= slot <= start + WORDS_PER_PAGE
          invariant forall j: Slot :: start <= j < slot ==> IsValidRecord(words[j])
          invariant ScannedTo(words, slot, maxReserved, maxSlot)
          invariant forall i :: i in unreadable && i < slot ==> !LookedAt(words, i)
          decreases start + WORDS_PER_PAGE - slot
        {
          LooksAt(words, slot);
          var read := flash.Read(slot, slot in unreadable);
          if read.None? {
            return None;
          }
          if !IsValidRecord(read.value) {
            PageStops(words, slot, maxReserved, maxSlot);
            break;
          }
          SlotIsScanned(words, slot, maxReserved, maxSlot);
          if read.value > maxReserved {
            maxReserved, maxSlot := read.value, slot;
          }
          slot := slot + 1;
        }
      }
      ScanEnds(words, maxReserved, maxSlot);
      var counter := new Counter(flash, maxReserved, if maxReserved == 0 then 0 else NextSlot(maxSlot));
      r := Some(counter);
    }

    // Hands out one number. For every behaviour of the hardware, the new storage,
    // the new state and the result are the ones `Next` gives.
    method TakeNext(env: Env) returns (r: Result)
      requires Valid()
      modifies this, flash.words
      ensures Valid()
      ensures After(flash.Contents(), State(), r) == Next(old(flash.Contents()), old(State()), env)
    {
      if nextSeq >= reservedUntil {
        var failure := AdvanceReservation(env);
        if failure.Some? {
          return failure.value;
        }
      }
      r := Issued(nextSeq);
      nextSeq := (nextSeq + 1) % WORD_LIMIT;
    }

    method AdvanceReservation(env: Env) returns (failure: Option<Result>)
      requires Valid()
      modifies this, flash.words
      ensures Valid()
      ensures Attempt(flash.Contents(), State(), failure) == Advance(old(flash.Contents()), old(State()), env)
    {
      if nextSlot == PageStart(nextSlot) {
        var erased := flash.Erase(nextSlot, env.eraseFault);
        if !erased {
          return Some(FlashError);
        }
      }
      var newCeiling: Word := (reservedUntil + RESERVATION_BLOCK) % WORD_LIMIT;
      var written := flash.Write(nextSlot, newCeiling, env.writeFault);
      if !written {
        return Some(FlashError);
      }
      var val := flash.Read(nextSlot, env.readFault);
      if val.None? {
        return Some(FlashError);
      }
      if val.value != newCeiling {
        return Some(Panicked);
      }
      reservedUntil := newCeiling;
      nextSlot := NextSlot(nextSlot);
      failure := None;
    }
  }
}
