// The exact log the counter keeps when every flash operation either happens
// completely or not at all, starting from erased storage: what a boot recovers,
// how many numbers a boot skips and how often pages are erased
// (firmware/sensor/src/seq_counter.rs).
module LogLayout {
  import opened Words
  import opened SeqCounter
  import opened SensorRuns

  ghost predicate AllOrNothing(words: Storage, ram: Ram, env: Env) {
    && (env.eraseFault.Some? && ram.nextSlot == PageStart(ram.nextSlot) ==>
          || SetPage(words, ram.nextSlot, env.eraseFault.value) == words
          || env.eraseFault.value == ErasedPage())
    && (env.writeFault.Some? ==>
          var before := EraseStep(words, ram, env)[ram.nextSlot];
          || env.writeFault.value == before
          || env.writeFault.value == And(before, NewCeiling(ram)))
  }

  ghost predicate StepIsAllOrNothing(s: State, e: Event) {
    e.Call? && s.cpu.Running? ==> AllOrNothing(s.words, s.cpu.ram, e.env)
  }

  // ---- the log of `base + n` records ----

  function PageOf(base: nat): Slot {
    if base % TOTAL_SLOTS == 0 then 0 else WORDS_PER_PAGE
  }

  // Slots lo, lo + 1, ... up to hi hold the records after the first `before`.
  ghost predicate Holds(words: Storage, lo: Slot, hi: int, before: nat) {
    forall i: Slot :: lo <= i < hi ==> words[i] == RESERVATION_BLOCK * (before + (i - lo) + 1)
  }

  // The current page holds `n` records after `base` earlier ones, and the other
  // page the `WORDS_PER_PAGE` before those - unless it was just erased for the
  // next record.
  ghost predicate Log(words: Storage, base: nat, n: nat) {
    var page := PageOf(base);
    && base % WORDS_PER_PAGE == 0 && n <= WORDS_PER_PAGE && (n == 0 ==> base == 0)
    && RESERVATION_BLOCK * (base + n) < WORD_LIMIT
    && Holds(words, page, page + n, base)
    && Blank(words, page + n, page + WORDS_PER_PAGE)
    && (((base == 0 || n == WORDS_PER_PAGE) && Blank(words, OtherPage(page), OtherPage(page) + WORDS_PER_PAGE))
        || (base > 0 && Holds(words, OtherPage(page), OtherPage(page) + WORDS_PER_PAGE, base - WORDS_PER_PAGE)))
  }

  function SlotAfter(base: nat, n: nat): Slot
    requires n <= WORDS_PER_PAGE
  {
    if n < WORDS_PER_PAGE then PageOf(base) + n else OtherPage(PageOf(base))
  }

  lemma {:induction false} ModOf(q: nat, x: nat)
    requires x < 2048
    ensures (2048 * q + x) % 2048 == x
  {
  }

  lemma {:induction false} HalfOrZero(base: nat)
    requires base % 1024 == 0
    ensures base % 2048 == 0 || base % 2048 == 1024
  {
  }

  lemma {:induction false} SlotOf(base: nat, i: nat)
    requires base % WORDS_PER_PAGE == 0 && i < WORDS_PER_PAGE
    ensures (base + i) % TOTAL_SLOTS == PageOf(base) + i
  {
    HalfOrZero(base);
    ModOf(base / 2048, base % 2048 + i);
    assert 2048 * (base / 2048) + (base % 2048 + i) == base + i;
  }

  // Record k of the log is 1024 * k in slot (k - 1) mod 2048.
  lemma {:induction false} RecordsAreWhereTheyBelong(words: Storage, base: nat, n: nat, k: nat)
    requires Log(words, base, n) && base < k <= base + n
    ensures words[(k - 1) % TOTAL_SLOTS] == RESERVATION_BLOCK * k
  {
    var i: nat := k - 1 - base;
    SlotOf(base, i);
    assert words[PageOf(base) + i] == RESERVATION_BLOCK * (base + i + 1);
  }

  // The slot holds record k of the log, one of the latest 2048.
  ghost predicate HoldsRecord(words: Storage, i: Slot, k: nat, records: nat) {
    records - TOTAL_SLOTS < k <= records && k > 0 && (k - 1) % TOTAL_SLOTS == i && words[i] == RESERVATION_BLOCK * k
  }

  // Every slot is erased or holds its record.
  lemma {:induction false} EverySlotIsARecord(words: Storage, base: nat, n: nat, records: nat, i: Slot)
    requires Log(words, base, n) && records == base + n
    ensures words[i] == ERASED || exists k :: HoldsRecord(words, i, k, records)
  {
    var page := PageOf(base);
    if page <= i < page + n {
      SlotOf(base, i - page);
      assert HoldsRecord(words, i, base + (i - page) + 1, records);
    } else if PageStart(i) != page && words[i] != ERASED {
      NextPage(base - WORDS_PER_PAGE);
      SlotOf(base - WORDS_PER_PAGE, i - OtherPage(page));
      assert HoldsRecord(words, i, base - WORDS_PER_PAGE + (i - OtherPage(page)) + 1, records);
    }
  }

  // The slot after the log of j records is j mod 2048.
  lemma {:induction false} NextSlotOfLog(base: nat, n: nat)
    requires base % WORDS_PER_PAGE == 0 && n <= WORDS_PER_PAGE
    ensures SlotAfter(base, n) == (base + n) % TOTAL_SLOTS
  {
    if n < WORDS_PER_PAGE {
      SlotOf(base, n);
    } else {
      SlotOf(base + WORDS_PER_PAGE, 0);
      NextPage(base);
    }
  }

  lemma {:induction false} HeldIsReached(words: Storage, page: Slot, hi: int, before: nat, i: Slot)
    requires page == PageStart(page) && page <= i < hi <= page + WORDS_PER_PAGE
    requires Holds(words, page, hi, before)
    ensures Reached(words, i)
  {
  }

  lemma {:induction false} UnheldIsUnreached(words: Storage, lo: int, i: Slot)
    requires PageStart(i) <= lo <= i && Blank(words, lo, PageStart(i) + WORDS_PER_PAGE)
    ensures !Reached(words, i)
  {
    assert words[i] == ERASED && !IsValidRecord(ERASED);
  }

  lemma {:induction false} ReachedInLog(words: Storage, base: nat, n: nat, i: Slot)
    requires Log(words, base, n) && Reached(words, i)
    ensures n > 0 && words[i] <= RESERVATION_BLOCK * (base + n)
    ensures words[i] == RESERVATION_BLOCK * (base + n) ==> i == PageOf(base) + n - 1
  {
    var page := PageOf(base);
    if PageStart(i) == page {
      if i >= page + n { UnheldIsUnreached(words, page + n, i); }
    } else if Blank(words, OtherPage(page), OtherPage(page) + WORDS_PER_PAGE) {
      UnheldIsUnreached(words, OtherPage(page), i);
    }
  }

  // The scan of the log finds exactly its newest record.
  lemma {:induction false} ScanOfLog(words: Storage, base: nat, n: nat, ceiling: Word, slot: Slot)
    requires Log(words, base, n) && IsScan(words, ceiling, slot)
    ensures ceiling == RESERVATION_BLOCK * (base + n)
    ensures n > 0 ==> slot == PageOf(base) + n - 1
  {
    if n > 0 {
      HeldIsReached(words, PageOf(base), PageOf(base) + n, base, PageOf(base) + n - 1);
      ReachedInLog(words, base, n, slot);
    } else if ceiling != 0 {
      ReachedInLog(words, base, n, slot);
    }
  }

  // Main result, boots: `load` recovers exactly the newest record and the slot
  // after it.
  lemma {:induction false} BootRecoversTheLog(words: Storage, base: nat, n: nat, ram: Ram)
    requires Log(words, base, n) && Boots(words, ram)
    ensures ram == Ram(RESERVATION_BLOCK * (base + n), RESERVATION_BLOCK * (base + n), SlotAfter(base, n))
  {
    var slot: Slot :| IsScan(words, ram.reservedUntil, slot) &&
                      ram.nextSlot == if ram.reservedUntil == 0 then 0 else NextSlot(slot);
    ScanOfLog(words, base, n, ram.reservedUntil, slot);
  }

  // ---- reservations and the log ----

  // A counter that has accounted for all `base + n` records, or for all but the
  // last because its attempt failed after the word was written.
  ghost predicate InStep(ram: Ram, base: nat, n: nat) {
    n <= WORDS_PER_PAGE &&
    ram.reservedUntil == RESERVATION_BLOCK * (base + n) && ram.nextSlot == SlotAfter(base, n)
  }

  ghost predicate Behind(ram: Ram, base: nat, n: nat) {
    && 1 <= n <= WORDS_PER_PAGE
    && ram.reservedUntil == RESERVATION_BLOCK * (base + n - 1) && ram.nextSlot == PageOf(base) + n - 1
  }

  lemma {:induction false} NextPage(base: nat)
    requires base % WORDS_PER_PAGE == 0
    ensures PageOf(base + WORDS_PER_PAGE) == OtherPage(PageOf(base))
    ensures (base + WORDS_PER_PAGE) % WORDS_PER_PAGE == 0
    ensures PageStart(PageOf(base)) == PageOf(base)
  {
  }

  // Appending record base + n + 1 within the page ...
  lemma {:induction false} AppendInPage(words: Storage, base: nat, n: nat)
    requires Log(words, base, n) && n < WORDS_PER_PAGE
    requires n == 0 ==> Blank(words, 0, WORDS_PER_PAGE)
    requires RESERVATION_BLOCK * (base + n + 1) < WORD_LIMIT
    ensures Log(words[PageOf(base) + n := RESERVATION_BLOCK * (base + n + 1)], base, n + 1)
  {
    hide And;
  }

  // ... or at the start of the other page, once that is erased.
  lemma {:induction false} AppendNextPage(words: Storage, base: nat)
    requires Log(words, base, WORDS_PER_PAGE)
    requires Blank(words, OtherPage(PageOf(base)), OtherPage(PageOf(base)) + WORDS_PER_PAGE)
    requires RESERVATION_BLOCK * (base + WORDS_PER_PAGE + 1) < WORD_LIMIT
    ensures Log(words[OtherPage(PageOf(base)) := RESERVATION_BLOCK * (base + WORDS_PER_PAGE + 1)],
              base + WORDS_PER_PAGE, 1)
  {
    hide And, PageOf;
    NextPage(base);
  }

  // Appending record base + n + 1 to a log whose next slot is erased.
  lemma {:induction false} Append(words: Storage, base: nat, n: nat) returns (base': nat, n': nat)
    requires Log(words, base, n) && words[SlotAfter(base, n)] == ERASED
    requires SlotAfter(base, n) == PageStart(SlotAfter(base, n)) ==>
               Blank(words, SlotAfter(base, n), SlotAfter(base, n) + WORDS_PER_PAGE)
    requires RESERVATION_BLOCK * (base + n + 1) < WORD_LIMIT
    ensures base' + n' == base + n + 1
    ensures Log(words[SlotAfter(base, n) := RESERVATION_BLOCK * (base + n + 1)], base', n')
    ensures SlotAfter(base, n) == PageOf(base') + n' - 1 && 1 <= n' <= WORDS_PER_PAGE
  {
    hide And, Holds, Blank;
    NextPage(base);
    if n < WORDS_PER_PAGE {
      base', n' := base, n + 1;
      AppendInPage(words, base, n);
    } else {
      base', n' := base + WORDS_PER_PAGE, 1;
      AppendNextPage(words, base);
    }
  }

  // Erasing the page of a next slot that starts one leaves the same log, or
  // drops the one record the counter had not accounted for.
  lemma {:induction false} EraseInStep(words: Storage, base: nat, n: nat)
    requires Log(words, base, n) && SlotAfter(base, n) == PageStart(SlotAfter(base, n))
    ensures Log(SetPage(words, SlotAfter(base, n), ErasedPage()), base, n)
    ensures (base + n) % WORDS_PER_PAGE == 0
  {
    hide And, PageOf;
    NextPage(base);
  }

  lemma {:induction false} EraseDropsRecord(words: Storage, base: nat)
    requires Log(words, base, 1) && base > 0
    ensures Log(SetPage(words, PageOf(base), ErasedPage()), base - WORDS_PER_PAGE, WORDS_PER_PAGE)
    ensures SlotAfter(base - WORDS_PER_PAGE, WORDS_PER_PAGE) == PageOf(base)
  {
    hide And, PageOf;
    NextPage(base - WORDS_PER_PAGE);
  }

  lemma {:induction false} EraseDropsFirstRecord(words: Storage)
    requires Log(words, 0, 1)
    ensures Log(SetPage(words, 0, ErasedPage()), 0, 0)
  {
  }

  lemma {:induction false} BehindAtPageStart(ram: Ram, base: nat, n: nat)
    requires base % WORDS_PER_PAGE == 0 && Behind(ram, base, n) && ram.nextSlot == PageStart(ram.nextSlot)
    ensures n == 1 && ram.nextSlot == PageOf(base)
  {
    NextPage(base);
  }

  lemma {:induction false} EraseForNext(words: Storage, ram: Ram, base: nat, n: nat) returns (base': nat, n': nat)
    requires Log(words, base, n) && (InStep(ram, base, n) || Behind(ram, base, n))
    requires ram.nextSlot == PageStart(ram.nextSlot)
    ensures RESERVATION_BLOCK * (base' + n') == ram.reservedUntil
    ensures InStep(ram, base', n')
    ensures Log(SetPage(words, ram.nextSlot, ErasedPage()), base', n')
    ensures InStep(ram, base, n) ==> base' == base && n' == n
    ensures (base' + n') % WORDS_PER_PAGE == 0
  {
    if InStep(ram, base, n) {
      base', n' := base, n;
      EraseInStep(words, base, n);
    } else {
      BehindAtPageStart(ram, base, n);
      if base == 0 {
        base', n' := 0, 0;
        EraseDropsFirstRecord(words);
      } else {
        base', n' := base - WORDS_PER_PAGE, WORDS_PER_PAGE;
        EraseDropsRecord(words, base);
      }
    }
  }

  datatype Effect = Effect(base: nat, n: nat)

  ghost predicate Agrees(ram: Ram, e: Effect) {
    && ram.nextSeq <= ram.reservedUntil
    && (InStep(ram, e.base, e.n) || (Behind(ram, e.base, e.n) && MustReserve(ram)))
    && RESERVATION_BLOCK * (e.base + e.n) <= ram.nextSeq + RESERVATION_BLOCK
  }

  ghost predicate Accounts(words: Storage, ram: Ram, e: Effect) {
    Log(words, e.base, e.n) && Agrees(ram, e)
  }

  function Pages(e: Effect): nat {
    (e.base + e.n + WORDS_PER_PAGE - 1) / WORDS_PER_PAGE
  }

  // One erase of slack is owed while the counter is behind its log.
  function Owed(ram: Ram, e: Effect): nat {
    if ram.reservedUntil < RESERVATION_BLOCK * (e.base + e.n) then 1 else 0
  }

  predicate Erases(ram: Ram) {
    MustReserve(ram) && ram.nextSlot == PageStart(ram.nextSlot)
  }

  // What is counted as an erase is every call that can change a word other than
  // the one the next ceiling goes to.
  lemma {:induction false} OnlyErasesReachOtherWords(words: Storage, ram: Ram, env: Env, i: Slot)
    requires i != ram.nextSlot && Next(words, ram, env).words[i] != words[i]
    ensures Erases(ram) && PageStart(i) == ram.nextSlot
  {
    hide And;
  }

  ghost predicate Ready(words: Storage, ram: Ram, e: Effect) {
    && Accounts(words, ram, e) && MustReserve(ram) && HasRoom(ram)
    && (ram.nextSlot == PageStart(ram.nextSlot) ==>
          InStep(ram, e.base, e.n) && Blank(words, ram.nextSlot, ram.nextSlot + WORDS_PER_PAGE))
  }

  // A completed write stores the next record of the log, or stores again the
  // one the counter had not accounted for.
  lemma {:induction false} WriteKeepsLog(words: Storage, ram: Ram, e: Effect) returns (e': Effect)
    requires Ready(words, ram, e)
    ensures And(words[ram.nextSlot], NewCeiling(ram)) == NewCeiling(ram)
    ensures Log(words[ram.nextSlot := NewCeiling(ram)], e'.base, e'.n)
    ensures RESERVATION_BLOCK * (e'.base + e'.n) == NewCeiling(ram)
    ensures Behind(ram, e'.base, e'.n)
    ensures NextSlot(ram.nextSlot) == SlotAfter(e'.base, e'.n)
  {
    hide And, Log;
    if InStep(ram, e.base, e.n) {
      e' := AppendKeepsLog(words, ram, e);
    } else {
      RewriteKeepsLog(words, ram, e);
      e' := e;
    }
    SlotAfterBehind(ram, e'.base, e'.n);
  }

  lemma {:induction false} NewCeilingOf(ram: Ram, base: nat, n: nat)
    requires InStep(ram, base, n) && MustReserve(ram) && HasRoom(ram)
    ensures NewCeiling(ram) == RESERVATION_BLOCK * (base + n + 1)
  {
  }

  lemma {:induction false} AppendKeepsLog(words: Storage, ram: Ram, e: Effect) returns (e': Effect)
    requires Ready(words, ram, e) && InStep(ram, e.base, e.n)
    ensures And(words[ram.nextSlot], NewCeiling(ram)) == NewCeiling(ram)
    ensures Log(words[ram.nextSlot := NewCeiling(ram)], e'.base, e'.n)
    ensures e'.base + e'.n == e.base + e.n + 1
    ensures Behind(ram, e'.base, e'.n)
  {
    hide And, Log;
    NextSlotIsErased(words, ram, e);
    NewCeilingOf(ram, e.base, e.n);
    WriteErased(NewCeiling(ram));
    var base', n' := Append(words, e.base, e.n);
    e' := Effect(base', n');
  }

  lemma {:induction false} NextSlotIsErased(words: Storage, ram: Ram, e: Effect)
    requires Ready(words, ram, e) && InStep(ram, e.base, e.n)
    ensures words[SlotAfter(e.base, e.n)] == ERASED
  {
  }

  lemma {:induction false} SlotAfterBehind(ram: Ram, base: nat, n: nat)
    requires Behind(ram, base, n)
    ensures NextSlot(ram.nextSlot) == SlotAfter(base, n)
  {
  }

  lemma {:induction false} RewriteKeepsLog(words: Storage, ram: Ram, e: Effect)
    requires Accounts(words, ram, e) && Behind(ram, e.base, e.n)
    ensures words[ram.nextSlot] == NewCeiling(ram) == RESERVATION_BLOCK * (e.base + e.n)
    ensures And(words[ram.nextSlot], NewCeiling(ram)) == NewCeiling(ram)
    ensures words[ram.nextSlot := NewCeiling(ram)] == words
  {
    hide And;
    assert words[PageOf(e.base) + e.n - 1] == RESERVATION_BLOCK * (e.base + (e.n - 1) + 1);
    AndIdempotent(NewCeiling(ram));
  }

  // The erase half: storage becomes ready for the write, or the attempt fails
  // with the log as it was or without the unaccounted record.
  lemma {:induction false} EraseKeepsLog(words: Storage, ram: Ram, env: Env, e: Effect) returns (e': Effect)
    requires Accounts(words, ram, e) && MustReserve(ram) && HasRoom(ram) && AllOrNothing(words, ram, env)
    ensures Accounts(EraseStep(words, ram, env), ram, e')
    ensures Owed(ram, e') + Pages(e) <= Owed(ram, e) + Pages(e')
    ensures Erases(ram) && env.eraseFault.None? ==> InStep(ram, e'.base, e'.n) && (e'.base + e'.n) % WORDS_PER_PAGE == 0
    ensures !EraseFails(ram, env) ==> Ready(EraseStep(words, ram, env), ram, e')
  {
    hide And;
    if !Erases(ram) || (env.eraseFault.Some? && EraseStep(words, ram, env) == words) {
      e' := e;
    } else {
      var base', n' := EraseForNext(words, ram, e.base, e.n);
      e' := Effect(base', n');
    }
  }

  function Count(b: bool): nat {
    if b then 1 else 0
  }

  // What the erases performed, the pages filled and the failures add up to.
  predicate Balanced(erased: bool, ram: Ram, e: Effect, ram': Ram, e': Effect, failed: bool) {
    Count(erased) + Owed(ram', e') + Pages(e) <= Owed(ram, e) + Pages(e') + Count(failed)
  }

  // A write that landed without being read back leaves the counter behind ...
  lemma {:induction false} LandedUnread(ram: Ram, e: Effect, e': Effect)
    requires Agrees(ram, e) && MustReserve(ram) && Behind(ram, e'.base, e'.n)
    requires Erases(ram) ==> InStep(ram, e.base, e.n) && (e.base + e.n) % WORDS_PER_PAGE == 0
    ensures Agrees(ram, e') && Balanced(Erases(ram), ram, e, ram, e', true)
  {
  }

  // ... and one that was read back brings it into step.
  lemma {:induction false} LandedRead(ram: Ram, e: Effect, ram': Ram, e': Effect)
    requires Agrees(ram, e) && MustReserve(ram) && Behind(ram, e'.base, e'.n)
    requires Erases(ram) ==> InStep(ram, e.base, e.n) && (e.base + e.n) % WORDS_PER_PAGE == 0
    requires ram'.nextSeq == ram.nextSeq && InStep(ram', e'.base, e'.n)
    ensures Agrees(ram', e') && ram'.nextSeq < ram'.reservedUntil
    ensures Balanced(Erases(ram), ram, e, ram', e', false)
  {
  }

  lemma {:induction false} WriteStepKeepsLog(words: Storage, ram: Ram, env: Env, e: Effect) returns (e': Effect)
    requires Ready(words, ram, e)
    requires env.writeFault.Some? ==>
               env.writeFault.value == words[ram.nextSlot]
                 || env.writeFault.value == And(words[ram.nextSlot], NewCeiling(ram))
    requires Erases(ram) ==> (e.base + e.n) % WORDS_PER_PAGE == 0
    ensures var a := WriteStep(words, ram, env);
            && (a.failure.Some? ==> a.failure.value.FlashError?)
            && Accounts(a.words, a.ram, e') && (a.failure.None? ==> a.ram.nextSeq < a.ram.reservedUntil)
            && Balanced(Erases(ram), ram, e, a.ram, e', a.failure.Some?)
  {
    hide And, Log;
    e' := WriteKeepsLog(words, ram, e);
    if env.writeFault.Some? && env.writeFault.value == words[ram.nextSlot] {
      assert words[ram.nextSlot := env.writeFault.value] == words;
      e' := e;
    } else if env.writeFault.Some? || env.readFault {
      LandedUnread(ram, e, e');
    } else {
      LandedRead(ram, e, Ram(ram.nextSeq, NewCeiling(ram), NextSlot(ram.nextSlot)), e');
    }
  }

  lemma {:induction false} AdvanceKeepsLog(words: Storage, ram: Ram, env: Env, e: Effect) returns (e': Effect)
    requires Accounts(words, ram, e) && MustReserve(ram) && HasRoom(ram) && AllOrNothing(words, ram, env)
    ensures var a := Advance(words, ram, env);
            && (a.failure.Some? ==> a.failure.value.FlashError?)
            && Accounts(a.words, a.ram, e') && (a.failure.None? ==> a.ram.nextSeq < a.ram.reservedUntil)
            && Balanced(Erases(ram), ram, e, a.ram, e', a.failure.Some?)
  {
    hide And, Log, WriteStep;
    e' := EraseKeepsLog(words, ram, env, e);
    if !EraseFails(ram, env) {
      e' := WriteStepKeepsLog(EraseStep(words, ram, env), ram, env, e');
    }
  }

  lemma {:induction false} TakeKeepsLog(words: Storage, ram: Ram, e: Effect)
    requires Accounts(words, ram, e) && ram.nextSeq < ram.reservedUntil
    ensures Accounts(words, Take(ram), e) && Owed(Take(ram), e) == Owed(ram, e)
  {
    hide And, Log;
  }

  lemma {:induction false} NextKeepsLog(words: Storage, ram: Ram, env: Env, e: Effect) returns (e': Effect)
    requires Accounts(words, ram, e) && HasRoom(ram) && AllOrNothing(words, ram, env)
    ensures var a := Next(words, ram, env);
            && !a.result.Panicked? && Accounts(a.words, a.ram, e')
            && Balanced(Erases(ram), ram, e, a.ram, e', a.result.FlashError?)
  {
    hide Advance, Log;
    if MustReserve(ram) {
      e' := AdvanceKeepsLog(words, ram, env, e);
      var a := Advance(words, ram, env);
      if a.failure.None? {
        TakeKeepsLog(a.words, a.ram, e');
      }
    } else {
      e' := e;
      TakeKeepsLog(words, ram, e);
    }
  }

  // ---- over whole runs ----

  // The first number above every one the counter could have handed out so far.
  function Mark(states: seq<State>, k: nat): Word
    requires k < |states|
  {
    if states[k].cpu.Running? then states[k].cpu.ram.nextSeq
    else if k == 0 then 0
    else Mark(states, k - 1)
  }

  function PageErases(states: seq<State>, events: seq<Event>, k: nat): nat
    requires k <= |events| < |states|
  {
    if k == 0 then 0
    else PageErases(states, events, k - 1) +
         Count(events[k - 1].Call? && states[k - 1].cpu.Running? && Erases(states[k - 1].cpu.ram))
  }

  function Failures(states: seq<State>, events: seq<Event>, k: nat): nat
    requires k <= |events| < |states|
  {
    if k == 0 then 0
    else Failures(states, events, k - 1) +
         Count(events[k - 1].Call? && states[k - 1].cpu.Running? &&
               Next(states[k - 1].words, states[k - 1].cpu.ram, events[k - 1].env).result.FlashError?)
  }

  ghost predicate Atomic(states: seq<State>, events: seq<Event>) {
    && IsRun(states, events)
    && states[0] == State(ErasedStorage(), Off, [])
    && forall i :: 0 <= i < |events| ==> Fits(states[i], events[i]) && StepIsAllOrNothing(states[i], events[i])
  }

  ghost predicate Tracks(states: seq<State>, events: seq<Event>, k: nat, e: Effect)
    requires k <= |events| < |states|
  {
    var s := states[k];
    && Log(s.words, e.base, e.n)
    && (s.cpu.Running? ==> Accounts(s.words, s.cpu.ram, e))
    && Mark(states, k) <= RESERVATION_BLOCK * (e.base + e.n) <= Mark(states, k) + RESERVATION_BLOCK
    && PageErases(states, events, k) + (if s.cpu.Running? then Owed(s.cpu.ram, e)
      else 0) <= Pages(e) + Failures(states, events, k)
  }

  lemma {:induction false} BootAccounts(words: Storage, ram: Ram, e: Effect)
    requires Log(words, e.base, e.n) && Boots(words, ram)
    ensures Accounts(words, ram, e) && Owed(ram, e) == 0
    ensures ram.nextSeq == RESERVATION_BLOCK * (e.base + e.n)
  {
    BootRecoversTheLog(words, e.base, e.n, ram);
  }

  lemma {:induction false} RunKeepsLog(states: seq<State>, events: seq<Event>, k: nat) returns (e: Effect)
    requires Atomic(states, events) && k < |states|
    ensures Tracks(states, events, k, e)
  {
    hide And, Next;
    if k == 0 {
      e := Effect(0, 0);
    } else {
      var e0 := RunKeepsLog(states, events, k - 1);
      var s, event := states[k - 1], events[k - 1];
      assert Step(s, event, states[k]);
      match event
      case Boot(ram) =>
        e := e0;
        BootAccounts(s.words, ram, e);
      case PowerCut =>
        e := e0;
      case Call(env) =>
        e := NextKeepsLog(s.words, s.cpu.ram, env, e0);
    }
  }

  // Main result: at every point of a run the storage is the log of some number
  // of records - each slot is erased or holds record k = 1024 * k with
  // k - 1 its index mod 2048, the newest record is there, and a boot recovers
  // exactly it - and the page erases so far number at most one for each page
  // those records fill, plus one for each failed or cut attempt.
  lemma {:induction false} StorageIsTheLog(states: seq<State>, events: seq<Event>, k: nat) returns (records: nat)
    requires Atomic(states, events) && k < |states|
    ensures forall i: Slot :: states[k].words[i] == ERASED || exists r :: HoldsRecord(states[k].words, i, r, records)
    ensures records > 0 ==> states[k].words[(records - 1) % TOTAL_SLOTS] == RESERVATION_BLOCK * records
    ensures forall ram :: Boots(states[k].words, ram) ==>
                            ram.nextSeq == ram.reservedUntil == RESERVATION_BLOCK * records
                              && ram.nextSlot == records % TOTAL_SLOTS
    ensures PageErases(states, events, k) <= (records + WORDS_PER_PAGE - 1) / WORDS_PER_PAGE + Failures(states,
              events, k)
  {
    hide Log, Boots, HoldsRecord, PageErases, Failures;
    var e := RunKeepsLog(states, events, k);
    var words := states[k].words;
    records := e.base + e.n;
    LogSize(words, e.base, e.n);
    forall i: Slot
      ensures words[i] == ERASED || exists r :: HoldsRecord(words, i, r, records)
    {
      EverySlotIsARecord(words, e.base, e.n, records, i);
    }
    if records > 0 {
      RecordsAreWhereTheyBelong(words, e.base, e.n, records);
    }
    forall ram | Boots(words, ram)
      ensures ram.nextSeq == ram.reservedUntil == RESERVATION_BLOCK * records && ram.nextSlot == records % TOTAL_SLOTS
    {
      BootRecoversTheLog(words, e.base, e.n, ram);
      NextSlotOfLog(e.base, e.n);
    }
  }

  lemma {:induction false} LogSize(words: Storage, base: nat, n: nat)
    requires Log(words, base, n)
    ensures base % WORDS_PER_PAGE == 0 && n <= WORDS_PER_PAGE && (n == 0 ==> base == 0)
  {
  }

  // The mark is above every number handed out.
  lemma {:induction false} IssuedBelowMark(states: seq<State>, events: seq<Event>, k: nat)
    requires Atomic(states, events) && k < |states|
    ensures forall n :: n in states[k].issued ==> n < Mark(states, k)
    decreases k
  {
    hide Next, Covered;
    if k > 0 && states[k].cpu.Off? {
      IssuedBelowMark(states, events, k - 1);
      assert Step(states[k - 1], events[k - 1], states[k]);
    } else {
      RunsAreSafe(states, events);
      assert Safe(states[k]);
    }
  }

  // Main result: a boot resumes after every number handed out, and skips at
  // most one reservation block from the number that was next.
  lemma {:induction false} BootSkipsAtMostOneBlock(states: seq<State>, events: seq<Event>, k: nat)
    requires Atomic(states, events) && k < |events| && events[k].Boot?
    ensures forall n :: n in states[k].issued ==> n < Mark(states, k)
    ensures Mark(states, k) <= events[k].booted.nextSeq <= Mark(states, k) + RESERVATION_BLOCK
  {
    IssuedBelowMark(states, events, k);
    var e := RunKeepsLog(states, events, k);
    assert Step(states[k], events[k], states[k + 1]);
    BootAccounts(states[k].words, events[k].booted, e);
  }

  // ---- the last ceiling of all ----

  // The storage after 4194303 records: the newest ceiling is 0xFFFF_FC00, the
  // last that fits 32 bits.
  function FullLog(): Storage {
    seq(TOTAL_SLOTS, i requires 0 <= i < TOTAL_SLOTS =>
      if i < WORDS_PER_PAGE then RESERVATION_BLOCK * (4192256 + i + 1)
      else if i < TOTAL_SLOTS - 1 then RESERVATION_BLOCK * (4193280 + (i - WORDS_PER_PAGE) + 1)
      else ERASED)
  }

  lemma {:induction false} FullLogBoots(words: Storage)
    requires words == FullLog()
    ensures Log(words, 4193280, 1023)
    ensures Boots(words, Ram(0xFFFF_FC00, 0xFFFF_FC00, TOTAL_SLOTS - 1))
  {
    var newest: Slot := TOTAL_SLOTS - 2;
    assert PageOf(4193280) == WORDS_PER_PAGE;
    HeldIsReached(words, WORDS_PER_PAGE, TOTAL_SLOTS - 1, 4193280, newest);
    forall i: Slot | Reached(words, i)
      ensures words[i] <= 0xFFFF_FC00
      ensures words[i] == 0xFFFF_FC00 ==> newest <= i
    {
      ReachedInLog(words, 4193280, 1023, i);
    }
    assert IsScan(words, 0xFFFF_FC00, newest);
  }

  // Main result: the room premise fails in a life the counter can have. Over
  // the log of the last ceiling, a boot and one packet, a power cut, a boot and
  // one packet hand out the same number twice.
  lemma {:induction false} TheLastCeilingRepeats() returns (states: seq<State>, events: seq<Event>)
    ensures IsRun(states, events) && |states| == 6
    ensures states[0] == State(FullLog(), Off, [])
    ensures states[5].issued == [0xFFFF_FC00, 0xFFFF_FC00]
  {
    hide Boots, Log, Covered;
    var words := FullLog();
    var ram := Ram(0xFFFF_FC00, 0xFFFF_FC00, TOTAL_SLOTS - 1);
    var s0, s1 := State(words, Off, []), State(words, Running(ram), []);
    FullLogBoots(words);
    assert Step(s0, Boot(ram), s1);
    StepIsSafe(s0, Boot(ram), s1);
    assert !HasRoom(ram);
    var more, steps := WithoutRoomANumberRepeats(s1);
    states, events := [s0] + more, [Boot(ram)] + steps;
    forall i | 0 <= i < |events|
      ensures Step(states[i], events[i], states[i + 1])
    {
      assert i > 0 ==> states[i] == more[i - 1] && events[i] == steps[i - 1] && states[i + 1] == more[i];
    }
  }
}
