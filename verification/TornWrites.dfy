// What the counter promises when a cut write clears only some of the bits it
// should and an erase either happens or does not: from erased storage the
// readback assertion never fires, and a boot picks a slot that can still take
// the next ceiling (firmware/sensor/src/seq_counter.rs).
module TornWrites {
  import opened Words
  import opened SeqCounter
  import opened SensorRuns

  // The faults considered here: an erase that did not happen or completed, and
  // a write that stopped anywhere between the old word and the finished one.
  ghost predicate TornOnly(words: Storage, ram: Ram, env: Env) {
    && (env.eraseFault.Some? && ram.nextSlot == PageStart(ram.nextSlot) ==>
          || SetPage(words, ram.nextSlot, env.eraseFault.value) == words
          || env.eraseFault.value == ErasedPage())
    && (env.writeFault.Some? ==>
          var before := EraseStep(words, ram, env)[ram.nextSlot];
          && Within(And(before, NewCeiling(ram)), env.writeFault.value)
          && Within(env.writeFault.value, before))
  }

  ghost predicate StepIsTornOnly(s: State, e: Event) {
    e.Call? && s.cpu.Running? ==> TornOnly(s.words, s.cpu.ram, e.env)
  }

  // ---- the shape of storage between operations ----

  ghost predicate Records(words: Storage, lo: int, hi: int) {
    && (forall i: Slot :: lo <= i < hi ==> IsValidRecord(words[i]))
    && (forall i: Slot, j: Slot :: lo <= i < j < hi ==> words[i] < words[j])
  }

  // The word the next record goes to: still erased, or left by a torn write of
  // the next ceiling with at least that ceiling's bits.
  ghost predicate Pending(w: Word, ceiling: Word) {
    w == ERASED || (ceiling + RESERVATION_BLOCK < WORD_LIMIT && Within(ceiling + RESERVATION_BLOCK, w))
  }

  ghost predicate Open(words: Storage, slot: Slot, ceiling: Word) {
    Pending(words[slot], ceiling) && Blank(words, slot + 1, PageStart(slot) + WORDS_PER_PAGE)
  }

  // A full page of records all below `bound`.
  ghost predicate Older(words: Storage, start: Slot, bound: Word) {
    Records(words, start, start + WORDS_PER_PAGE) &&
    forall i: Slot :: start <= i < start + WORDS_PER_PAGE ==> words[i] < bound
  }

  // What the page not being filled holds: nothing yet, or older records.
  ghost predicate Behind(words: Storage, start: Slot, bound: Word) {
    Blank(words, start, start + WORDS_PER_PAGE) || Older(words, start, bound)
  }

  ghost predicate Fresh(words: Storage) {
    Open(words, 0, 0) && Blank(words, WORDS_PER_PAGE, TOTAL_SLOTS)
  }

  // The next record goes inside the page being filled ...
  ghost predicate MidPage(words: Storage, ceiling: Word, next: Slot) {
    && next != PageStart(next)
    && words[next - 1] == ceiling
    && Records(words, PageStart(next), next)
    && Open(words, next, ceiling)
    && Behind(words, OtherPage(PageStart(next)), words[PageStart(next)])
  }

  // ... or starts the other page, which still has to be erased or is open.
  ghost predicate PageEdge(words: Storage, ceiling: Word, next: Slot) {
    && next == PageStart(next)
    && words[OtherPage(next) + WORDS_PER_PAGE - 1] == ceiling
    && Records(words, OtherPage(next), OtherPage(next) + WORDS_PER_PAGE)
    && (Open(words, next, ceiling) || Older(words, next, words[OtherPage(next)]))
  }

  // `ceiling` is the newest finished record and `next` the slot after it.
  ghost predicate Clean(words: Storage, ceiling: Word, next: Slot) {
    || (ceiling == 0 && next == 0 && Fresh(words))
    || MidPage(words, ceiling, next)
    || PageEdge(words, ceiling, next)
  }

  // ---- booting from a clean storage ----

  lemma {:induction false} PendingIsAbove(w: Word, ceiling: Word)
    requires Pending(w, ceiling) && IsValidRecord(w)
    ensures ceiling < w
  {
  }

  lemma {:induction false} ReachedStartsPage(words: Storage, i: Slot)
    requires Reached(words, i)
    ensures IsValidRecord(words[i]) && IsValidRecord(words[PageStart(i)])
  {
  }

  // No slot above the pending one is reached in its page, and the pending one
  // only if the torn write left a record there.
  lemma {:induction false} OnlyPendingReached(words: Storage, next: Slot, ceiling: Word, i: Slot)
    requires Open(words, next, ceiling) && Reached(words, i)
    requires PageStart(i) == PageStart(next) && next <= i
    ensures i == next && IsValidRecord(words[next])
  {
    assert IsValidRecord(words[i]);
  }

  lemma {:induction false} BlankUnreached(words: Storage, start: Slot, i: Slot)
    requires start == PageStart(start) && Blank(words, start, start + WORDS_PER_PAGE) && PageStart(i) == start
    ensures !Reached(words, i)
  {
    assert words[i] == ERASED && !IsValidRecord(ERASED);
  }

  // A record a torn write left above the ceiling.
  predicate TornRecord(words: Storage, ceiling: Word, next: Slot) {
    IsValidRecord(words[next]) && words[next] > ceiling
  }

  lemma {:induction false} CeilingIsRecord(words: Storage, ceiling: Word, next: Slot)
    requires Clean(words, ceiling, next)
    ensures ceiling != 0 ==> IsValidRecord(ceiling) && Reached(words, PrevSlot(next))
    ensures ceiling != 0 ==> words[PrevSlot(next)] == ceiling
    ensures ceiling == 0 ==> next == 0 && Fresh(words)
  {
  }

  lemma {:induction false} TornRecordIsOpen(words: Storage, ceiling: Word, next: Slot)
    requires Clean(words, ceiling, next) && TornRecord(words, ceiling, next)
    ensures Open(words, next, ceiling) && Reached(words, next)
  {
    if PageEdge(words, ceiling, next) {
      var first := OtherPage(next);
      assert words[first] <= words[first + WORDS_PER_PAGE - 1];
    }
  }

  // Every reached slot holds at most the ceiling, or is the torn record.
  lemma {:induction false} ReachedInFilledPage(words: Storage, page: Slot, last: Slot, i: Slot)
    requires page == PageStart(page) == PageStart(last) == PageStart(i)
    requires Records(words, page, last + 1) && i <= last
    ensures words[i] <= words[last] && (words[i] == words[last] ==> i == last)
  {
  }

  lemma {:induction false} ReachedInClean(words: Storage, ceiling: Word, next: Slot, i: Slot)
    requires Clean(words, ceiling, next) && Reached(words, i)
    requires !(TornRecord(words, ceiling, next) && i == next)
    ensures ceiling != 0 && words[i] <= ceiling && (words[i] == ceiling ==> i == PrevSlot(next))
  {
    ReachedStartsPage(words, i);
    var page := PageStart(PrevSlot(next));
    if PageStart(i) == PageStart(next) && next <= i && Open(words, next, ceiling) {
      OnlyPendingReached(words, next, ceiling, i);
      PendingIsAbove(words[next], ceiling);
    } else if MidPage(words, ceiling, next) {
      ReachedInFilledPage(words, page, next - 1, page);
      if PageStart(i) == page {
        ReachedInFilledPage(words, page, next - 1, i);
      } else if Blank(words, OtherPage(page), OtherPage(page) + WORDS_PER_PAGE) {
        BlankUnreached(words, OtherPage(page), i);
      }
    } else if PageEdge(words, ceiling, next) {
      ReachedInFilledPage(words, page, PrevSlot(next), page);
      if PageStart(i) == page {
        ReachedInFilledPage(words, page, PrevSlot(next), i);
      }
    } else {
      assert false;
    }
  }

  lemma {:induction false} RecordsGrow(words: Storage, lo: Slot, next: Slot)
    requires lo < next && Records(words, lo, next)
    requires IsValidRecord(words[next]) && words[next - 1] < words[next]
    ensures Records(words, lo, next + 1)
  {
    forall i: Slot | lo <= i < next
      ensures words[i] < words[next]
    {
      assert words[i] <= words[next - 1];
    }
  }

  lemma {:induction false} TornRecordInPage(words: Storage, ceiling: Word, next: Slot)
    requires MidPage(words, ceiling, next) && TornRecord(words, ceiling, next)
    ensures Clean(words, words[next], NextSlot(next))
  {
    hide And;
    var page := PageStart(next);
    RecordsGrow(words, page, next);
    if next + 1 < page + WORDS_PER_PAGE {
      assert MidPage(words, words[next], next + 1);
    } else {
      assert Open(words, OtherPage(page), words[next]) || Older(words, OtherPage(page), words[page]);
      assert PageEdge(words, words[next], NextSlot(next));
    }
  }

  lemma {:induction false} TornRecordIsClean(words: Storage, ceiling: Word, next: Slot)
    requires Clean(words, ceiling, next) && TornRecord(words, ceiling, next)
    ensures Clean(words, words[next], NextSlot(next))
  {
    hide And;
    TornRecordIsOpen(words, ceiling, next);
    if MidPage(words, ceiling, next) {
      TornRecordInPage(words, ceiling, next);
    } else if PageEdge(words, ceiling, next) {
      var full := OtherPage(next);
      forall i: Slot | full <= i < full + WORDS_PER_PAGE
        ensures words[i] < words[next]
      {
        ReachedInFilledPage(words, full, full + WORDS_PER_PAGE - 1, i);
      }
      assert MidPage(words, words[next], next + 1);
    } else {
      assert MidPage(words, words[next], 1);
    }
  }

  lemma {:induction false} CleanBoots(words: Storage, ceiling: Word, next: Slot, ram: Ram)
    requires Clean(words, ceiling, next) && Boots(words, ram)
    ensures ram.reservedUntil >= ceiling
    ensures Clean(words, ram.reservedUntil, ram.nextSlot)
  {
    hide And;
    var slot: Slot :| IsScan(words, ram.reservedUntil, slot) &&
                      ram.nextSlot == if ram.reservedUntil == 0 then 0 else NextSlot(slot);
    CeilingIsRecord(words, ceiling, next);
    if TornRecord(words, ceiling, next) {
      TornRecordIsOpen(words, ceiling, next);
      if slot != next {
        ReachedInClean(words, ceiling, next, slot);
        assert false;
      }
      TornRecordIsClean(words, ceiling, next);
    } else if ram.reservedUntil != 0 {
      ReachedInClean(words, ceiling, next, slot);
    }
  }

  // ---- calls keep storage clean and never panic ----

  lemma {:induction false} ErasedStaysClean(words: Storage, ram: Ram, env: Env)
    requires Clean(words, ram.reservedUntil, ram.nextSlot) && TornOnly(words, ram, env)
    ensures Clean(EraseStep(words, ram, env), ram.reservedUntil, ram.nextSlot)
    ensures !(ram.nextSlot == PageStart(ram.nextSlot) && env.eraseFault.Some?) ==>
              Open(EraseStep(words, ram, env), ram.nextSlot, ram.reservedUntil)
  {
    hide And;
  }

  // Overwriting only the pending word keeps storage clean.
  lemma {:induction false} PendingStaysClean(words: Storage, ceiling: Word, next: Slot, w: Word)
    requires Clean(words, ceiling, next) && Open(words, next, ceiling) && Pending(w, ceiling)
    ensures Clean(words[next := w], ceiling, next) && Open(words[next := w], next, ceiling)
  {
    hide And;
    var after := words[next := w];
    assert Open(after, next, ceiling);
    if MidPage(words, ceiling, next) {
      assert Records(after, PageStart(next), next);
      assert Behind(after, OtherPage(PageStart(next)), after[PageStart(next)]);
      assert MidPage(after, ceiling, next);
    } else if PageEdge(words, ceiling, next) {
      assert Records(after, OtherPage(next), OtherPage(next) + WORDS_PER_PAGE);
      assert PageEdge(after, ceiling, next);
    } else {
      assert Fresh(after);
    }
  }

  lemma {:induction false} FinishedRecordIsClean(words: Storage, ceiling: Word, next: Slot)
    requires Clean(words, ceiling, next) && Open(words, next, ceiling)
    requires ceiling + RESERVATION_BLOCK < WORD_LIMIT && IsValidRecord(ceiling + RESERVATION_BLOCK)
    ensures Clean(words[next := ceiling + RESERVATION_BLOCK], ceiling + RESERVATION_BLOCK, NextSlot(next))
  {
    hide And, Clean;
    AndIdempotent(ceiling + RESERVATION_BLOCK);
    PendingStaysClean(words, ceiling, next, ceiling + RESERVATION_BLOCK);
    TornRecordIsClean(words[next := ceiling + RESERVATION_BLOCK], ceiling, next);
  }

  lemma {:induction false} PendingTakesCeiling(w: Word, ceiling: Word)
    requires Pending(w, ceiling) && ceiling + RESERVATION_BLOCK < WORD_LIMIT
    ensures And(w, ceiling + RESERVATION_BLOCK) == ceiling + RESERVATION_BLOCK
  {
    hide And;
    WriteErased(ceiling + RESERVATION_BLOCK);
    WriteOver(w, ceiling + RESERVATION_BLOCK);
  }

  ghost predicate CleanRam(words: Storage, ram: Ram) {
    && ram.nextSeq <= ram.reservedUntil && ram.reservedUntil % RESERVATION_BLOCK == 0
    && Clean(words, ram.reservedUntil, ram.nextSlot)
  }

  lemma {:induction false} WriteStepStaysClean(words: Storage, ram: Ram, env: Env)
    requires CleanRam(words, ram) && MustReserve(ram) && HasRoom(ram) && Open(words, ram.nextSlot, ram.reservedUntil)
    requires env.writeFault.Some? ==> Within(And(words[ram.nextSlot], NewCeiling(ram)), env.writeFault.value)
    ensures var a := WriteStep(words, ram, env);
            a.failure != Some(Panicked) && CleanRam(a.words, a.ram) && (a.failure.None? ==>
              a.ram.nextSeq < a.ram.reservedUntil)
  {
    hide And, Clean;
    var ceiling := ram.reservedUntil + RESERVATION_BLOCK;
    PendingTakesCeiling(words[ram.nextSlot], ram.reservedUntil);
    if env.writeFault.Some? {
      PendingStaysClean(words, ram.reservedUntil, ram.nextSlot, env.writeFault.value);
    } else if env.readFault {
      AndIdempotent(ceiling);
      PendingStaysClean(words, ram.reservedUntil, ram.nextSlot, ceiling);
    } else {
      FinishedRecordIsClean(words, ram.reservedUntil, ram.nextSlot);
    }
  }

  lemma {:induction false} AdvanceStaysClean(words: Storage, ram: Ram, env: Env)
    requires CleanRam(words, ram) && MustReserve(ram) && HasRoom(ram) && TornOnly(words, ram, env)
    ensures var a := Advance(words, ram, env);
            a.failure != Some(Panicked) && CleanRam(a.words, a.ram) && (a.failure.None? ==>
              a.ram.nextSeq < a.ram.reservedUntil)
  {
    hide And, WriteStep, Clean;
    ErasedStaysClean(words, ram, env);
    if !EraseFails(ram, env) {
      WriteStepStaysClean(EraseStep(words, ram, env), ram, env);
    }
  }

  lemma {:induction false} NextStaysClean(words: Storage, ram: Ram, env: Env)
    requires CleanRam(words, ram) && HasRoom(ram) && TornOnly(words, ram, env)
    ensures var a := Next(words, ram, env);
            !a.result.Panicked? && CleanRam(a.words, a.ram)
  {
    hide And, Advance, Clean;
    if MustReserve(ram) {
      AdvanceStaysClean(words, ram, env);
    }
  }

  // ---- over whole runs ----

  ghost predicate CleanState(s: State) {
    match s.cpu
    case Running(ram) => CleanRam(s.words, ram)
    case Off => exists ceiling: Word, next: Slot :: Clean(s.words, ceiling, next)
  }

  lemma {:induction false} BootIsClean(words: Storage, ram: Ram)
    requires Boots(words, ram) && exists ceiling: Word, next: Slot :: Clean(words, ceiling, next)
    ensures CleanRam(words, ram)
  {
    var ceiling: Word, next: Slot :| Clean(words, ceiling, next);
    CleanBoots(words, ceiling, next, ram);
    CeilingIsRecord(words, ram.reservedUntil, ram.nextSlot);
  }

  lemma {:induction false} StepStaysClean(s: State, e: Event, s': State)
    requires CleanState(s) && Step(s, e, s') && Fits(s, e) && StepIsTornOnly(s, e)
    ensures CleanState(s')
  {
    match e
    case Boot(ram) => BootIsClean(s.words, ram);
    case PowerCut =>
    case Call(env) => NextStaysClean(s.words, s.cpu.ram, env);
  }

  lemma {:induction false} RunsStayClean(states: seq<State>, events: seq<Event>, k: nat)
    requires IsRun(states, events) && k < |states|
    requires states[0].cpu.Off? && states[0].words == ErasedStorage()
    requires forall i :: 0 <= i < |events| ==> Fits(states[i], events[i]) && StepIsTornOnly(states[i], events[i])
    ensures CleanState(states[k])
  {
    if k == 0 {
      assert Clean(states[0].words, 0, 0);
    } else {
      RunsStayClean(states, events, k - 1);
      assert Step(states[k - 1], events[k - 1], states[k]);
      StepStaysClean(states[k - 1], events[k - 1], states[k]);
    }
  }

  // Main result, calls: the readback assertion never fires.
  lemma {:induction false} ReadbackNeverFails(states: seq<State>, events: seq<Event>, k: nat)
    requires IsRun(states, events) && k < |events|
    requires states[0].cpu.Off? && states[0].words == ErasedStorage()
    requires forall i :: 0 <= i < |events| ==> Fits(states[i], events[i]) && StepIsTornOnly(states[i], events[i])
    requires events[k].Call?
    ensures states[k].cpu.Running?
    ensures !Next(states[k].words, states[k].cpu.ram, events[k].env).result.Panicked?
  {
    RunsStayClean(states, events, k);
    assert Step(states[k], events[k], states[k + 1]);
    NextStaysClean(states[k].words, states[k].cpu.ram, events[k].env);
  }

  // Main result, progress: from erased storage, after any torn operations,
  // retries, cuts and boots, every call none of whose operations fails hands out
  // the next number.
  lemma {:induction false} HealthyCallsIssue(states: seq<State>, events: seq<Event>, k: nat)
    requires IsRun(states, events) && k < |events|
    requires states[0].cpu.Off? && states[0].words == ErasedStorage()
    requires forall i :: 0 <= i < |events| ==> Fits(states[i], events[i]) && StepIsTornOnly(states[i], events[i])
    requires events[k].Call?
    ensures states[k].cpu.Running?
    ensures !(MustReserve(states[k].cpu.ram) && Faulted(states[k].cpu.ram, events[k].env)) ==>
              && states[k + 1].cpu.Running? && states[k + 1].issued == states[k].issued + [states[k].cpu.ram.nextSeq]
              && states[k + 1].cpu.ram.nextSeq == states[k].cpu.ram.nextSeq + 1
  {
    hide Next, Fits, StepIsTornOnly;
    ReadbackNeverFails(states, events, k);
    assert Step(states[k], events[k], states[k + 1]);
    RunsStayClean(states, events, k);
    CallsAreExact(states[k].words, states[k].cpu.ram, events[k].env);
    NextIsAWord(states, events, k);
  }

  // The next number is not the last one of all.
  lemma {:induction false} NextIsAWord(states: seq<State>, events: seq<Event>, k: nat)
    requires k < |events| < |states| && Fits(states[k], events[k]) && events[k].Call?
    requires states[k].cpu.Running? && CleanRam(states[k].words, states[k].cpu.ram)
    ensures states[k].cpu.ram.nextSeq + 1 < WORD_LIMIT
  {
    hide Clean;
  }

  lemma {:induction false} CleanRamTakesCeiling(words: Storage, ram: Ram)
    requires CleanRam(words, ram) && ram.reservedUntil + RESERVATION_BLOCK < WORD_LIMIT
    ensures And(EraseStep(words, ram, Env(None, None, false))[ram.nextSlot], NewCeiling(ram)) == NewCeiling(ram)
  {
    hide And;
    ErasedStaysClean(words, ram, Env(None, None, false));
    PendingTakesCeiling(EraseStep(words, ram, Env(None, None, false))[ram.nextSlot], ram.reservedUntil);
  }

  // Main result, boots: the slot a boot picks can take the next ceiling - after
  // the erase when it starts a page, and as it stands when it does not.
  lemma {:induction false} BootPicksAWritableSlot(states: seq<State>, events: seq<Event>, k: nat)
    requires IsRun(states, events) && k < |events|
    requires states[0].cpu.Off? && states[0].words == ErasedStorage()
    requires forall i :: 0 <= i < |events| ==> Fits(states[i], events[i]) && StepIsTornOnly(states[i], events[i])
    requires events[k].Boot? && events[k].booted.reservedUntil + RESERVATION_BLOCK < WORD_LIMIT
    ensures var ram := events[k].booted;
            And(EraseStep(states[k].words, ram, Env(None, None, false))[ram.nextSlot],
              NewCeiling(ram)) == NewCeiling(ram)
  {
    RunsStayClean(states, events, k + 1);
    assert Step(states[k], events[k], states[k + 1]);
    CleanRamTakesCeiling(states[k].words, events[k].booted);
  }
}
