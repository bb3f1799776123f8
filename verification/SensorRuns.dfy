// Whole lives of one sensor's counter: boots, calls to `next`, failed and
// retried flash operations and power cuts, from any initial storage contents
// (firmware/sensor/src/seq_counter.rs).
module SensorRuns {
  import opened Words
  import opened SeqCounter

  datatype Cpu = Off | Running(ram: Ram)

  // `issued` is every number ever handed out, in order.
  datatype State = State(words: Storage, cpu: Cpu, issued: seq<Word>)

  datatype Event = Boot(booted: Ram) | Call(env: Env) | PowerCut

  ghost predicate Step(s: State, e: Event, s': State) {
    match e
    case Boot(ram) => s.cpu.Off? && Boots(s.words, ram) && s' == s.(cpu := Running(ram))
    case Call(env) => s.cpu.Running? && s' == AfterCall(s, Next(s.words, s.cpu.ram, env))
    case PowerCut => s' == s.(cpu := Off)
  }

  function AfterCall(s: State, a: After): State {
    State(a.words,
          if a.result.Panicked? then Off else Running(a.ram),
          if a.result.Issued? then s.issued + [a.result.n] else s.issued)
  }

  ghost predicate IsRun(states: seq<State>, events: seq<Event>) {
    && |states| == |events| + 1
    && forall i :: 0 <= i < |events| ==> Step(states[i], events[i], states[i + 1])
  }

  // The premise on the 32-bit ceiling: a reservation that starts has room.
  predicate HasRoom(ram: Ram) {
    MustReserve(ram) ==> ram.reservedUntil + RESERVATION_BLOCK < WORD_LIMIT
  }

  predicate Fits(s: State, e: Event) {
    e.Call? && s.cpu.Running? ==> HasRoom(s.cpu.ram)
  }

  // ---- what a running counter knows about its storage ----

  // The slot before the next one is reached by the scan and holds the ceiling.
  ghost predicate Tied(words: Storage, ram: Ram) {
    && ram.nextSeq <= ram.reservedUntil
    && if ram.reservedUntil == 0 then ram.nextSlot == 0
       else && IsValidRecord(ram.reservedUntil)
            && Reached(words, PrevSlot(ram.nextSlot))
            && words[PrevSlot(ram.nextSlot)] == ram.reservedUntil
  }

  // A number is covered when the next boot resumes above it.
  ghost predicate Covered(words: Storage, n: Word) {
    exists i: Slot :: Reached(words, i) && n < words[i]
  }

  lemma {:induction false} BootTies(words: Storage, ram: Ram)
    requires Boots(words, ram)
    ensures Tied(words, ram)
    ensures forall n: Word :: Covered(words, n) ==> n < ram.nextSeq
  {
  }

  lemma {:induction false} TiedCovers(words: Storage, ram: Ram, n: Word)
    requires Tied(words, ram) && n < ram.nextSeq
    ensures Covered(words, n)
  {
    assert Reached(words, PrevSlot(ram.nextSlot)) && n < words[PrevSlot(ram.nextSlot)];
  }

  // Neither an erase nor a write, complete or torn, touches the records the
  // counter relies on: they lie in another page or before the slot written.
  lemma {:induction false} StorageChangeKeepsTie(words: Storage, ram: Ram, env: Env, w: Word)
    requires Tied(words, ram)
    ensures Tied(EraseStep(words, ram, env), ram)
    ensures Tied(EraseStep(words, ram, env)[ram.nextSlot := w], ram)
  {
    if ram.reservedUntil != 0 {
      var prev := PrevSlot(ram.nextSlot);
      var after := EraseStep(words, ram, env)[ram.nextSlot := w];
      forall j: Slot | PageStart(prev) <= j <= prev
        ensures EraseStep(words, ram, env)[j] == words[j] && after[j] == words[j]
      {
      }
    }
  }

  // A completed write becomes the tie of the new state.
  lemma {:induction false} WriteKeepsTie(words: Storage, ram: Ram, w: Word)
    requires Tied(words, ram)
    ensures Tied(words[ram.nextSlot := w], ram)
  {
    if ram.reservedUntil != 0 {
      var prev := PrevSlot(ram.nextSlot);
      assert forall j: Slot :: PageStart(prev) <= j <= prev ==> words[ram.nextSlot := w][j] == words[j];
    }
  }

  lemma {:induction false} WriteTies(words: Storage, ram: Ram)
    requires Tied(words, ram) && MustReserve(ram) && HasRoom(ram)
    requires words[ram.nextSlot] == NewCeiling(ram)
    ensures Tied(words, Ram(ram.nextSeq, NewCeiling(ram), NextSlot(ram.nextSlot)))
  {
    assert PrevSlot(NextSlot(ram.nextSlot)) == ram.nextSlot;
    assert Reached(words, ram.nextSlot);
  }

  lemma {:induction false} AdvanceKeepsTie(words: Storage, ram: Ram, env: Env)
    requires Tied(words, ram) && MustReserve(ram) && HasRoom(ram)
    ensures var a := Advance(words, ram, env);
            && Tied(a.words, a.ram)
            && a.ram.nextSeq == ram.nextSeq && ram.reservedUntil <= a.ram.reservedUntil
            && (if a.failure.Some? then a.ram == ram && !a.failure.value.Issued?
              else a.ram.nextSeq < a.ram.reservedUntil)
  {
    var slot := ram.nextSlot;
    var erased := EraseStep(words, ram, env);
    StorageChangeKeepsTie(words, ram, env, And(erased[slot], NewCeiling(ram)));
    if env.writeFault.Some? {
      StorageChangeKeepsTie(words, ram, env, env.writeFault.value);
    } else if And(erased[slot], NewCeiling(ram)) == NewCeiling(ram) {
      WriteTies(erased[slot := NewCeiling(ram)], ram);
    }
  }

  lemma {:induction false} NextKeepsTie(words: Storage, ram: Ram, env: Env)
    requires Tied(words, ram) && HasRoom(ram)
    ensures var a := Next(words, ram, env);
            && Tied(a.words, a.ram)
            && (a.result.Issued? ==> a.result.n == ram.nextSeq && a.ram.nextSeq == ram.nextSeq + 1)
            && (!a.result.Issued? ==> a.ram == ram)
  {
    if MustReserve(ram) {
      AdvanceKeepsTie(words, ram, env);
    }
  }

  // ---- numbers never repeat ----

  ghost predicate Increasing(s: seq<Word>) {
    forall i, j :: 0 <= i < j < |s| ==> s[i] < s[j]
  }

  ghost predicate Safe(s: State) {
    && Increasing(s.issued)
    && (forall n: Word :: n in s.issued ==> Covered(s.words, n))
    && (s.cpu.Running? ==> Tied(s.words, s.cpu.ram) && forall n: Word :: n in s.issued ==> n < s.cpu.ram.nextSeq)
  }

  lemma {:induction false} StepIsSafe(s: State, e: Event, s': State)
    requires Safe(s) && Step(s, e, s') && Fits(s, e)
    ensures Safe(s')
  {
    match e
    case Boot(ram) =>
      BootTies(s.words, ram);
    case PowerCut =>
    case Call(env) =>
      var a := Next(s.words, s.cpu.ram, env);
      NextKeepsTie(s.words, s.cpu.ram, env);
      forall n: Word | n in s'.issued
        ensures n < a.ram.nextSeq && Covered(s'.words, n)
      {
        TiedCovers(a.words, a.ram, n);
      }
      forall i | 0 <= i < |s.issued|
        ensures s.issued[i] < s.cpu.ram.nextSeq
      {
        assert s.issued[i] in s.issued;
      }
  }

  lemma {:induction false} RunsAreSafe(states: seq<State>, events: seq<Event>)
    requires IsRun(states, events) && Safe(states[0])
    requires forall i :: 0 <= i < |events| ==> Fits(states[i], events[i])
    ensures forall i :: 0 <= i < |states| ==> Safe(states[i])
    decreases |events|
  {
    if |events| == 0 {
    } else {
      var n := |events| - 1;
      assert IsRun(states[..n + 1], events[..n]) by {
        forall i | 0 <= i < n
          ensures Step(states[..n + 1][i], events[..n][i], states[..n + 1][i + 1])
        {
          assert Step(states[i], events[i], states[i + 1]);
        }
      }
      RunsAreSafe(states[..n + 1], events[..n]);
      assert Safe(states[..n + 1][n]);
      StepIsSafe(states[n], events[n], states[n + 1]);
      forall i | 0 <= i < |states|
        ensures Safe(states[i])
      {
        if i <= n { assert Safe(states[..n + 1][i]); }
      }
    }
  }

  // Main result: from any storage contents, over any sequence of boots, calls,
  // torn or failed erases and writes, retries and power cuts, the numbers
  // handed out strictly increase.
  lemma {:induction false} NumbersStrictlyIncrease(states: seq<State>, events: seq<Event>)
    requires IsRun(states, events)
    requires states[0].cpu.Off? && states[0].issued == []
    requires forall i :: 0 <= i < |events| ==> Fits(states[i], events[i])
    ensures forall k :: 0 <= k < |states| ==> Increasing(states[k].issued)
  {
    RunsAreSafe(states, events);
    forall k | 0 <= k < |states|
      ensures Increasing(states[k].issued)
    {
      assert Safe(states[k]);
    }
  }

  // ---- boots never resume below a ceiling once reserved ----

  ghost predicate Floor(s: State, ceiling: Word) {
    match s.cpu
    case Running(ram) => ceiling <= ram.reservedUntil && Tied(s.words, ram)
    case Off => ceiling == 0 || exists i: Slot :: Reached(s.words, i) && ceiling <= s.words[i]
  }

  lemma {:induction false} StepKeepsFloor(s: State, e: Event, s': State, ceiling: Word)
    requires Floor(s, ceiling) && Step(s, e, s') && Fits(s, e)
    ensures Floor(s', ceiling)
  {
    match e
    case Boot(ram) =>
      BootTies(s.words, ram);
    case PowerCut =>
      if s.cpu.Running? && ceiling != 0 {
        assert Reached(s.words, PrevSlot(s.cpu.ram.nextSlot));
      }
    case Call(env) =>
      var a := Next(s.words, s.cpu.ram, env);
      NextKeepsTie(s.words, s.cpu.ram, env);
      if MustReserve(s.cpu.ram) { AdvanceKeepsTie(s.words, s.cpu.ram, env); }
      if s'.cpu.Off? && ceiling != 0 {
        assert Reached(a.words, PrevSlot(a.ram.nextSlot));
      }
  }

  // Whatever tears in between, every state after one that had reserved up to a
  // ceiling still guarantees it, so a later boot resumes at least there.
  lemma {:induction false} CeilingsNeverRegress(states: seq<State>, events: seq<Event>, i: nat, k: nat)
    requires IsRun(states, events) && i <= k < |states|
    requires forall j :: 0 <= j < |events| ==> Fits(states[j], events[j])
    requires states[i].cpu.Running? && Tied(states[i].words, states[i].cpu.ram)
    ensures Floor(states[k], states[i].cpu.ram.reservedUntil)
    ensures states[k].cpu.Running? ==> states[i].cpu.ram.reservedUntil <= states[k].cpu.ram.reservedUntil
  {
    hide Step, Tied, Fits;
    if i < k {
      CeilingsNeverRegress(states, events, i, k - 1);
      assert Step(states[k - 1], events[k - 1], states[k]);
      StepKeepsFloor(states[k - 1], events[k - 1], states[k], states[i].cpu.ram.reservedUntil);
    }
  }

  // ---- the premise is exactly what is needed ----

  lemma {:induction false} ReachedIsBounded(words: Storage, i: Slot)
    requires Reached(words, i)
    ensures 0 < words[i] <= WORD_LIMIT - RESERVATION_BLOCK
  {
    assert IsValidRecord(words[i]);
  }

  // Some first slot holds the largest reached ceiling.
  lemma {:induction false} FirstSlotHolding(words: Storage, c: Word, at: Slot) returns (first: Slot)
    requires Reached(words, at) && words[at] == c
    ensures Reached(words, first) && words[first] == c
    ensures forall i: Slot :: Reached(words, i) && words[i] == c ==> first <= i
  {
    first := at;
    var k: int := at;
    while k > 0
      invariant 0 <= k <= first
      invariant Reached(words, first) && words[first] == c
      invariant forall i: Slot :: k <= i && Reached(words, i) && words[i] == c ==> first <= i
    {
      k := k - 1;
      var slot: Slot := k;
      if Reached(words, slot) && words[slot] == c {
        first := slot;
      }
    }
  }

  // The converse of the premise: from any state of a run in which a reservation
  // starts without room, there is a continuation - take the number, lose power,
  // boot, take a number - that hands out the same number twice.
  lemma {:induction false} WithoutRoomANumberRepeats(s: State) returns (states: seq<State>, events: seq<Event>)
    requires Safe(s) && s.cpu.Running? && !HasRoom(s.cpu.ram)
    ensures IsRun(states, events) && states[0] == s && |states| == 5
    ensures states[4].issued == s.issued + [s.cpu.ram.nextSeq, s.cpu.ram.nextSeq]
  {
    hide Covered;
    var ram := s.cpu.ram;
    var n := ram.nextSeq;
    var env := Env(None, None, false);
    var prev := PrevSlot(ram.nextSlot);
    ReachedIsBounded(s.words, prev);
    assert n == ram.reservedUntil == WORD_LIMIT - RESERVATION_BLOCK && NewCeiling(ram) == 0;

    var a := Next(s.words, ram, env);
    StorageChangeKeepsTie(s.words, ram, env, 0);
    assert And(EraseStep(s.words, ram, env)[ram.nextSlot], 0) == 0;
    assert a.words == EraseStep(s.words, ram, env)[ram.nextSlot := 0] && a.result == Issued(n);
    var s1 := AfterCall(s, a);
    var s2 := s1.(cpu := Off);

    forall i: Slot | Reached(s2.words, i)
      ensures s2.words[i] <= n
    {
      ReachedIsBounded(s2.words, i);
    }
    var first := FirstSlotHolding(s2.words, n, prev);
    var again := Ram(n, n, NextSlot(first));
    assert IsScan(s2.words, n, first);
    var s3 := s2.(cpu := Running(again));
    assert And(EraseStep(s3.words, again, env)[again.nextSlot], 0) == 0;
    var s4 := AfterCall(s3, Next(s3.words, again, env));
    states := [s, s1, s2, s3, s4];
    events := [Call(env), PowerCut, Boot(again), Call(env)];
  }
}
