// The provisioning tool's hands on the chip: record erase and write with
// readback, the storage erase, and `install_key` as the sequence of them
// (provision/src/chip.rs, provision/src/chip/nvmc.rs, provision/src/chip/memory.rs,
// provision/src/commands.rs).
//
// Every operation can fail at any point, and an erase can leave anything without
// failing, unless the session is a reliable one, in which every hardware
// operation does its work. The chip carries a ghost history of the
// board's life, and each method extends it by steps of `BoardLife`, so what is
// proved of every life holds of every way these methods can end; over a
// reliable session it is also said exactly when they succeed.
module Chip {
  import opened Words
  import opened SeqCounter
  import opened UicrRecord
  import opened BoardLife

  const PAGE_SIZE := 4096
  const CHUNK_SIZE := 128

  datatype Mode = ReadOnly | WriteEnabled | EraseEnabled

  datatype Mismatch = Mismatch(address: nat, expected: Word, actual: Word)

  // The first index at which two chunks differ.
  method FirstDifference(actual: seq<Word>, expected: seq<Word>) returns (r: Option<nat>)
    requires |actual| == |expected|
    ensures r.None? ==> actual == expected
    ensures r.Some? ==> r.value < |expected| && actual[..r.value] == expected[..r.value]
    ensures r.Some? ==> actual[r.value] != expected[r.value]
  {
    for i := 0 to |expected|
      invariant actual[..i] == expected[..i]
    {
      if actual[i] != expected[i] {
        return Some(i);
      }
    }
    r := None;
  }

  // The words agree up to index i and differ there.
  ghost predicate DifferFirstAt(actual: seq<Word>, expected: seq<Word>, i: nat)
    requires |actual| == |expected|
  {
    i < |expected| && actual[..i] == expected[..i] && actual[i] != expected[i]
  }

  // Compares the memory from word `at` on, at address `base`, with the expected
  // words a chunk at a time. `None` is a failed read; Some(None) says the words
  // are equal, Some(Some(m)) names the first word that differs.
  method FindMismatch(memory: array<Word>, at: nat, base: nat, words: seq<Word>, reliable: bool)
    returns (r: Option<Option<Mismatch>>)
    requires at + |words| <= memory.Length
    ensures reliable ==> r.Some?
    ensures r.Some? && r.value.None? ==> memory[at..at + |words|] == words
    ensures r.Some? && r.value.Some? ==>
              exists i: nat :: DifferFirstAt(memory[at..at + |words|], words, i) &&
                               r.value.value == Mismatch(base + 4 * i, words[i], memory[at + i])
  {
    ghost var all := memory[at..at + |words|];
    var done := 0;
    var address := base;
    while done < |words|
      invariant 0 <= done <= |words| && address == base + 4 * done
      invariant all[..done] == words[..done]
    {
      var length := if |words| - done < CHUNK_SIZE then |words| - done else CHUNK_SIZE;
      var fails: bool := *;
      if fails && !reliable {
        return None;
      }
      var buffer, chunk := memory[at + done..at + done + length], words[done..done + length];
      assert buffer == all[done..done + length];
      var i := FirstDifference(buffer, chunk);
      ChunkExtends(all, words, done, length, i);
      if i.Some? {
        return Some(Some(Mismatch(address + 4 * i.value, chunk[i.value], buffer[i.value])));
      }
      address := address + 4 * length;
      done := done + length;
    }
    r := Some(None);
  }

  // What one chunk's comparison says of the whole.
  lemma {:induction false} ChunkExtends(all: seq<Word>, words: seq<Word>, done: nat, length: nat, i: Option<nat>)
    requires |all| == |words| && done + length <= |words| && all[..done] == words[..done]
    requires i.None? ==> all[done..done + length] == words[done..done + length]
    requires i.Some? ==> DifferFirstAt(all[done..done + length], words[done..done + length], i.value)
    ensures i.None? ==> all[..done + length] == words[..done + length]
    ensures i.Some? ==> DifferFirstAt(all, words, done + i.value)
  {
    var n := if i.Some? then i.value else length;
    FrontExtends(all, done, length, n);
    FrontExtends(words, done, length, n);
  }

  lemma {:induction false} FrontExtends(s: seq<Word>, done: nat, length: nat, n: nat)
    requires done + length <= |s| && n <= length
    ensures s[..done + n] == s[..done] + s[done..done + length][..n]
  {
  }

  // ---- images ----

  // A run of words to be programmed from word `at` of flash on.
  datatype Segment = Segment(at: nat, words: seq<Word>)

  // What the installer knows of an image: where it loads, its segments in flash,
  // whether it has one in UICR too, and the storage range it declares.
  datatype Image = Image(
    appStart: nat, segments: seq<Segment>, reachesUicr: bool, storageRange: Option<(nat, nat)>)

  predicate FitsIn(segments: seq<Segment>, length: nat) {
    forall k :: 0 <= k < |segments| ==> segments[k].at + |segments[k].words| <= length
  }

  predicate Holds(segment: Segment, i: nat) {
    segment.at <= i < segment.at + |segment.words|
  }

  // No word belongs to two segments.
  ghost predicate Apart(segments: seq<Segment>) {
    forall j, k, i :: 0 <= j < k < |segments| && Holds(segments[j], i) ==> !Holds(segments[k], i)
  }

  // The word the segments put at i.
  function ImageWord(segments: seq<Segment>, i: nat): Option<Word> {
    if segments == [] then None
    else if Holds(segments[0], i) then Some(segments[0].words[i - segments[0].at])
    else ImageWord(segments[1..], i)
  }

  lemma {:induction false} ImageWordIsThere(segments: seq<Segment>, k: nat, i: nat)
    requires Apart(segments) && k < |segments| && Holds(segments[k], i)
    ensures ImageWord(segments, i) == Some(segments[k].words[i - segments[k].at])
  {
    if k == 0 {
    } else {
      assert !Holds(segments[0], i);
      var rest := segments[1..];
      forall j, l, n | 0 <= j < l < |rest| && Holds(rest[j], n)
        ensures !Holds(rest[l], n)
      {
        assert Holds(segments[j + 1], n) ==> !Holds(segments[l + 1], n);
      }
      ImageWordIsThere(rest, k - 1, i);
    }
  }

  lemma {:induction false} ImageWordTouches(segments: seq<Segment>, i: nat)
    requires ImageWord(segments, i).Some?
    ensures Touches(segments, i)
  {
    if Holds(segments[0], i) {
      assert InPagesOf(segments[0], i);
    } else {
      ImageWordTouches(segments[1..], i);
      var k :| 0 <= k < |segments[1..]| && InPagesOf(segments[1..][k], i);
      assert InPagesOf(segments[k + 1], i);
    }
  }

  // The word lies in a page that some segment has a word in.
  predicate Touches(segments: seq<Segment>, i: nat) {
    exists k :: 0 <= k < |segments| && InPagesOf(segments[k], i)
  }

  predicate InPagesOf(segment: Segment, i: nat) {
    segment.words != [] &&
    segment.at / WORDS_PER_PAGE <= i / WORDS_PER_PAGE <= (segment.at + |segment.words| - 1) / WORDS_PER_PAGE
  }

  // It does exactly when some word of a segment lies in its page.
  lemma {:induction false} TouchesExactly(segments: seq<Segment>, i: nat)
    ensures Touches(segments, i) <==>
              exists k, w: nat :: 0 <= k < |segments| && Holds(segments[k], w) && SamePage(w, i)
  {
    hide InPagesOf, Holds, SamePage;
    forall k | 0 <= k < |segments|
      ensures InPagesOf(segments[k], i) <==> exists w: nat :: Holds(segments[k], w) && SamePage(w, i)
    {
      InPagesExactly(segments[k], i);
    }
  }

  predicate SamePage(w: nat, i: nat) {
    w / WORDS_PER_PAGE == i / WORDS_PER_PAGE
  }

  lemma {:induction false} InPagesExactly(segment: Segment, i: nat)
    ensures InPagesOf(segment, i) <==> exists w: nat :: Holds(segment, w) && SamePage(w, i)
  {
    if InPagesOf(segment, i) {
      var start := i / WORDS_PER_PAGE * WORDS_PER_PAGE;
      var w: nat := if start < segment.at then segment.at else start;
      assert Holds(segment, w) && SamePage(w, i);
    }
  }

  predicate Aligned(start: nat, end: nat) {
    start < end && start % PAGE_SIZE == 0 && end % PAGE_SIZE == 0
  }

  lemma {:induction false} AlignedRange(start: nat, end: nat)
    requires Aligned(start, end)
    ensures start / 4 < end / 4 && start / 4 % WORDS_PER_PAGE == 0 && end / 4 % WORDS_PER_PAGE == 0
    ensures start == 4 * (start / 4) && end == 4 * (end / 4)
  {
    PageOfWords(start, start / PAGE_SIZE);
    PageOfWords(end, end / PAGE_SIZE);
  }

  lemma {:induction false} PageOfWords(address: nat, page: nat)
    requires address == PAGE_SIZE * page
    ensures address / 4 == WORDS_PER_PAGE * page && address == 4 * (address / 4)
    ensures address / 4 % WORDS_PER_PAGE == 0
  {
    assert address == 4 * (WORDS_PER_PAGE * page);
    assert address / 4 == WORDS_PER_PAGE * page;
    assert WORDS_PER_PAGE * page % WORDS_PER_PAGE == 0;
  }

  lemma {:induction false} NextPage(page: nat, last: nat)
    requires page < last && page % WORDS_PER_PAGE == 0 && last % WORDS_PER_PAGE == 0
    ensures page + WORDS_PER_PAGE <= last && (page + WORDS_PER_PAGE) % WORDS_PER_PAGE == 0
  {
    var p, l := page / WORDS_PER_PAGE, last / WORDS_PER_PAGE;
    assert page == WORDS_PER_PAGE * p && last == WORDS_PER_PAGE * l;
    assert p < l;
  }

  predicate InRange(range: Option<(nat, nat)>, i: nat) {
    range.Some? && range.value.0 <= 4 * i < range.value.1
  }

  // The images an install takes over flash of `length` words starting with `bottom`.
  predicate Accepts(firmware: Option<Image>, bottom: Word, length: nat) {
    firmware.Some? ==>
      && (firmware.value.appStart > 0 ==> bottom != ERASED) && FitsIn(firmware.value.segments, length)
      && (firmware.value.storageRange.Some? ==>
            && Aligned(firmware.value.storageRange.value.0, firmware.value.storageRange.value.1)
            && firmware.value.storageRange.value.1 <= 4 * length)
  }

  // The record still has every bit of this key's.
  ghost predicate TakesRecord(before: Record, key: Key) {
    forall i :: 0 <= i < RECORD_WORDS ==> Within(RecordOf(key)[i], before[i])
  }

  lemma {:induction false} ErasedTakesRecord(before: Record, key: Key)
    requires ErasedRecord(before)
    ensures TakesRecord(before, key)
  {
    hide And, RecordOf;
    forall i | 0 <= i < RECORD_WORDS
      ensures Within(RecordOf(key)[i], before[i])
    {
      WriteErased(RecordOf(key)[i]);
    }
  }

  lemma {:induction false} WritingTakes(before: Record, after: Record, key: Key)
    requires forall i :: 0 <= i < RECORD_WORDS ==> after[i] == And(before[i], RecordOf(key)[i])
    ensures after == RecordOf(key) <==> TakesRecord(before, key)
  {
    hide And, RecordOf;
    forall i | 0 <= i < RECORD_WORDS
      ensures after[i] == RecordOf(key)[i] <==> Within(RecordOf(key)[i], before[i])
    {
      WriteOver(before[i], RecordOf(key)[i]);
    }
  }

  // Erasing a page of flash erases that page of the storage, or leaves it alone.
  lemma {:induction false} StorageAfterErase(
    before: seq<Word>, after: seq<Word>, storageAt: nat, page: nat, words: Page)
    requires storageAt % WORDS_PER_PAGE == 0 && page % WORDS_PER_PAGE == 0
    requires storageAt + TOTAL_SLOTS <= |before| == |after| && page + WORDS_PER_PAGE <= |before|
    requires forall i :: 0 <= i < |after| ==> after[i] == if page <= i < page + WORDS_PER_PAGE
               then words[i - page] else before[i]
    ensures var old', new' := before[storageAt..storageAt + TOTAL_SLOTS], after[storageAt..storageAt + TOTAL_SLOTS];
            if storageAt <= page < storageAt + TOTAL_SLOTS
            then page - storageAt == PageStart(page - storageAt) && new' == SetPage(old', page - storageAt, words)
            else new' == old'
  {
    var k := (page - storageAt) / WORDS_PER_PAGE;
    assert page == storageAt + WORDS_PER_PAGE * k;
  }

  class Chip {
    const uicr: array<Word>
    const flash: array<Word>
    const storageAt: nat
    const reliable: bool
    var mode: Mode
    ghost var life: seq<Board>
    ghost var events: seq<Event>

    // A session with a board whose history so far is `s` alone.
    constructor (uicr: array<Word>, flash: array<Word>, storageAt: nat, reliable: bool, ghost s: Board)
      requires uicr.Length == RECORD_WORDS && uicr != flash
      requires storageAt % WORDS_PER_PAGE == 0 && storageAt + TOTAL_SLOTS <= flash.Length
      requires s.uicr == uicr[..] && s.words == flash[storageAt..storageAt + TOTAL_SLOTS]
      ensures Valid() && Now() == s && mode == ReadOnly && life == [s]
      ensures this.uicr == uicr && this.flash == flash && this.storageAt == storageAt
      ensures this.reliable == reliable
    {
      this.uicr, this.flash, this.storageAt, this.reliable := uicr, flash, storageAt, reliable;
      mode := ReadOnly;
      life, events := [s], [];
    }

    ghost predicate Logged()
      reads this
    {
      |life| > 0 && IsLife(life, events)
    }

    ghost function Now(): Board
      requires |life| > 0
      reads this
    {
      life[|life| - 1]
    }

    // The counter's storage is two whole pages of flash.
    ghost predicate Wired() {
      && uicr.Length == RECORD_WORDS && uicr != flash
      && storageAt % WORDS_PER_PAGE == 0 && storageAt + TOTAL_SLOTS <= flash.Length
    }

    ghost function StorageWords(): Storage
      requires Wired()
      reads flash
    {
      flash[storageAt..storageAt + TOTAL_SLOTS]
    }

    ghost predicate Valid()
      reads this, uicr, flash
    {
      Wired() && Logged() && Now().uicr == uicr[..] && Now().words == StorageWords()
    }

    ghost method Append(e: Event, s: Board)
      requires Logged()
      requires Step(Now(), e, s)
      modifies `life, `events
      ensures Logged() && life == old(life) + [s] && events == old(events) + [e]
    {
      life, events := life + [s], events + [e];
    }

    // One hardware operation comes to its end, or fails.
    method Attempt() returns (ok: bool)
      ensures reliable ==> ok
    {
      ok := *;
      ok := ok || reliable;
    }

    // ---- NVMC mode brackets ----

    method SetMode(m: Mode) returns (ok: bool)
      modifies `mode
      ensures mode == if ok then m else old(mode)
      ensures reliable ==> ok
    {
      ok := Attempt();
      if ok {
        mode := m;
      }
    }

    // Restores read-only mode whatever happened in between, failed work included;
    // the operation's own failure comes first.
    method Finish(closureOk: bool) returns (ok: bool)
      modifies `mode
      ensures ok ==> closureOk && mode == ReadOnly
      ensures mode == ReadOnly || mode == old(mode)
      ensures reliable ==> ok == closureOk && mode == ReadOnly
    {
      var restored := SetMode(ReadOnly);
      var flushed := Attempt();
      ok := closureOk && restored && flushed;
    }

    // ---- the record ----

    // Erases the record and reads it back. Success leaves every word erased; a
    // failure, which only the hardware can cause, can leave anything.
    method EraseUicrRecord() returns (ok: bool)
      requires Valid()
      requires Now().tool.Installing? && Now().tool.stage == Minted(false)
      modifies this, uicr
      ensures Valid() && old(life) < life
      ensures Now().core == old(Now().core)
      ensures ok ==> mode == ReadOnly && ErasedRecord(uicr[..])
      ensures ok ==> Now().tool == Installing(old(Now().tool).key, Writing(0))
      ensures !ok ==> Now().tool.Idle?
      ensures reliable ==> ok && mode == ReadOnly
    {
      hide IsLife, Step, AfterRecordErase;
      ghost var s := Now();
      ok := SetMode(EraseEnabled);
      if ok {
        var erased := EraseUicr();
        ok := Finish(erased);
        if ok {
          assert uicr[..RECORD_WORDS] == uicr[..];
          assert reliable ==> uicr[..] == ErasedWords();
          var mismatch := FindMismatch(uicr, 0, 0x1000_1080, seq(RECORD_WORDS, _ => ERASED), reliable);
          ok := mismatch.Some? && mismatch.value.None?;
        }
      }
      if ok {
        assert uicr[..] == ErasedWords();
        CanEraseRecord(s, None);
        Append(EraseRecord(None), AfterRecordErase(s, None));
      } else {
        CanEraseRecord(s, Some(uicr[..]));
        Append(EraseRecord(Some(uicr[..])), AfterRecordErase(s, Some(uicr[..])));
      }
    }

    method EraseUicr() returns (ok: bool)
      requires uicr.Length == RECORD_WORDS && mode == EraseEnabled
      modifies uicr
      ensures reliable ==> ok && ErasedRecord(uicr[..])
    {
      ok := Attempt();
      for i := 0 to RECORD_WORDS
        invariant reliable ==> forall j :: 0 <= j < i ==> uicr[j] == ERASED
      {
        var left: Word :| 0 <= left < WORD_LIMIT;
        uicr[i] := if reliable then ERASED else left;
      }
    }

    // Programs one word: its zero bits are cleared, or anything is left there.
    method WriteWord(i: nat, data: Word) returns (ok: bool)
      requires i < uicr.Length && mode == WriteEnabled
      modifies uicr
      ensures forall j :: 0 <= j < uicr.Length && j != i ==> uicr[j] == old(uicr[j])
      ensures ok ==> uicr[i] == And(old(uicr[i]), data)
      ensures reliable ==> ok
    {
      ok := Attempt();
      var residue: Word :| 0 <= residue < WORD_LIMIT;
      uicr[i] := if ok then And(uicr[i], data) else residue;
    }

    // Writes word i of the record under way: key words in order, header last.
    method WriteNextWord(i: nat, record: Record) returns (ok: bool)
      requires Valid() && mode == WriteEnabled
      requires Now().tool.Installing? && record == RecordOf(Now().tool.key)
      requires Now().tool.stage == Minted(true) || (Now().tool.stage.Writing? && Now().tool.stage.next < RECORD_WORDS)
      requires i == NextWord(StageOf(Now().tool.stage))
      modifies `life, `events, uicr
      ensures Valid() && old(life) < life && Now().core == old(Now().core)
      ensures !ok ==> Now().tool.Idle?
      ensures ok ==> Now().tool == Installing(old(Now().tool).key, if i == 0 then Written else Writing(i))
      ensures forall j :: 0 <= j < uicr.Length && j != i ==> uicr[j] == old(uicr[j])
      ensures ok ==> uicr[i] == And(old(uicr[i]), record[i])
      ensures reliable ==> ok
    {
      hide IsLife, Step, And, RecordOf, KeyIn;
      ghost var s := Now();
      ok := WriteWord(i, record[i]);
      assert uicr[..] == s.uicr[i := uicr[i]];
      CanWriteRecordWord(s, if ok then None else Some(uicr[i]));
      if ok {
        Append(WriteRecordWord(None), AfterRecordWrite(s, None));
      } else {
        Append(WriteRecordWord(Some(uicr[i])), AfterRecordWrite(s, Some(uicr[i])));
      }
    }

    // Drops the session; the core resumes.
    ghost method GiveUp()
      requires Valid() && Now().tool.Installing?
      modifies `life, `events
      ensures Valid() && old(life) < life && Now() == old(Now()).(tool := Idle)
    {
      hide IsLife, Step, And, RecordOf, KeyIn;
      CanAbort(Now());
      Append(Abort, Now().(tool := Idle));
    }

    // Writes the key words in order, then the header.
    method WriteRecordWords(record: Record) returns (written: bool)
      requires Valid() && mode == WriteEnabled
      requires Now().tool.Installing? && record == RecordOf(Now().tool.key) && StageOf(Now().tool.stage) == Writing(0)
      modifies `life, `events, uicr
      ensures Valid() && old(life) < life && Now().core == old(Now().core)
      ensures written ==> Now().tool == Installing(old(Now().tool).key, Written)
      ensures !written ==> Now().tool.Idle?
      ensures written ==> forall j :: 0 <= j < RECORD_WORDS ==> uicr[j] == And(old(uicr[j]), record[j])
      ensures reliable ==> written
    {
      hide IsLife, Step, And, RecordOf;
      written := true;
      var i := 1;
      while i < RECORD_WORDS && written
        invariant 1 <= i <= RECORD_WORDS
        invariant Valid() && old(life) <= life && (i > 1 ==> old(life) < life) && Now().core == old(Now().core)
        invariant written ==> Now().tool.Installing? && Now().tool.key == old(Now().tool).key
        invariant written ==> StageOf(Now().tool.stage) == Writing(i - 1)
        invariant !written ==> Now().tool.Idle?
        invariant written ==> forall j :: 0 <= j < RECORD_WORDS ==>
                    uicr[j] == if 1 <= j < i then And(old(uicr[j]), record[j]) else old(uicr[j])
        invariant reliable ==> written
      {
        written := WriteNextWord(i, record);
        i := i + 1;
      }
      if written {
        written := WriteNextWord(0, record);
      }
    }

    // Writes and verifies the record. Success means UICR holds exactly this
    // key's record, whatever was there before; when no operation fails, it comes
    // exactly when every bit of that record was still there to be kept.
    method WriteUicrRecord(key: Key) returns (ok: bool)
      requires Valid() && Now().tool.Installing? && Now().tool.key == key
      requires Now().tool.stage == Minted(true) || Now().tool.stage == Writing(0)
      modifies this, uicr
      ensures Valid() && old(life) < life && Now().core == old(Now().core)
      ensures ok ==> mode == ReadOnly && uicr[..] == RecordOf(key) && Now().tool == Installing(key, Verified)
      ensures !ok ==> Now().tool.Idle?
      ensures reliable ==> (ok <==> TakesRecord(old(uicr[..]), key)) && mode == ReadOnly
    {
      hide IsLife, Step, And, RecordOf, TakesRecord;
      ghost var before := uicr[..];
      var record := Encode(key);
      ok := SetMode(WriteEnabled);
      if !ok {
        GiveUp();
        return;
      }
      var written := WriteRecordWords(record);
      ok := Finish(written);
      if !written {
        return;
      }
      var mismatch := None;
      if ok {
        mismatch := FindMismatch(uicr, 0, 0x1000_1080, record, reliable);
      }
      if mismatch.None? {
        GiveUp();
        return false;
      }
      ok := mismatch.value.None?;
      assert uicr[..RECORD_WORDS] == uicr[..];
      WritingTakes(before, uicr[..], key);
      CanVerifyRecord(Now());
      Append(VerifyRecord, Now().(tool := if ok then Installing(key, Verified) else Idle));
    }

    // ---- firmware and storage ----

    // Erases the page of flash starting at word `page`; a page of the counter's
    // storage is a step of the board's life.
    method ErasePage(page: nat) returns (ok: bool)
      requires Valid() && mode == EraseEnabled && page % WORDS_PER_PAGE == 0 && page + WORDS_PER_PAGE <= flash.Length
      requires Now().tool.Installing? && (Now().tool.stage.Flashed? || Now().tool.stage.Clearing?)
      modifies `life, `events, flash
      ensures Valid() && old(life) <= life && Now().core == old(Now().core)
      ensures forall i :: 0 <= i < flash.Length && !(page <= i < page + WORDS_PER_PAGE) ==> flash[i] == old(flash[i])
      ensures ok ==> Now().tool.Installing? && Now().tool.key == old(Now().tool).key
      ensures ok ==> Now().tool.stage.Flashed? || Now().tool.stage.Clearing?
      ensures !ok ==> Now().tool.Idle?
      ensures reliable ==> ok && forall i :: page <= i < page + WORDS_PER_PAGE ==> flash[i] == ERASED
    {
      hide IsLife, Step, SetPage, AfterStorageErase, PageStart;
      ghost var before := flash[..];
      var words;
      ok, words := EraseFlashPage(page);
      LogPageErase(before, page, words, ok);
    }

    // The page's erase as a step of the board's life, when it is one.
    ghost method LogPageErase(before: seq<Word>, page: nat, words: Page, ok: bool)
      requires Wired() && Logged() && page % WORDS_PER_PAGE == 0 && page + WORDS_PER_PAGE <= flash.Length == |before|
      requires Now().uicr == uicr[..] && Now().words == before[storageAt..storageAt + TOTAL_SLOTS]
      requires forall i :: 0 <= i < flash.Length ==>
                             flash[i] == if page <= i < page + WORDS_PER_PAGE then words[i - page] else before[i]
      requires Now().tool.Installing? && (Now().tool.stage.Flashed? || Now().tool.stage.Clearing?)
      modifies `life, `events
      ensures Valid() && old(life) <= life && Now().core == old(Now().core)
      ensures ok ==> Now().tool.Installing? && Now().tool.key == old(Now().tool).key
      ensures ok ==> Now().tool.stage.Flashed? || Now().tool.stage.Clearing?
      ensures !ok ==> Now().tool.Idle?
    {
      hide IsLife, Step, SetPage, AfterStorageErase, PageStart;
      ghost var s := Now();
      StorageAfterErase(before, flash[..], storageAt, page, words);
      if storageAt <= page < storageAt + TOTAL_SLOTS {
        ghost var start: Slot := page - storageAt;
        CanEraseStoragePage(s, start, words, !ok);
        Append(EraseStoragePage(start, words, !ok), AfterStorageErase(s, start, words, !ok));
      } else if !ok {
        GiveUp();
      }
    }

    // The hardware's part: every bit of the page set, or anything left in it.
    method EraseFlashPage(page: nat) returns (ok: bool, words: Page)
      requires page + WORDS_PER_PAGE <= flash.Length
      modifies flash
      ensures reliable ==> ok && words == ErasedPage()
      ensures forall i :: 0 <= i < flash.Length ==>
                            flash[i] == if page <= i < page + WORDS_PER_PAGE then words[i - page] else old(flash[i])
    {
      ok := Attempt();
      assert |ErasedPage()| == WORDS_PER_PAGE;
      var left: Page :| |left| == WORDS_PER_PAGE;
      words := if reliable then ErasedPage() else left;
      forall i | page <= i < page + WORDS_PER_PAGE {
        flash[i] := words[i - page];
      }
    }

    // Erases the pages from word `first` up to word `last`, one at a time; a page
    // outside flash is an error.
    method ErasePages(first: nat, last: nat) returns (erased: bool)
      requires Valid() && mode == EraseEnabled && first % WORDS_PER_PAGE == 0 && last % WORDS_PER_PAGE == 0
                 && first < last
      requires Now().tool.Installing? && Now().tool.stage.Flashed?
      modifies `life, `events, flash
      ensures Valid() && old(life) <= life && Now().core == old(Now().core)
      ensures forall i :: 0 <= i < flash.Length && !(first <= i < last) ==> flash[i] == old(flash[i])
      ensures erased ==> last <= flash.Length
      ensures reliable && erased ==> forall i :: first <= i < last ==> flash[i] == ERASED
      ensures erased ==> Now().tool.Installing? && Now().tool.key == old(Now().tool).key
      ensures erased ==> Now().tool.stage.Flashed? || Now().tool.stage.Clearing?
      ensures !erased ==> Now().tool.Idle?
      ensures reliable ==> (erased <==> last <= flash.Length)
    {
      hide IsLife, Step;
      var page := first;
      erased := true;
      while page < last && erased
        invariant first <= page <= last && page % WORDS_PER_PAGE == 0
        invariant Valid() && old(life) <= life && Now().core == old(Now().core)
        invariant forall i :: 0 <= i < flash.Length && !(first <= i < last) ==> flash[i] == old(flash[i])
        invariant erased ==> Now().tool.Installing? && Now().tool.key == old(Now().tool).key
        invariant erased ==> Now().tool.stage.Flashed? || Now().tool.stage.Clearing?
        invariant erased ==> page == first || page <= flash.Length
        invariant reliable && erased ==> forall i :: first <= i < page ==> flash[i] == ERASED
        invariant !erased ==> Now().tool.Idle?
        invariant reliable && !erased ==> flash.Length < last
        decreases last - page
      {
        NextPage(page, last);
        if page + WORDS_PER_PAGE <= flash.Length {
          erased := ErasePage(page);
        } else {
          erased := false;
          GiveUp();
        }
        page := page + WORDS_PER_PAGE;
      }
    }

    // Erases the range the image declares, page by page, and reads it back. A
    // range that is not whole pages is refused before anything is erased.
    method EraseStorage(start: nat, end: nat) returns (ok: bool)
      requires Valid() && Now().tool.Installing? && Now().tool.stage.Flashed?
      modifies this, flash
      ensures Valid() && old(life) <= life && Now().core == old(Now().core)
      ensures forall i :: 0 <= i < flash.Length && !(start <= 4 * i < end) ==> flash[i] == old(flash[i])
      ensures ok ==> mode == ReadOnly && Aligned(start, end) && end <= 4 * flash.Length
      ensures ok ==> forall i :: start <= 4 * i < end ==> flash[i] == ERASED
      ensures ok ==> Now().tool.Installing? && Now().tool.key == old(Now().tool).key
      ensures ok ==> Now().tool.stage.Flashed? || Now().tool.stage.Clearing?
      ensures !ok ==> Now().tool.Idle?
      ensures !Aligned(start, end) ==> !ok && flash[..] == old(flash[..])
      ensures reliable ==> (ok <==> Aligned(start, end) && end <= 4 * flash.Length)
      ensures reliable && old(mode) == ReadOnly ==> mode == ReadOnly
    {
      hide IsLife, Step;
      if start >= end || start % PAGE_SIZE != 0 || end % PAGE_SIZE != 0 {
        GiveUp();
        return false;
      }
      ok := SetMode(EraseEnabled);
      if !ok {
        GiveUp();
        return;
      }
      AlignedRange(start, end);
      var first, last := start / 4, end / 4;
      var erased := ErasePages(first, last);
      ok := Finish(erased);
      if !erased {
        return;
      }
      if ok {
        ok := ReadsErased(first, last, start);
      }
      if !ok {
        GiveUp();
      }
    }

    method ReadsErased(first: nat, last: nat, base: nat) returns (ok: bool)
      requires first <= last <= flash.Length
      ensures ok ==> forall i :: first <= i < last ==> flash[i] == ERASED
      ensures reliable && (forall i :: first <= i < last ==> flash[i] == ERASED) ==> ok
    {
      ghost var all := flash[first..last];
      assert forall i :: first <= i < last ==> flash[i] == all[i - first];
      var mismatch := FindMismatch(flash, first, base, seq(last - first, _ => ERASED), reliable);
      ok := mismatch.Some? && mismatch.value.None?;
      assert all == seq(last - first, _ => ERASED) <==> forall i :: first <= i < last ==> flash[i] == ERASED;
    }

    // Programs and verifies an image. One loading above zero over erased flash,
    // or with a segment outside flash and UICR, is refused with nothing changed;
    // success means every segment in flash read back. Whatever happens, only
    // pages of the image's segments change, and UICR only under an image that
    // reaches into it - which may leave anything in the record.
    method Flash(image: Image) returns (ok: bool)
      requires Valid() && Now().tool.Installing? && Now().tool.stage.Verified?
      modifies `life, `events, uicr, flash
      ensures Valid() && old(life) <= life
      ensures forall i :: 0 <= i < flash.Length && !Touches(image.segments, i) ==> flash[i] == old(flash[i])
      ensures !image.reachesUicr ==> uicr[..] == old(uicr[..])
      ensures ok ==> Now().tool == Installing(old(Now().tool).key, Flashed)
      ensures ok ==> FitsIn(image.segments, flash.Length) && Programmed(image.segments)
      ensures !ok ==> Now().tool.Idle?
      ensures (image.appStart > 0 && old(flash[0]) == ERASED) || !FitsIn(image.segments, flash.Length) ==>
                !ok && flash[..] == old(flash[..]) && uicr[..] == old(uicr[..])
      ensures reliable && Apart(image.segments) ==>
                (ok <==> !(image.appStart > 0 && old(flash[0]) == ERASED) && FitsIn(image.segments, flash.Length))
    {
      hide IsLife, Step, Touches, Apart, KeyIn;
      var beneathIsRead := Attempt();
      if (image.appStart > 0 && (!beneathIsRead || flash[0] == ERASED)) || !FitsIn(image.segments, flash.Length) {
        GiveUp();
        return false;
      }
      ghost var s := Now();
      Program(image.segments);
      if image.reachesUicr {
        ProgramUicr();
      }
      ghost var survives: bool := *;
      CanFlashImage(s, survives, StorageWords(), uicr[..]);
      Append(FlashImage(survives, StorageWords(), uicr[..]), AfterFlash(s, survives, StorageWords(), uicr[..]));
      ok := ReadsBack(image.segments);
      var recordReadsBack := Attempt();
      ok := ok && (recordReadsBack || !image.reachesUicr);
      if !ok {
        GiveUp();
      }
    }

    method ReadsBack(segments: seq<Segment>) returns (ok: bool)
      requires FitsIn(segments, flash.Length)
      ensures ok ==> Programmed(segments)
      ensures reliable && Programmed(segments) ==> ok
    {
      for k := 0 to |segments|
        invariant forall j :: 0 <= j < k ==> IsAt(segments[j])
      {
        var mismatch := FindMismatch(flash, segments[k].at, 4 * segments[k].at, segments[k].words, reliable);
        if mismatch.None? || mismatch.value.Some? {
          assert reliable ==> !IsAt(segments[k]);
          return false;
        }
      }
      ok := true;
    }

    ghost predicate IsAt(segment: Segment)
      reads flash
    {
      segment.at + |segment.words| <= flash.Length && flash[segment.at..segment.at + |segment.words|] == segment.words
    }

    ghost predicate Programmed(segments: seq<Segment>)
      reads flash
    {
      forall k :: 0 <= k < |segments| ==> IsAt(segments[k])
    }

    // Erasing and programming leave nothing elsewhere than in the pages of the
    // segments, and there the segments when no operation fails, or anything.
    method Program(segments: seq<Segment>)
      requires FitsIn(segments, flash.Length)
      modifies flash
      ensures forall i :: 0 <= i < flash.Length && !Touches(segments, i) ==> flash[i] == old(flash[i])
      ensures reliable && Apart(segments) ==> Programmed(segments)
    {
      hide Touches, Apart, ImageWord, IsAt;
      for i := 0 to flash.Length
        invariant forall j :: 0 <= j < flash.Length && !Touches(segments, j) ==> flash[j] == old(flash[j])
        invariant reliable ==> forall j :: 0 <= j < i && ImageWord(segments, j).Some? ==>
                    flash[j] == ImageWord(segments, j).value
      {
        if Touches(segments, i) {
          var left: Word :| 0 <= left < WORD_LIMIT;
          var word := ImageWord(segments, i);
          flash[i] := if reliable && word.Some? then word.value else left;
        } else if ImageWord(segments, i).Some? {
          ImageWordTouches(segments, i);
        }
      }
      if reliable && Apart(segments) {
        forall k | 0 <= k < |segments|
          ensures IsAt(segments[k])
        {
          IsThere(segments, k);
        }
      }
    }

    lemma {:induction false} IsThere(segments: seq<Segment>, k: nat)
      requires FitsIn(segments, flash.Length) && Apart(segments) && k < |segments|
      requires forall j :: 0 <= j < flash.Length && ImageWord(segments, j).Some? ==>
                             flash[j] == ImageWord(segments, j).value
      ensures IsAt(segments[k])
    {
      hide Apart, ImageWord;
      var segment := segments[k];
      forall i | segment.at <= i < segment.at + |segment.words|
        ensures flash[i] == segment.words[i - segment.at]
      {
        ImageWordIsThere(segments, k, i);
      }
    }

    // An image with a segment in UICR: its page is erased and programmed.
    method ProgramUicr()
      requires uicr.Length == RECORD_WORDS
      modifies uicr
    {
      for i := 0 to RECORD_WORDS {
        var left: Word :| 0 <= left < WORD_LIMIT;
        uicr[i] := left;
      }
    }

    method ResetCore() returns (ok: bool)
      requires Valid() && Now().tool.Installing?
      requires Now().tool.stage.Verified? || Now().tool.stage.Flashed? || Now().tool.stage.Clearing?
      modifies `life, `events
      ensures Valid() && old(life) < life && Now().tool.Idle?
      ensures ok ==> Now().core.Off?
      ensures reliable ==> ok
    {
      hide IsLife, Step;
      ok := Attempt();
      if ok {
        CanReset(Now());
        Append(Reset, Now().(core := Off, tool := Idle));
      } else {
        GiveUp();
      }
    }

    // ---- install_key ----

    // Everything after the mint. However it ends, the board has lived a life of
    // the model and the session is over; success means the new key's record is
    // in UICR, unless the image reaches there, the image is in flash and the
    // range it declares reads erased - when that is the counter's storage, the
    // counter starts over. Nothing outside the image's pages and that range
    // changes. When no operation fails, success comes exactly when the record
    // was erased or has every bit of the new one, and the image is accepted.
    method InstallKey(recordBlank: bool, key: Key, firmware: Option<Image>) returns (ok: bool)
      requires Valid() && Now().tool == Installing(key, Minted(recordBlank))
      modifies this, uicr, flash
      ensures Valid() && old(life) <= life && Now().tool.Idle?
      ensures ok ==> Now().core.Off? && Installed(firmware)
      ensures ok && LeavesUicr(firmware) ==> Decode(uicr[..]) == Provisioned(key)
      ensures forall i :: 0 <= i < flash.Length && !Concerns(firmware, i) ==> flash[i] == old(flash[i])
      ensures reliable && (firmware.Some? ==> Apart(firmware.value.segments)) ==>
                (ok <==> (recordBlank ==> TakesRecord(old(uicr[..]), key)) &&
                         Accepts(firmware, old(flash[0]), flash.Length))
      ensures reliable ==> mode == ReadOnly
    {
      hide IsLife, Step, Decode, RecordOf, Touches, Apart, TakesRecord;
      if !recordBlank {
        ok := EraseUicrRecord();
        if !ok {
          return;
        }
        ErasedTakesRecord(uicr[..], key);
      }
      ok := WriteUicrRecord(key);
      if !ok {
        return;
      }
      DecodesExactlyItsRecord(uicr[..], key);
      if firmware.Some? {
        ok := InstallFirmware(firmware.value);
        if !ok {
          return;
        }
      }
      ok := ResetCore();
    }

    // Flashes the image, then clears the range it declares.
    method InstallFirmware(image: Image) returns (ok: bool)
      requires Valid() && Now().tool.Installing? && Now().tool.stage.Verified?
      modifies this, uicr, flash
      ensures Valid() && old(life) <= life
      ensures !image.reachesUicr ==> uicr[..] == old(uicr[..])
      ensures ok ==> Now().tool.Installing? && (Now().tool.stage.Flashed? || Now().tool.stage.Clearing?)
      ensures ok ==> Installed(Some(image))
      ensures !ok ==> Now().tool.Idle?
      ensures forall i :: 0 <= i < flash.Length && !Concerns(Some(image), i) ==> flash[i] == old(flash[i])
      ensures reliable && Apart(image.segments) ==> (ok <==> Accepts(Some(image), old(flash[0]), flash.Length))
      ensures reliable && old(mode) == ReadOnly ==> mode == ReadOnly
    {
      hide IsLife, Step, Touches, Apart, FitsIn, Aligned;
      ok := Flash(image);
      if !ok {
        return;
      }
      assert forall segment :: segment in image.segments ==> IsAt(segment);
      if image.storageRange.Some? {
        var (start, end) := image.storageRange.value;
        ok := EraseStorage(start, end);
      }
    }

    predicate LeavesUicr(firmware: Option<Image>) {
      firmware.Some? ==> !firmware.value.reachesUicr
    }

    // The word is in a page of the image or in the range it declares.
    predicate Concerns(firmware: Option<Image>, i: nat) {
      firmware.Some? && (Touches(firmware.value.segments, i) || InRange(firmware.value.storageRange, i))
    }

    // The range the image declares reads erased, and the rest of the image is in
    // flash.
    ghost predicate Installed(firmware: Option<Image>)
      reads flash
    {
      firmware.Some? ==>
        && FitsIn(firmware.value.segments, flash.Length)
        && (forall i :: 0 <= i < flash.Length && InRange(firmware.value.storageRange, i) ==> flash[i] == ERASED)
        && forall segment, i :: segment in firmware.value.segments && segment.at <= i < segment.at + |segment.words| &&
                                i < flash.Length && !InRange(firmware.value.storageRange, i) ==>
                                  flash[i] == segment.words[i - segment.at]
    }

    // When an image declares the counter's storage, the counter starts over.
    lemma {:induction false} InstallClearsTheCounter(image: Image)
      requires Wired() && Installed(Some(image))
      requires image.storageRange == Some((4 * storageAt, 4 * (storageAt + TOTAL_SLOTS)))
      ensures StorageWords() == ErasedStorage()
    {
      forall i: Slot
        ensures StorageWords()[i] == ERASED
      {
        assert InRange(image.storageRange, storageAt + i);
        assert StorageWords()[i] == flash[storageAt + i];
      }
    }

    // `provision` and `rotate` from the record read to the reset: read, halt,
    // mint, install. A failed halt or mint touches nothing.
    method Rekey(key: Key, firmware: Option<Image>) returns (ok: bool)
      requires Valid() && Now().tool.Idle?
      modifies this, uicr, flash
      ensures Valid() && old(life) <= life && Now().tool.Idle?
      ensures ok ==> Now().core.Off? && Installed(firmware)
      ensures ok && LeavesUicr(firmware) ==> Decode(uicr[..]) == Provisioned(key)
      ensures forall i :: 0 <= i < flash.Length && !Concerns(firmware, i) ==> flash[i] == old(flash[i])
      ensures reliable && (firmware.Some? ==> Apart(firmware.value.segments)) ==>
                (ok <==> (DecodeHeader(old(uicr[0])) == BlankHeader ==> TakesRecord(old(uicr[..]), key)) &&
                         Accepts(firmware, old(flash[0]), flash.Length))
      ensures reliable ==> mode == ReadOnly
    {
      hide IsLife, Step, Touches, Decode, Apart, TakesRecord, Accepts;
      var blank := DecodeHeader(uicr[0]) == BlankHeader;
      var haltedAndMinted := Attempt();
      if !haltedAndMinted {
        return false;
      }
      CanMint(Now(), key);
      Append(Event.Mint(key), Now().(tool := Installing(key, Minted(blank))));
      ok := InstallKey(blank, key, firmware);
    }
  }
}
