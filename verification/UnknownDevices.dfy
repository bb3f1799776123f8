// Reporting packets from unregistered devices without flooding a human or the
// memory (api/src/ingest/unknown_devices.rs). Instants are integer milliseconds.
module UnknownDevices {
  import opened Words
  import opened Packets

  const MAX_TRACKED := 256
  const REPORT_INTERVAL := 60 * 60 * 1000

  datatype Report = New | Repeat(count: nat, since: int) | Overflow(packets: nat)

  datatype Entry = Entry(count: nat, firstSeen: int, lastReported: int)

  datatype State = State(tracked: map<DeviceAddr, Entry>, overflowPackets: nat, overflowReported: Option<int>)

  datatype Outcome = Outcome(state: State, report: Option<Report>)

  datatype Arrival = Arrival(addr: DeviceAddr, at: int)

  const NOTHING_YET := State(map[], 0, None)

  // Saturating difference of instants.
  function Elapsed(now: int, earlier: int): nat {
    if now < earlier then 0 else now - earlier
  }

  // One dropped packet.
  function Record(s: State, a: Arrival): Outcome {
    if a.addr in s.tracked then
      var entry := s.tracked[a.addr].(count := s.tracked[a.addr].count + 1);
      if Elapsed(a.at, entry.lastReported) < REPORT_INTERVAL
      then Outcome(s.(tracked := s.tracked[a.addr := entry]), None)
      else Outcome(s.(tracked := s.tracked[a.addr := entry.(lastReported := a.at)]),
                   Some(Repeat(entry.count, Elapsed(a.at, entry.firstSeen))))
    else if |s.tracked| < MAX_TRACKED then
      Outcome(s.(tracked := s.tracked[a.addr := Entry(1, a.at, a.at)]), Some(New))
    else
      var s' := s.(overflowPackets := s.overflowPackets + 1);
      if s.overflowReported.Some? && Elapsed(a.at, s.overflowReported.value) < REPORT_INTERVAL
      then Outcome(s', None)
      else Outcome(s'.(overflowReported := Some(a.at)), Some(Overflow(s'.overflowPackets)))
  }

  class UnknownDevices {
    var tracked: map<DeviceAddr, Entry>
    var overflowPackets: nat
    var overflowReported: Option<int>

    function Contents(): State
      reads this
    {
      State(tracked, overflowPackets, overflowReported)
    }

    constructor ()
      ensures Contents() == NOTHING_YET
    {
      tracked, overflowPackets, overflowReported := map[], 0, None;
    }

    method RecordPacket(addr: DeviceAddr, now: int) returns (report: Option<Report>)
      modifies this
      ensures Outcome(Contents(), report) == Record(old(Contents()), Arrival(addr, now))
    {
      if addr in tracked {
        var entry := tracked[addr];
        entry := entry.(count := entry.count + 1);
        tracked := tracked[addr := entry];
        if Elapsed(now, entry.lastReported) < REPORT_INTERVAL {
          return None;
        }
        tracked := tracked[addr := entry.(lastReported := now)];
        return Some(Repeat(entry.count, Elapsed(now, entry.firstSeen)));
      }
      if |tracked| < MAX_TRACKED {
        tracked := tracked[addr := Entry(1, now, now)];
        return Some(New);
      }
      overflowPackets := overflowPackets + 1;
      if overflowReported.Some? && Elapsed(now, overflowReported.value) < REPORT_INTERVAL {
        return None;
      }
      overflowReported := Some(now);
      return Some(Overflow(overflowPackets));
    }
  }

  // ---- runs ----

  function After(run: seq<Arrival>): State
    decreases |run|
  {
    if run == [] then NOTHING_YET else Record(After(run[..|run| - 1]), run[|run| - 1]).state
  }

  // What the arrivals of a run were answered with.
  function Answer(run: seq<Arrival>, i: nat): Option<Report>
    requires i < |run|
  {
    Record(After(run[..i]), run[i]).report
  }

  function Raised(run: seq<Arrival>): nat
    decreases |run|
  {
    if run == [] then 0
    else Raised(run[..|run| - 1]) + (if Answer(run, |run| - 1).Some? then 1 else 0)
  }

  ghost predicate Nondecreasing(run: seq<Arrival>) {
    forall i, j :: 0 <= i <= j < |run| ==> run[i].at <= run[j].at
  }

  // ---- no packet is lost, and memory is bounded ----

  function CountFrom(run: seq<Arrival>, addr: DeviceAddr): nat
    decreases |run|
  {
    if run == [] then 0
    else CountFrom(run[..|run| - 1], addr) + (if run[|run| - 1].addr == addr then 1 else 0)
  }

  function CountOutside(run: seq<Arrival>, addrs: set<DeviceAddr>): nat
    decreases |run|
  {
    if run == [] then 0
    else CountOutside(run[..|run| - 1], addrs) + (if run[|run| - 1].addr in addrs then 0 else 1)
  }

  // Main result: at most 256 addresses are tracked; each tracked count is the
  // number of all packets from that address, the overflow count is the number
  // of all packets from the others, and there are others only when 256 are
  // tracked.
  lemma {:induction false} CountsAreExact(run: seq<Arrival>)
    ensures var s := After(run);
            && |s.tracked| <= MAX_TRACKED
            && (forall addr :: addr in s.tracked ==> s.tracked[addr].count == CountFrom(run, addr) > 0)
            && s.overflowPackets == CountOutside(run, s.tracked.Keys)
            && (s.overflowPackets > 0 ==> |s.tracked| == MAX_TRACKED)
            && (forall addr :: CountFrom(run, addr) > 0 && addr !in s.tracked ==> |s.tracked| == MAX_TRACKED)
    decreases |run|
  {
    if run == [] {
    } else {
      var before, a := run[..|run| - 1], run[|run| - 1];
      var s := After(before);
      CountsAreExact(before);
      if a.addr !in s.tracked && |s.tracked| < MAX_TRACKED {
        NeverCounted(before, s.tracked.Keys, a.addr);
        assert After(run).tracked.Keys == s.tracked.Keys + {a.addr};
      } else {
        assert After(run).tracked.Keys == s.tracked.Keys;
      }
    }
  }

  // An address that never sent counts neither inside nor outside a set.
  lemma {:induction false} NeverCounted(run: seq<Arrival>, addrs: set<DeviceAddr>, addr: DeviceAddr)
    requires CountFrom(run, addr) == 0
    ensures CountOutside(run, addrs + {addr}) == CountOutside(run, addrs)
    decreases |run|
  {
    if run == [] {
    } else {
      NeverCounted(run[..|run| - 1], addrs, addr);
    }
  }

  // ---- sums over what is tracked ----

  // The keys of a map in some order, each once.
  ghost predicate Enumerates(order: seq<DeviceAddr>, tracked: map<DeviceAddr, Entry>) {
    && (forall addr :: addr in order <==> addr in tracked)
    && (forall i, j :: 0 <= i < j < |order| ==> order[i] != order[j])
  }

  ghost function Sum(order: seq<DeviceAddr>, m: map<DeviceAddr, Entry>, f: Entry -> int): int
    requires forall addr :: addr in order ==> addr in m
    decreases |order|
  {
    if order == [] then 0 else f(m[order[0]]) + Sum(order[1..], m, f)
  }

  lemma {:induction false} SumWithoutKey(
    order: seq<DeviceAddr>, m: map<DeviceAddr, Entry>, addr: DeviceAddr, e: Entry, f: Entry -> int)
    requires (forall x :: x in order ==> x in m) && addr !in order
    ensures Sum(order, m[addr := e], f) == Sum(order, m, f)
    decreases |order|
  {
    if order == [] {
    } else {
      SumWithoutKey(order[1..], m, addr, e, f);
    }
  }

  lemma {:induction false} SumWithKey(
    order: seq<DeviceAddr>, m: map<DeviceAddr, Entry>, addr: DeviceAddr, e: Entry, f: Entry -> int)
    requires (forall x :: x in order ==> x in m) && addr in order
    requires forall i, j :: 0 <= i < j < |order| ==> order[i] != order[j]
    ensures Sum(order, m[addr := e], f) == Sum(order, m, f) - f(m[addr]) + f(e)
    decreases |order|
  {
    if order[0] == addr {
      SumWithoutKey(order[1..], m, addr, e, f);
    } else {
      SumWithKey(order[1..], m, addr, e, f);
    }
  }

  lemma {:induction false} SumWithNewKey(
    order: seq<DeviceAddr>, m: map<DeviceAddr, Entry>, addr: DeviceAddr, e: Entry, f: Entry -> int)
    requires Enumerates(order, m) && addr !in m
    ensures Enumerates([addr] + order, m[addr := e])
    ensures Sum([addr] + order, m[addr := e], f) == Sum(order, m, f) + f(e)
  {
    SumWithoutKey(order, m, addr, e, f);
    assert ([addr] + order)[1..] == order;
  }

  lemma {:induction false} SumBounded(order: seq<DeviceAddr>, m: map<DeviceAddr, Entry>, f: Entry -> int, most: nat)
    requires forall x :: x in order ==> x in m && f(m[x]) <= most
    ensures Sum(order, m, f) <= |order| * most
    decreases |order|
  {
    if order == [] {
    } else {
      SumBounded(order[1..], m, f, most);
    }
  }

  lemma {:induction false} EnumerationLength(order: seq<DeviceAddr>, tracked: map<DeviceAddr, Entry>)
    requires Enumerates(order, tracked)
    ensures |order| == |tracked|
    decreases |order|
  {
    if order == [] {
      assert tracked.Keys == {};
    } else {
      var rest := tracked - {order[0]};
      assert order == [order[0]] + order[1..];
      EnumerationLength(order[1..], rest);
      assert tracked.Keys == rest.Keys + {order[0]};
    }
  }

  // The tracked addresses after one more arrival, in order.
  ghost function NextOrder(s: State, addr: DeviceAddr, order: seq<DeviceAddr>): seq<DeviceAddr> {
    if addr !in s.tracked && |s.tracked| < MAX_TRACKED then [addr] + order else order
  }

  // A sum changes by what the arrival's own entry changes.
  lemma {:induction false} SumAfterArrival(s: State, a: Arrival, order: seq<DeviceAddr>, f: Entry -> int)
    requires Enumerates(order, s.tracked)
    ensures var tracked', order' := Record(s, a).state.tracked, NextOrder(s, a.addr, order);
            && Enumerates(order', tracked')
            && Sum(order', tracked', f) == Sum(order, s.tracked, f)
               - (if a.addr in s.tracked then f(s.tracked[a.addr]) else 0)
               + (if a.addr in tracked' then f(tracked'[a.addr]) else 0)
  {
    hide Sum;
    var tracked' := Record(s, a).state.tracked;
    if a.addr in s.tracked {
      SumWithKey(order, s.tracked, a.addr, tracked'[a.addr], f);
    } else if |s.tracked| < MAX_TRACKED {
      SumWithNewKey(order, s.tracked, a.addr, tracked'[a.addr], f);
    }
  }

  // ---- conservation ----

  ghost function Counts(): Entry -> int {
    (e: Entry) => e.count
  }

  // Main result: every packet of a run is in exactly one count - the counts of
  // the tracked addresses and the overflow count add up to all of them.
  lemma {:induction false} EveryPacketIsCounted(run: seq<Arrival>) returns (order: seq<DeviceAddr>)
    ensures Enumerates(order, After(run).tracked)
    ensures Sum(order, After(run).tracked, Counts()) + After(run).overflowPackets == |run|
    decreases |run|
  {
    if run == [] {
      order := [];
    } else {
      var before := run[..|run| - 1];
      var earlier := EveryPacketIsCounted(before);
      order := NextOrder(After(before), run[|run| - 1].addr, earlier);
      SumAfterArrival(After(before), run[|run| - 1], earlier, Counts());
    }
  }

  // ---- the rate ----

  // The most reports a source can have raised by its last one, counted from
  // `start`: they are at least an interval apart.
  function Budget(start: int, lastReported: int): int {
    1 + (lastReported - start) / REPORT_INTERVAL
  }

  ghost function BudgetOf(start: int): Entry -> int {
    (e: Entry) => Budget(start, e.lastReported)
  }

  ghost function OverflowBudget(s: State, start: int): int {
    if s.overflowReported.Some? then Budget(start, s.overflowReported.value) else 0
  }

  ghost function Budgets(order: seq<DeviceAddr>, s: State, start: int): int
    requires Enumerates(order, s.tracked)
  {
    Sum(order, s.tracked, BudgetOf(start)) + OverflowBudget(s, start)
  }

  // Nothing is stamped outside the run.
  ghost predicate StampedWithin(s: State, start: int, now: int) {
    && (forall addr :: addr in s.tracked ==> start <= s.tracked[addr].lastReported <= now)
    && (s.overflowReported.Some? ==> start <= s.overflowReported.value <= now)
  }

  lemma {:induction false} BudgetGrows(start: int, last: int, now: int)
    requires start <= now
    ensures Budget(start, now) >= 1
    ensures last + REPORT_INTERVAL <= now ==> Budget(start, now) >= Budget(start, last) + 1
    ensures last <= now ==> Budget(start, now) >= Budget(start, last)
  {
  }

  // A report is paid for by its source's budget.
  lemma {:induction false} ReportIsPaidFor(s: State, a: Arrival, order: seq<DeviceAddr>, start: int)
    requires Enumerates(order, s.tracked) && StampedWithin(s, start, a.at) && start <= a.at
    ensures var r, order' := Record(s, a), NextOrder(s, a.addr, order);
            && Enumerates(order', r.state.tracked) && StampedWithin(r.state, start, a.at)
            && Budgets(order', r.state, start) >= Budgets(order, s, start) + (if r.report.Some? then 1 else 0)
  {
    hide Budget, Sum;
    SumAfterArrival(s, a, order, BudgetOf(start));
    if a.addr in s.tracked {
      BudgetGrows(start, s.tracked[a.addr].lastReported, a.at);
    } else if s.overflowReported.Some? {
      BudgetGrows(start, s.overflowReported.value, a.at);
    } else {
      BudgetGrows(start, a.at, a.at);
    }
  }

  lemma {:induction false} RunIsPaidFor(run: seq<Arrival>) returns (order: seq<DeviceAddr>)
    requires run != [] && Nondecreasing(run)
    ensures var s, start := After(run), run[0].at;
            && Enumerates(order, s.tracked) && StampedWithin(s, start, run[|run| - 1].at)
            && Raised(run) <= Budgets(order, s, start)
    decreases |run|
  {
    hide Record, Budgets;
    var before, a, start := run[..|run| - 1], run[|run| - 1], run[0].at;
    var earlier: seq<DeviceAddr> := [];
    if before == [] {
      NothingRaised(start);
    } else {
      earlier := RunIsPaidFor(before);
      assert before[0] == run[0];
    }
    ReportIsPaidFor(After(before), a, earlier, start);
    order := NextOrder(After(before), a.addr, earlier);
  }

  lemma {:induction false} NothingRaised(start: int)
    ensures Raised([]) == 0 && After([]) == NOTHING_YET
    ensures Enumerates([], map[]) && StampedWithin(NOTHING_YET, start, start)
    ensures Budgets([], NOTHING_YET, start) == 0
  {
  }

  // Main result: over any run of duration T by a clock that never goes back, at
  // most 257 * (1 + T / 1h) reports are raised - one source per tracked
  // address, and one for all the others.
  lemma {:induction false} ReportsAreBounded(run: seq<Arrival>)
    requires run != [] && Nondecreasing(run)
    ensures Raised(run) <= (MAX_TRACKED + 1) * (1 + (run[|run| - 1].at - run[0].at) / REPORT_INTERVAL)
  {
    hide Raised, After, Sum;
    var order := RunIsPaidFor(run);
    var most := Budget(run[0].at, run[|run| - 1].at);
    CountsAreExact(run);
    EnumerationLength(order, After(run).tracked);
    BudgetsAreBounded(After(run), order, run[0].at, run[|run| - 1].at, most);
    Widen(|order|, MAX_TRACKED, most);
  }

  lemma {:induction false} BudgetsAreBounded(s: State, order: seq<DeviceAddr>, start: int, now: int, most: nat)
    requires Enumerates(order, s.tracked) && StampedWithin(s, start, now) && most == Budget(start, now)
    ensures Budgets(order, s, start) <= |order| * most + most
  {
    hide Sum;
    SumBounded(order, s.tracked, BudgetOf(start), most);
  }

  lemma {:induction false} Widen(a: nat, b: nat, x: nat)
    requires a <= b
    ensures a * x <= b * x
  {
  }

  // ---- spacing ----

  // The instant a source was last reported, in a state.
  function LastReport(s: State, overflow: bool, addr: DeviceAddr): Option<int> {
    if overflow then s.overflowReported
    else if addr in s.tracked then Some(s.tracked[addr].lastReported)
    else None
  }

  predicate IsOverflow(r: Option<Report>) {
    r.Some? && r.value.Overflow?
  }

  // An arrival stamps the source it is a report on, and no other; stamps grow.
  lemma {:induction false} StampAfter(s: State, a: Arrival, overflow: bool, addr: DeviceAddr)
    ensures var r := Record(s, a);
            var last, last' := LastReport(s, overflow, addr), LastReport(r.state, overflow, addr);
            && last' == (if r.report.Some? && IsOverflow(r.report) == overflow && (!overflow ==> a.addr == addr)
                         then Some(a.at) else last)
            && (last.Some? ==> last'.Some? && last'.value >= last.value)
  {
  }

  lemma {:induction false} AfterOneMore(run: seq<Arrival>, i: nat)
    requires i < |run|
    ensures After(run[..i + 1]) == Record(After(run[..i]), run[i]).state
  {
    hide Record;
    assert run[..i + 1][..i] == run[..i] && run[..i + 1][i] == run[i];
  }

  lemma {:induction false} StampRemembers(run: seq<Arrival>, i: nat, k: nat)
    requires i < k <= |run| && Answer(run, i).Some?
    ensures var last := LastReport(After(run[..k]), IsOverflow(Answer(run, i)), run[i].addr);
            last.Some? && last.value >= run[i].at
    decreases k
  {
    hide Record, After, LastReport;
    AfterOneMore(run, k - 1);
    StampAfter(After(run[..k - 1]), run[k - 1], IsOverflow(Answer(run, i)), run[i].addr);
    if i < k - 1 {
      StampRemembers(run, i, k - 1);
    }
  }

  // Main result: two reports about one source - one tracked address, or all the
  // others together - are at least an hour apart, whatever the clock does.
  lemma {:induction false} ReportsAreSpaced(run: seq<Arrival>, i: nat, j: nat)
    requires i < j < |run| && Answer(run, i).Some? && Answer(run, j).Some?
    requires IsOverflow(Answer(run, i)) == IsOverflow(Answer(run, j))
    requires !IsOverflow(Answer(run, i)) ==> run[i].addr == run[j].addr
    ensures run[j].at - run[i].at >= REPORT_INTERVAL
  {
    hide After;
    StampRemembers(run, i, j);
  }

  // ---- when nothing is said ----

  // Arrival k was answered with a report on the source: this tracked address, or
  // all the addresses not tracked.
  ghost predicate ReportsOn(run: seq<Arrival>, k: nat, overflow: bool, addr: DeviceAddr)
    requires k < |run|
  {
    Answer(run, k).Some? && IsOverflow(Answer(run, k)) == overflow && (!overflow ==> run[k].addr == addr)
  }

  // j is the latest report on the source before i.
  ghost predicate LatestReportOn(run: seq<Arrival>, j: nat, i: nat, overflow: bool, addr: DeviceAddr)
    requires i <= |run|
  {
    j < i && ReportsOn(run, j, overflow, addr) && forall k :: j < k < i ==> !ReportsOn(run, k, overflow, addr)
  }

  // What a stamp stands for: the latest report on its source.
  lemma {:induction false} StampIsLatest(run: seq<Arrival>, i: nat, overflow: bool, addr: DeviceAddr) returns (j: nat)
    requires i <= |run| && LastReport(After(run[..i]), overflow, addr).Some?
    ensures LatestReportOn(run, j, i, overflow, addr)
    ensures LastReport(After(run[..i]), overflow, addr).value == run[j].at
    decreases i
  {
    hide Record, After, LastReport;
    if i == 0 {
      NothingStamped(overflow, addr);
      assert false;
    } else {
      AfterOneMore(run, i - 1);
      StampAfter(After(run[..i - 1]), run[i - 1], overflow, addr);
      if ReportsOn(run, i - 1, overflow, addr) {
        j := i - 1;
      } else {
        j := StampIsLatest(run, i - 1, overflow, addr);
      }
    }
  }

  lemma {:induction false} NothingStamped(overflow: bool, addr: DeviceAddr)
    ensures LastReport(After([]), overflow, addr).None?
  {
  }

  // A source reported before has a stamp.
  lemma {:induction false} ReportedIsStamped(run: seq<Arrival>, j: nat, i: nat, overflow: bool, addr: DeviceAddr)
    requires j < i <= |run| && ReportsOn(run, j, overflow, addr)
    ensures LastReport(After(run[..i]), overflow, addr).Some?
  {
    hide After, Record;
    StampRemembers(run, j, i);
  }

  // The source an arrival belongs to: the overflow when its address is not
  // tracked even with it.
  ghost predicate Overflows(run: seq<Arrival>, i: nat)
    requires i < |run|
  {
    run[i].addr !in After(run[..i + 1]).tracked
  }

  // Main result: a packet is passed over in silence exactly when its source was
  // reported before and the latest report on it is less than an hour ago. The
  // first packet of every tracked address, and the first of all the others, is
  // reported.
  lemma {:induction false} SilentExactly(run: seq<Arrival>, i: nat)
    requires i < |run|
    ensures Answer(run, i).None? <==>
              exists j: nat :: LatestReportOn(run, j, i, Overflows(run, i), run[i].addr) &&
                               run[i].at - run[j].at < REPORT_INTERVAL
  {
    hide After, ReportsOn;
    var overflow, addr := Overflows(run, i), run[i].addr;
    AnswersFromStamp(run, i);
    if LastReport(After(run[..i]), overflow, addr).Some? {
      var j := StampIsLatest(run, i, overflow, addr);
      LatestIsOne(run, j, i, overflow, addr);
    } else {
      forall j: nat | j < i
        ensures !ReportsOn(run, j, overflow, addr)
      {
        if ReportsOn(run, j, overflow, addr) {
          ReportedIsStamped(run, j, i, overflow, addr);
        }
      }
    }
  }

  lemma {:induction false} AnswersFromStamp(run: seq<Arrival>, i: nat)
    requires i < |run|
    ensures var last := LastReport(After(run[..i]), Overflows(run, i), run[i].addr);
            Answer(run, i).None? <==> last.Some? && run[i].at - last.value < REPORT_INTERVAL
  {
    AfterOneMore(run, i);
  }

  lemma {:induction false} LatestIsOne(run: seq<Arrival>, j: nat, i: nat, overflow: bool, addr: DeviceAddr)
    requires i <= |run| && LatestReportOn(run, j, i, overflow, addr)
    ensures forall k: nat :: LatestReportOn(run, k, i, overflow, addr) ==> k == j
  {
    hide ReportsOn;
  }

  // ---- which addresses are tracked ----

  function Senders(run: seq<Arrival>): set<DeviceAddr> {
    set a | a in run :: a.addr
  }

  lemma {:induction false} SenderIsCounted(run: seq<Arrival>, addr: DeviceAddr)
    requires addr in Senders(run)
    ensures CountFrom(run, addr) > 0
  {
    var k :| 0 <= k < |run| && run[k].addr == addr;
    CountsWhatArrived(run, |run|, k);
    assert run[..|run|] == run;
  }

  // The tracked addresses are among the senders ...
  lemma {:induction false} TrackedWereHeard(run: seq<Arrival>)
    ensures After(run).tracked.Keys <= Senders(run)
    decreases |run|
  {
    hide CountFrom, CountOutside;
    if run != [] {
      var before := run[..|run| - 1];
      TrackedWereHeard(before);
      assert run == before + [run[|run| - 1]];
      assert Senders(run) == Senders(before) + {run[|run| - 1].addr};
    }
  }

  // ... and all of them while there is room.
  lemma {:induction false} TrackedAreSenders(run: seq<Arrival>)
    ensures After(run).tracked.Keys <= Senders(run)
    ensures |After(run).tracked| < MAX_TRACKED ==> After(run).tracked.Keys == Senders(run)
  {
    hide After, CountFrom, CountOutside, Senders;
    CountsAreExact(run);
    TrackedWereHeard(run);
    forall addr | addr in Senders(run) && |After(run).tracked| < MAX_TRACKED
      ensures addr in After(run).tracked
    {
      SenderIsCounted(run, addr);
    }
  }

  // An address is heard early when fewer than 256 others were heard before it.
  ghost predicate HeardEarly(run: seq<Arrival>, addr: DeviceAddr) {
    exists i :: 0 <= i < |run| && run[i].addr == addr && |Senders(run[..i])| < MAX_TRACKED
  }

  // Main result: the addresses tracked are exactly the first 256 to be heard.
  lemma {:induction false} TrackedExactly(run: seq<Arrival>, addr: DeviceAddr)
    ensures addr in After(run).tracked <==> HeardEarly(run, addr)
    decreases |run|
  {
    hide Senders, CountFrom, CountOutside, HeardEarly;
    if run == [] {
      NobodyHeard(addr);
    } else {
      var before, a := run[..|run| - 1], run[|run| - 1];
      TrackedExactly(before, addr);
      TrackedAreSenders(before);
      CountsAreExact(before);
      EarlierStaysEarly(run, addr);
      if a.addr == addr && addr !in After(before).tracked && |After(before).tracked| == MAX_TRACKED {
        Smaller(After(before).tracked.Keys, Senders(before));
      }
    }
  }

  lemma {:induction false} NobodyHeard(addr: DeviceAddr)
    ensures !HeardEarly([], addr)
  {
  }

  lemma {:induction false} EarlierStaysEarly(run: seq<Arrival>, addr: DeviceAddr)
    requires run != []
    ensures var before, a := run[..|run| - 1], run[|run| - 1];
            HeardEarly(run, addr) <==>
              HeardEarly(before, addr) || (a.addr == addr && |Senders(before)| < MAX_TRACKED)
  {
    hide Senders;
    var before := run[..|run| - 1];
    assert forall i :: 0 <= i < |before| ==> before[..i] == run[..i] && before[i] == run[i];
  }

  // ---- what reports say ----

  lemma {:induction false} FirstSeenIs(run: seq<Arrival>, i: nat, addr: DeviceAddr) returns (f: nat)
    requires i <= |run| && addr in After(run[..i]).tracked
    ensures f < i && run[f].addr == addr && (forall k :: 0 <= k < f ==> run[k].addr != addr)
    ensures After(run[..i]).tracked[addr].firstSeen == run[f].at
    decreases i
  {
    var before := run[..i - 1];
    assert run[..i][..i - 1] == before && run[..i][i - 1] == run[i - 1];
    if addr in After(before).tracked {
      f := FirstSeenIs(run, i - 1, addr);
    } else {
      f := i - 1;
      CountsAreExact(before);
      forall k | 0 <= k < f
        ensures run[k].addr != addr
      {
        CountsWhatArrived(run, i - 1, k);
      }
    }
  }

  lemma {:induction false} CountsWhatArrived(run: seq<Arrival>, i: nat, k: nat)
    requires k < i <= |run|
    ensures CountFrom(run[..i], run[k].addr) > 0
    decreases i
  {
    assert run[..i][..i - 1] == run[..i - 1];
    if k < i - 1 {
      CountsWhatArrived(run, i - 1, k);
    }
  }

  // Main result: a report tells the truth - "new" of an address never heard,
  // "repeat" with the number of all its packets and the time since the first,
  // "overflow" with the number of all packets from addresses not tracked.
  lemma {:induction false} ReportsAreTrue(run: seq<Arrival>, i: nat)
    requires i < |run| && Answer(run, i).Some?
    ensures var addr, s := run[i].addr, After(run[..i + 1]);
            match Answer(run, i).value
            case New => CountFrom(run[..i], addr) == 0 && addr in s.tracked
            case Repeat(count, since) =>
              && count == CountFrom(run[..i + 1], addr) > 1
              && exists f :: 0 <= f < i && run[f].addr == addr && (forall k :: 0 <= k < f ==> run[k].addr != addr)
                             && since == Elapsed(run[i].at, run[f].at)
            case Overflow(packets) => addr !in s.tracked && packets == CountOutside(run[..i + 1], s.tracked.Keys)
  {
    hide CountFrom, CountOutside;
    var addr := run[i].addr;
    assert run[..i + 1][..i] == run[..i] && run[..i + 1][i] == run[i];
    CountsAreExact(run[..i]);
    CountsAreExact(run[..i + 1]);
    if addr in After(run[..i]).tracked {
      var f := FirstSeenIs(run, i, addr);
    }
  }
}
