// The receiver's packet filter: advertisements become sightings, repeats are
// suppressed through the bounded cache, and the rest go to a queue that drops
// its oldest packet when full (firmware/receiver/src/ble_scan.rs,
// firmware/receiver/src/scanned_packet.rs).
module Dedup {
  import opened Words
  import opened Lru
  import opened CacheTraces
  import opened Measurements
  import opened Packets

  const COMPANY := 0xFFFF
  const CACHE_SIZE := 32
  const CHANNEL_SIZE := 512

  // ---- what is heard ----

  // One advertisement structure; anything else, or malformed, is `Other`.
  datatype Ad = Manufacturer(company: nat, payload: seq<Byte>) | Other

  datatype Report = Report(addr: DeviceAddr, rssi: I8, ads: seq<Ad>)

  // A packet recognised in a report, with the number read off it.
  datatype Sighting = Sighting(addr: DeviceAddr, number: Word, rssi: I8, packet: seq<Byte>)

  datatype ScannedPacket = ScannedPacket(addr: DeviceAddr, rssi: I8, packet: seq<Byte>)

  function SightingIn(r: Report, ad: Ad): Option<Sighting> {
    if !(ad.Manufacturer? && ad.company == COMPANY) then None
    else
      match StripAirMagic(ad.payload)
      case Bare(packet) =>
        (match ParsePacket(packet)
         case Some(p) => Some(Sighting(r.addr, p.number, r.rssi, packet))
         case None => None)
      case _ => None
  }

  function SightingsInAds(r: Report, ads: seq<Ad>): seq<Sighting>
    decreases |ads|
  {
    if ads == [] then []
    else
      match SightingIn(r, ads[0])
      case None => SightingsInAds(r, ads[1..])
      case Some(s) => [s] + SightingsInAds(r, ads[1..])
  }

  // The sightings in a batch; a report that could not be decoded is skipped.
  function Sightings(reports: seq<Option<Report>>): seq<Sighting>
    decreases |reports|
  {
    if reports == [] then []
    else (match reports[0]
          case None => []
          case Some(r) => SightingsInAds(r, r.ads)) + Sightings(reports[1..])
  }

  // ---- what is done with one sighting ----

  datatype Receiver = Receiver(seen: seq<Entry<DeviceAddr, Word>>, queue: seq<ScannedPacket>)

  const FRESH := Receiver([], [])

  predicate IsRepeat(seen: seq<Entry<DeviceAddr, Word>>, s: Sighting) {
    Found(seen, s.addr) == Some(s.number)
  }

  predicate Forwarded(seen: seq<Entry<DeviceAddr, Word>>, s: Sighting) {
    !IsRepeat(seen, s) && |s.packet| <= MAX_WIRE_LEN
  }

  function Queued(queue: seq<ScannedPacket>, p: ScannedPacket): seq<ScannedPacket> {
    (if |queue| >= CHANNEL_SIZE then queue[1..] else queue) + [p]
  }

  // The lookup touches the cache even when the sighting is suppressed, and a
  // new number is recorded before the packet's size is judged.
  function Handle(r: Receiver, s: Sighting): Receiver {
    var touched := Got(r.seen, s.addr);
    if IsRepeat(r.seen, s) then Receiver(touched, r.queue)
    else
      Receiver(Inserted(touched, s.addr, s.number, CACHE_SIZE),
               if Forwarded(r.seen, s) then Queued(r.queue, ScannedPacket(s.addr, s.rssi, s.packet)) else r.queue)
  }

  function HandleAll(r: Receiver, ss: seq<Sighting>): Receiver
    decreases |ss|
  {
    if ss == [] then r else HandleAll(Handle(r, ss[0]), ss[1..])
  }

  class PacketHandler {
    const seqCache: LruCache<DeviceAddr, Word>
    var channel: seq<ScannedPacket>

    ghost predicate Valid()
      reads this, seqCache, seqCache.cache
    {
      seqCache.Valid() && seqCache.cache.Length == CACHE_SIZE
    }

    ghost function State(): Receiver
      requires Valid()
      reads this, seqCache, seqCache.cache
    {
      Receiver(seqCache.Entries(), channel)
    }

    constructor ()
      ensures Valid() && State() == FRESH
      ensures fresh(seqCache) && fresh(seqCache.cache)
    {
      seqCache := new LruCache(CACHE_SIZE);
      channel := [];
    }

    method OnExtAdvReports(reports: seq<Option<Report>>)
      requires Valid()
      modifies this, seqCache, seqCache.cache
      ensures Valid() && State() == HandleAll(old(State()), Sightings(reports))
    {
      hide Handle, SightingIn, SightingsInAds, Sightings, HandleAll;
      for i := 0 to |reports|
        invariant Valid()
        invariant HandleAll(State(), Sightings(reports[i..])) == HandleAll(old(State()), Sightings(reports))
      {
        NextReport(reports, i);
        if reports[i].None? {
          continue;
        }
        var report := reports[i].value;
        ghost var later := Sightings(reports[i + 1..]);
        for j := 0 to |report.ads|
          invariant Valid()
          invariant HandleAll(State(), SightingsInAds(report, report.ads[j..]) + later)
                    == HandleAll(old(State()), Sightings(reports))
        {
          NextAd(report, j, later, State());
          var sighting := SightingIn(report, report.ads[j]);
          if sighting.Some? {
            OnSighting(sighting.value);
          }
        }
        NoMoreAds(report, later);
      }
      NoMoreReports(reports, State());
    }

    method OnSighting(s: Sighting)
      requires Valid()
      modifies this, seqCache, seqCache.cache
      ensures Valid() && State() == Handle(old(State()), s)
    {
      hide Got, Inserted, Found;
      var cached := seqCache.Get(s.addr);
      if cached == Some(s.number) {
        return;
      }
      var previous, inBounds := seqCache.Insert(s.addr, s.number);
      if |s.packet| > MAX_WIRE_LEN {
        return;
      }
      if |channel| >= CHANNEL_SIZE {
        channel := channel[1..];
      }
      channel := channel + [ScannedPacket(s.addr, s.rssi, s.packet)];
    }
  }

  lemma {:induction false} NextReport(reports: seq<Option<Report>>, i: nat)
    requires i < |reports|
    ensures Sightings(reports[i..]) == match reports[i]
            case None => Sightings(reports[i + 1..])
            case Some(r) => SightingsInAds(r, r.ads[0..]) + Sightings(reports[i + 1..])
  {
    assert reports[i..][1..] == reports[i + 1..];
    if reports[i].Some? {
      assert reports[i].value.ads[0..] == reports[i].value.ads;
    } else {
      assert [] + Sightings(reports[i + 1..]) == Sightings(reports[i + 1..]);
    }
  }

  lemma {:induction false} NextAd(r: Report, j: nat, later: seq<Sighting>, st: Receiver)
    requires j < |r.ads|
    ensures var all, rest := SightingsInAds(r, r.ads[j..]) + later, SightingsInAds(r, r.ads[j + 1..]) + later;
            match SightingIn(r, r.ads[j])
            case None => all == rest
            case Some(s) => HandleAll(st, all) == HandleAll(Handle(st, s), rest)
  {
    hide Handle, SightingIn;
    assert r.ads[j..][1..] == r.ads[j + 1..];
    var rest := SightingsInAds(r, r.ads[j + 1..]) + later;
    if SightingIn(r, r.ads[j]).Some? {
      var s := SightingIn(r, r.ads[j]).value;
      assert ([s] + SightingsInAds(r, r.ads[j + 1..])) + later == [s] + rest;
      assert ([s] + rest)[1..] == rest;
    }
  }

  lemma {:induction false} NoMoreAds(r: Report, later: seq<Sighting>)
    ensures SightingsInAds(r, r.ads[|r.ads|..]) + later == later
  {
  }

  lemma {:induction false} NoMoreReports(reports: seq<Option<Report>>, st: Receiver)
    ensures HandleAll(st, Sightings(reports[|reports|..])) == st
  {
  }

  // ---- the cache over a whole trace ----

  lemma {:induction false} HandleAllNext(r: Receiver, ss: seq<Sighting>, i: nat)
    requires i < |ss|
    ensures HandleAll(r, ss[..i + 1]) == Handle(HandleAll(r, ss[..i]), ss[i])
    decreases i
  {
    hide Handle;
    if i > 0 {
      assert ss[..i + 1][1..] == ss[1..][..i] && ss[..i][1..] == ss[1..][..i - 1];
      HandleAllNext(Handle(r, ss[0]), ss[1..], i - 1);
    } else {
      assert ss[..1][1..] == [];
    }
  }

  function Inserts(ss: seq<Sighting>): (ops: seq<Op<DeviceAddr, Word>>)
    ensures |ops| == |ss|
  {
    seq(|ss|, i requires 0 <= i < |ss| => Insert(ss[i].addr, ss[i].number))
  }

  function Addrs(ss: seq<Sighting>): (a: seq<DeviceAddr>)
    ensures |a| == |ss|
  {
    seq(|ss|, i requires 0 <= i < |ss| => ss[i].addr)
  }

  // Suppressed or not, a sighting leaves the cache as one insert would.
  lemma {:induction false} SightingIsInsert(r: Receiver, s: Sighting)
    requires Distinct(r.seen)
    ensures Handle(r, s).seen == Inserted(r.seen, s.addr, s.number, CACHE_SIZE)
  {
    hide Position;
    var es, p := r.seen, Position(r.seen, s.addr);
    if p < |es| {
      PositionAfterTouch(es, p, es[p].value, s.addr);
      var touched := Touched(es, p, es[p].value);
      assert touched[..0] == [] && touched[1..] == es[..p] + es[p + 1..];
      assert [Entry(s.addr, s.number)] + [] + (es[..p] + es[p + 1..]) == Touched(es, p, s.number);
    }
  }

  lemma {:induction false} SeenIsTrace(ss: seq<Sighting>)
    ensures HandleAll(FRESH, ss).seen == After(Inserts(ss), CACHE_SIZE)
    ensures Touches(Inserts(ss), CACHE_SIZE) == Addrs(ss)
    decreases |ss|
  {
    hide Handle, Inserted;
    if ss == [] {
    } else {
      var i := |ss| - 1;
      SeenIsTrace(ss[..i]);
      assert ss[..i + 1] == ss && Inserts(ss)[..i] == Inserts(ss[..i]) && Addrs(ss) == Addrs(ss[..i]) + [ss[i].addr];
      HandleAllNext(FRESH, ss, i);
      CacheHoldsMostRecent(Inserts(ss[..i]), CACHE_SIZE, ss[i].addr);
      SightingIsInsert(HandleAll(FRESH, ss[..i]), ss[i]);
    }
  }

  // j is the sighting of the same address right before i.
  ghost predicate Previous(ss: seq<Sighting>, j: nat, i: nat)
    requires i < |ss|
  {
    j < i && ss[j].addr == ss[i].addr && forall k :: j < k < i ==> ss[k].addr != ss[i].addr
  }

  // The addresses seen strictly between two sightings.
  ghost function Between(ss: seq<Sighting>, j: nat, i: nat): set<DeviceAddr>
    requires i <= |ss|
  {
    set k | j < k < i :: ss[k].addr
  }

  lemma {:induction false} SinceIsBetween(ss: seq<Sighting>, j: nat, i: nat, addr: DeviceAddr)
    requires j < i <= |ss| && ss[j].addr == addr && forall k :: j < k < i ==> ss[k].addr != addr
    ensures Since(Addrs(ss[..i]), addr) == Between(ss, j, i)
    ensures LastInserted(Inserts(ss[..i]), addr) == Some(ss[j].number)
    decreases i
  {
    assert Addrs(ss[..i])[..i - 1] == Addrs(ss[..i - 1]) && Inserts(ss[..i])[..i - 1] == Inserts(ss[..i - 1]);
    assert Addrs(ss[..i])[i - 1] == ss[i - 1].addr;
    if j < i - 1 {
      SinceIsBetween(ss, j, i - 1, addr);
      assert Between(ss, j, i) == Between(ss, j, i - 1) + {ss[i - 1].addr};
    }
  }

  lemma {:induction false} LatestBefore(ss: seq<Sighting>, addr: DeviceAddr, i: nat) returns (j: nat)
    requires i <= |ss| && addr in Addrs(ss[..i])
    ensures j < i && ss[j].addr == addr && forall k :: j < k < i ==> ss[k].addr != addr
    decreases i
  {
    if ss[i - 1].addr == addr {
      j := i - 1;
    } else {
      assert Addrs(ss[..i]) == Addrs(ss[..i - 1]) + [ss[i - 1].addr];
      j := LatestBefore(ss, addr, i - 1);
    }
  }

  lemma {:induction false} PreviousIsPast(ss: seq<Sighting>, i: nat)
    requires i < |ss|
    ensures forall j: nat :: Previous(ss, j, i) ==> ss[i].addr in Addrs(ss[..i])
  {
    forall j: nat | Previous(ss, j, i)
      ensures ss[i].addr in Addrs(ss[..i])
    {
      assert Addrs(ss[..i])[j] == ss[i].addr;
    }
  }

  // Main result: a sighting is suppressed exactly when the one before it from
  // the same address had the same number and fewer than 32 other addresses were
  // seen in between.
  lemma {:induction false} SuppressedExactly(ss: seq<Sighting>, i: nat)
    requires i < |ss|
    ensures IsRepeat(HandleAll(FRESH, ss[..i]).seen, ss[i]) <==>
              exists j: nat :: Previous(ss, j, i) && ss[j].number == ss[i].number && |Between(ss, j, i)| < CACHE_SIZE
  {
    hide Since, LastInserted, HandleAll, After, Touches;
    var addr, past := ss[i].addr, ss[..i];
    SeenIsTrace(past);
    CacheHoldsMostRecent(Inserts(past), CACHE_SIZE, addr);
    PreviousIsPast(ss, i);
    if addr in Addrs(past) {
      var j := LatestBefore(ss, addr, i);
      SinceIsBetween(ss, j, i, addr);
      assert Previous(ss, j, i);
      assert forall j': nat :: Previous(ss, j', i) ==> j' == j;
    }
  }

  // ---- against an unbounded map ----

  function LastNumbers(ss: seq<Sighting>): map<DeviceAddr, Word>
    decreases |ss|
  {
    if ss == [] then map[] else LastNumbers(ss[..|ss| - 1])[ss[|ss| - 1].addr := ss[|ss| - 1].number]
  }

  lemma {:induction false} LastNumberIs(ss: seq<Sighting>, j: nat, i: nat, addr: DeviceAddr)
    requires j < i <= |ss| && ss[j].addr == addr && forall k :: j < k < i ==> ss[k].addr != addr
    ensures addr in LastNumbers(ss[..i]) && LastNumbers(ss[..i])[addr] == ss[j].number
    decreases i
  {
    assert ss[..i][..i - 1] == ss[..i - 1];
    if j < i - 1 {
      LastNumberIs(ss, j, i - 1, addr);
    }
  }

  lemma {:induction false} NumberedAreSeen(ss: seq<Sighting>, i: nat, addr: DeviceAddr)
    requires i <= |ss| && addr in LastNumbers(ss[..i])
    ensures addr in Addrs(ss[..i])
    decreases i
  {
    assert ss[..i][..i - 1] == ss[..i - 1] && Addrs(ss[..i]) == Addrs(ss[..i - 1]) + [ss[i - 1].addr];
    if ss[i - 1].addr != addr {
      NumberedAreSeen(ss, i - 1, addr);
    }
  }

  ghost function AddrsOnAir(ss: seq<Sighting>): set<DeviceAddr> {
    set s | s in ss :: s.addr
  }

  // Main result: with at most 32 addresses on the air, the bounded cache
  // suppresses exactly what an unbounded map of last numbers would.
  lemma {:induction false} AgreesWithUnboundedMap(ss: seq<Sighting>, i: nat)
    requires i < |ss| && |AddrsOnAir(ss)| <= CACHE_SIZE
    ensures IsRepeat(HandleAll(FRESH, ss[..i]).seen, ss[i]) <==>
              var last := LastNumbers(ss[..i]);
              ss[i].addr in last && last[ss[i].addr] == ss[i].number
  {
    hide HandleAll, IsRepeat, LastNumbers;
    var addr := ss[i].addr;
    SuppressedExactly(ss, i);
    PreviousIsPast(ss, i);
    if addr in LastNumbers(ss[..i]) {
      NumberedAreSeen(ss, i, addr);
    }
    if addr in Addrs(ss[..i]) {
      var j := LatestBefore(ss, addr, i);
      LastNumberIs(ss, j, i, addr);
      assert Previous(ss, j, i);
      assert addr !in Between(ss, j, i) && Between(ss, j, i) + {addr} <= AddrsOnAir(ss);
      Smaller(Between(ss, j, i) + {addr}, AddrsOnAir(ss));
      assert forall j': nat :: Previous(ss, j', i) ==> j' == j;
    }
  }

  // ---- what reaches the queue ----

  // A sighting is kept when it fits a packet of the link and is no repeat.
  ghost predicate Passes(ss: seq<Sighting>, i: nat)
    requires i < |ss|
  {
    && |ss[i].packet| <= 252
    && !exists j: nat :: Previous(ss, j, i) && ss[j].number == ss[i].number && |Between(ss, j, i)| < CACHE_SIZE
  }

  // Main result: a sighting is forwarded exactly when its packet has at most 252
  // bytes and the one before it from the same address had another number or
  // lies 32 or more other addresses back.
  lemma {:induction false} ForwardedExactly(ss: seq<Sighting>, i: nat)
    requires i < |ss|
    ensures Forwarded(HandleAll(FRESH, ss[..i]).seen, ss[i]) <==> Passes(ss, i)
  {
    hide IsRepeat, Previous, Between, HandleAll;
    SuppressedExactly(ss, i);
  }

  function Last<T>(s: seq<T>, n: nat): seq<T> {
    if |s| <= n then s else s[|s| - n..]
  }

  // The positions of the sightings before n that pass, in order.
  ghost predicate AllPassing(ss: seq<Sighting>, n: nat, at: seq<nat>) {
    && n <= |ss|
    && (forall k :: 0 <= k < |at| ==> at[k] < n && Passes(ss, at[k]))
    && (forall k, l :: 0 <= k < l < |at| ==> at[k] < at[l])
    && (forall i: nat :: i < n && Passes(ss, i) ==> i in at)
  }

  function PacketsAt(ss: seq<Sighting>, at: seq<nat>): (p: seq<ScannedPacket>)
    requires forall k :: 0 <= k < |at| ==> at[k] < |ss|
    ensures |p| == |at|
  {
    seq(|at|, k requires 0 <= k < |at| => ScannedPacket(ss[at[k]].addr, ss[at[k]].rssi, ss[at[k]].packet))
  }

  lemma {:induction false} PassingUpTo(ss: seq<Sighting>, n: nat) returns (at: seq<nat>)
    requires n <= |ss|
    ensures AllPassing(ss, n, at)
    ensures HandleAll(FRESH, ss[..n]).queue == Last(PacketsAt(ss, at), CHANNEL_SIZE)
  {
    hide Passes, IsRepeat, Got, Inserted;
    if n == 0 {
      at := [];
    } else {
      var before := PassingUpTo(ss, n - 1);
      HandleAllNext(FRESH, ss, n - 1);
      ForwardedExactly(ss, n - 1);
      if Passes(ss, n - 1) {
        at := before + [n - 1];
        var p := ScannedPacket(ss[n - 1].addr, ss[n - 1].rssi, ss[n - 1].packet);
        assert PacketsAt(ss, at) == PacketsAt(ss, before) + [p];
        QueuedIsLast(PacketsAt(ss, before), p);
      } else {
        at := before;
      }
    }
  }

  lemma {:induction false} QueuedIsLast(sent: seq<ScannedPacket>, p: ScannedPacket)
    ensures Queued(Last(sent, CHANNEL_SIZE), p) == Last(sent + [p], CHANNEL_SIZE)
  {
  }

  // Main result: over any trace the queue holds, in order, the latest 512 of
  // exactly the sightings that pass, each with its address, its signal strength
  // and its packet; only the oldest are ever dropped.
  lemma {:induction false} QueueKeepsNewest(ss: seq<Sighting>) returns (at: seq<nat>)
    ensures AllPassing(ss, |ss|, at)
    ensures var queue := HandleAll(FRESH, ss).queue;
            var dropped := if |at| <= 512 then 0 else |at| - 512;
            && |queue| == |at| - dropped
            && forall k :: 0 <= k < |queue| ==>
                             var s := ss[at[dropped + k]];
                             queue[k].addr == s.addr && queue[k].rssi == s.rssi && queue[k].packet == s.packet
  {
    hide Passes, HandleAll;
    at := PassingUpTo(ss, |ss|);
    assert ss[..|ss|] == ss;
  }

  // ---- what counts as a sighting ----

  // An advertisement is a sighting exactly when it is manufacturer data of
  // company 0xFFFF holding a packet behind the air magic; the number is the
  // packet's own.
  lemma {:induction false} SightingExactly(r: Report, ad: Ad, s: Sighting)
    ensures SightingIn(r, ad) == Some(s) <==>
              exists p: Packet :: ad == Manufacturer(0xFFFF, AIR_MAGIC + PacketBytes(p)) &&
                                  s == Sighting(r.addr, p.number, r.rssi, PacketBytes(p))
  {
    hide StripAirMagic, ParsePacket, PacketBytes;
    if SightingIn(r, ad) == Some(s) {
      StripsExactlyTheMagic(ad.payload, s.packet);
      ParsesExactlyPackets(s.packet, ParsePacket(s.packet).value);
    }
    if p: Packet :| ad == Manufacturer(0xFFFF, AIR_MAGIC + PacketBytes(p)) &&
                    s == Sighting(r.addr, p.number, r.rssi, PacketBytes(p)) {
      StripsExactlyTheMagic(ad.payload, PacketBytes(p));
      ParsesExactlyPackets(PacketBytes(p), p);
    }
  }

  // What advertisement `ad` of report `report` is, if there is one.
  function SightingAt(reports: seq<Option<Report>>, report: nat, ad: nat): Option<Sighting> {
    if report < |reports| && reports[report].Some? && ad < |reports[report].value.ads|
    then SightingIn(reports[report].value, reports[report].value.ads[ad])
    else None
  }

  lemma {:induction false} OneMoreAd(r: Report, ads: seq<Ad>, n: nat)
    requires n < |ads|
    ensures SightingsInAds(r, ads[..n + 1]) == SightingsInAds(r, ads[..n]) + AsList(SightingIn(r, ads[n]))
    decreases n
  {
    hide SightingIn;
    if n > 0 {
      assert ads[..n + 1][1..] == ads[1..][..n] && ads[..n][1..] == ads[1..][..n - 1];
      OneMoreAd(r, ads[1..], n - 1);
    } else {
      assert ads[..1][1..] == [];
    }
  }

  function AsList(s: Option<Sighting>): seq<Sighting> {
    if s.Some? then [s.value] else []
  }

  // The positions of the first n advertisements that are sightings, in order.
  ghost predicate AllAds(r: Report, ads: seq<Ad>, n: nat, at: seq<nat>) {
    && n <= |ads| && |at| == |SightingsInAds(r, ads[..n])|
    && (forall k :: 0 <= k < |at| ==>
                      at[k] < n && SightingIn(r, ads[at[k]]) == Some(SightingsInAds(r, ads[..n])[k]))
    && (forall k, l :: 0 <= k < l < |at| ==> at[k] < at[l])
    && (forall j: nat :: j < n && SightingIn(r, ads[j]).Some? ==> j in at)
  }

  lemma {:induction false} AdsUpTo(r: Report, ads: seq<Ad>, n: nat) returns (at: seq<nat>)
    requires n <= |ads|
    ensures AllAds(r, ads, n, at)
  {
    hide SightingIn, AllAds;
    if n == 0 {
      at := [];
      NoAds(r, ads);
    } else {
      var before := AdsUpTo(r, ads, n - 1);
      AdAppended(r, ads, n - 1, before);
      at := if SightingIn(r, ads[n - 1]).Some? then before + [n - 1] else before;
    }
  }

  lemma {:induction false} NoAds(r: Report, ads: seq<Ad>)
    ensures AllAds(r, ads, 0, [])
  {
  }

  lemma {:induction false} AdAppended(r: Report, ads: seq<Ad>, n: nat, before: seq<nat>)
    requires n < |ads| && AllAds(r, ads, n, before)
    ensures AllAds(r, ads, n + 1, if SightingIn(r, ads[n]).Some? then before + [n] else before)
  {
    hide SightingIn, SightingsInAds;
    OneMoreAd(r, ads, n);
    var found, found' := SightingsInAds(r, ads[..n]), SightingsInAds(r, ads[..n + 1]);
    if SightingIn(r, ads[n]).Some? {
      var at := before + [n];
      assert found' == found + [SightingIn(r, ads[n]).value];
      forall k | 0 <= k < |at|
        ensures at[k] < n + 1 && SightingIn(r, ads[at[k]]) == Some(found'[k])
      {
        assert k < |before| ==> at[k] == before[k] && found'[k] == found[k];
      }
      forall j: nat | j < n + 1 && SightingIn(r, ads[j]).Some?
        ensures j in at
      {
        assert if j < n then j in before else at[|before|] == j;
      }
    } else {
      assert found' == found;
    }
  }

  lemma {:induction false} OneMoreReport(reports: seq<Option<Report>>, n: nat)
    requires n < |reports|
    ensures Sightings(reports[..n + 1]) == Sightings(reports[..n]) + InReport(reports[n])
    decreases n
  {
    hide SightingsInAds;
    if n > 0 {
      assert reports[..n + 1][1..] == reports[1..][..n] && reports[..n][1..] == reports[1..][..n - 1];
      OneMoreReport(reports[1..], n - 1);
    } else {
      assert reports[..1][1..] == [];
    }
  }

  function InReport(r: Option<Report>): seq<Sighting> {
    if r.Some? then SightingsInAds(r.value, r.value.ads) else []
  }

  ghost predicate InOrder(a: (nat, nat), b: (nat, nat)) {
    a.0 < b.0 || (a.0 == b.0 && a.1 < b.1)
  }

  // The positions of the sightings in the first n reports, in order.
  ghost predicate AllSightings(reports: seq<Option<Report>>, n: nat, at: seq<(nat, nat)>) {
    && n <= |reports| && |at| == |Sightings(reports[..n])|
    && (forall k :: 0 <= k < |at| ==>
                      at[k].0 < n && SightingAt(reports, at[k].0, at[k].1) == Some(Sightings(reports[..n])[k]))
    && (forall k, l :: 0 <= k < l < |at| ==> InOrder(at[k], at[l]))
    && (forall i: nat, j: nat :: i < n && SightingAt(reports, i, j).Some? ==> (i, j) in at)
  }

  lemma {:induction false} SightingsUpTo(reports: seq<Option<Report>>, n: nat) returns (at: seq<(nat, nat)>)
    requires n <= |reports|
    ensures AllSightings(reports, n, at)
  {
    hide SightingAt, SightingsInAds, AllSightings;
    if n == 0 {
      at := [];
      assert AllSightings(reports, 0, []) by { NoSightings(reports); }
    } else {
      var before := SightingsUpTo(reports, n - 1);
      var ads := AdsStandAt(reports, n - 1);
      at := before + InReportAt(n - 1, ads);
      ReportAppended(reports, n - 1, before, ads);
    }
  }

  lemma {:induction false} NoSightings(reports: seq<Option<Report>>)
    ensures AllSightings(reports, 0, [])
  {
  }

  function InReportAt(n: nat, ads: seq<nat>): (at: seq<(nat, nat)>)
    ensures |at| == |ads|
  {
    seq(|ads|, k requires 0 <= k < |ads| => (n, ads[k]))
  }

  // One report's sightings stand at the positions of its advertisements.
  ghost predicate StandAt(reports: seq<Option<Report>>, n: nat, ads: seq<nat>) {
    && n < |reports| && |ads| == |InReport(reports[n])|
    && (forall k :: 0 <= k < |ads| ==> SightingAt(reports, n, ads[k]) == Some(InReport(reports[n])[k]))
    && (forall k, l :: 0 <= k < l < |ads| ==> ads[k] < ads[l])
    && (forall j: nat :: SightingAt(reports, n, j).Some? ==> j in ads)
  }

  lemma {:induction false} AdsStandAt(reports: seq<Option<Report>>, n: nat) returns (ads: seq<nat>)
    requires n < |reports|
    ensures StandAt(reports, n, ads)
  {
    hide SightingIn, SightingsInAds;
    ads := [];
    if reports[n].Some? {
      var r := reports[n].value;
      ads := AdsUpTo(r, r.ads, |r.ads|);
      assert r.ads[..|r.ads|] == r.ads;
    }
  }

  lemma {:induction false} ReportAppended(
    reports: seq<Option<Report>>, n: nat, before: seq<(nat, nat)>, ads: seq<nat>)
    requires n < |reports| && AllSightings(reports, n, before) && StandAt(reports, n, ads)
    ensures AllSightings(reports, n + 1, before + InReportAt(n, ads))
  {
    hide SightingAt, InReport, Sightings;
    OneMoreReport(reports, n);
    var at, added := before + InReportAt(n, ads), InReportAt(n, ads);
    var found, found' := Sightings(reports[..n]), Sightings(reports[..n + 1]);
    forall k | 0 <= k < |at|
      ensures at[k].0 < n + 1 && SightingAt(reports, at[k].0, at[k].1) == Some(found'[k])
    {
      if k < |before| {
        assert at[k] == before[k] && found'[k] == found[k];
      } else {
        assert at[k] == added[k - |before|] && found'[k] == InReport(reports[n])[k - |before|];
      }
    }
    forall i: nat, j: nat | i < n + 1 && SightingAt(reports, i, j).Some?
      ensures (i, j) in at
    {
      if i == n {
        var k :| 0 <= k < |ads| && ads[k] == j;
        assert at[|before| + k] == (n, j);
      } else {
        assert (i, j) in before;
      }
    }
    OneBehindTheOther(before, n, ads);
  }

  lemma {:induction false} OneBehindTheOther(before: seq<(nat, nat)>, n: nat, ads: seq<nat>)
    requires forall k :: 0 <= k < |before| ==> before[k].0 < n
    requires forall k, l :: 0 <= k < l < |before| ==> InOrder(before[k], before[l])
    requires forall k, l :: 0 <= k < l < |ads| ==> ads[k] < ads[l]
    ensures var at := before + InReportAt(n, ads);
            forall k, l :: 0 <= k < l < |at| ==> InOrder(at[k], at[l])
  {
  }

  // Every sighting of a batch is handled once, report after report and
  // advertisement after advertisement.
  lemma {:induction false} SightingsInOrder(reports: seq<Option<Report>>) returns (at: seq<(nat, nat)>)
    ensures |at| == |Sightings(reports)|
    ensures forall k :: 0 <= k < |at| ==> SightingAt(reports, at[k].0, at[k].1) == Some(Sightings(reports)[k])
    ensures forall k, l :: 0 <= k < l < |at| ==> InOrder(at[k], at[l])
    ensures forall i: nat, j: nat :: SightingAt(reports, i, j).Some? ==> (i, j) in at
  {
    hide Sightings, SightingIn;
    at := SightingsUpTo(reports, |reports|);
    assert reports[..|reports|] == reports;
  }
}
