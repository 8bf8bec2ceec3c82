/**
 * The tracker beside the kernel it watches, for one key (pkg/stats/tracker.go, backend/wireguard/jobs.go). The kernel's
 * counters run in epochs: they grow with traffic and start again from zero when the peer is re-created. A poll reads
 * the counters and applies the sample later, with no lock in between. The books say where every byte carried ended.
 */
module TrafficLedger {
  import opened Base
  import opened Trackers

  // ---- one direction's books ----------------------------------------------

  /**
   * `accounted` is the part of the present epoch that readings have covered. What a reading covered is credited or
   * lost, or credited a second time.
   */
  datatype Line = Line(counter: nat, accounted: int, carried: int, credited: int, lost: int, recounted: int) {
    function Carry(n: nat): Line { this.(counter := counter + n, carried := carried + n) }

    function EndEpoch(): Line { Line(0, 0, carried, credited, lost + counter - accounted, recounted) }

    function TakeReading(): Line { this.(accounted := counter) }

    /** A reading that newly covered `covered` bytes is credited with `credit`. */
    function Settle(covered: int, credit: int): Line {
      if credit <= covered then this.(credited := credited + credit, lost := lost + covered - credit)
      else this.(credited := credited + credit, recounted := recounted + credit - covered)
    }

    /** A reading is given up; within its epoch the next one covers its bytes again. */
    function GiveUp(covered: int, current: bool): Line {
      if current then this.(accounted := accounted - covered) else this.(lost := lost + covered)
    }

    /** Every byte carried is credited, lost, covered by a reading under way or not read yet, but for the recounted. */
    predicate Sound(covered: int) {
      && 0 <= accounted <= counter && 0 <= lost && 0 <= recounted && 0 <= covered
      && credited + lost + covered + counter - accounted == carried + recounted
    }
  }

  const NEW_LINE := Line(0, 0, 0, 0, 0, 0)

  // ---- the world ----------------------------------------------------------

  /** A removed peer first leaves the kernel; then RemoveStats is called; only then can it be added again. */
  datatype Presence = Here | Leaving | Gone

  /** Counters read and not applied yet, what readings had covered before, and whether their epoch still lasts. */
  datatype Reading = Reading(rx: nat, tx: nat, beforeRx: int, beforeTx: int, current: bool)

  datatype World = World(stats: Stats, presence: Presence, rx: Line, tx: Line, reading: Option<Reading>,
                         reported: Counts) {
    /** The kernel forgets its counters, and a reading under way belongs to the past. */
    function EndEpoch(): World {
      this.(rx := rx.EndEpoch(), tx := tx.EndEpoch(),
            reading := if reading.Some? then Some(reading.value.(current := false)) else None)
    }

    function CoveredRx(): int { if reading.Some? then reading.value.rx - reading.value.beforeRx else 0 }

    function CoveredTx(): int { if reading.Some? then reading.value.tx - reading.value.beforeTx else 0 }

    function Carried(): Counts { Counts(rx.carried, tx.carried) }
  }

  const START := World(map[], Gone, NEW_LINE, NEW_LINE, None, ZERO)

  datatype Event =
    | PeerAdded
    | Traffic(rxBytes: nat, txBytes: nat)
    | CounterRestart              // the kernel re-creates the peer and nobody tells the tracker
    | KernelRemoved               // the peer leaves the kernel
    | StatsRemoved                // RemoveStats
    | Read                        // a poll reads the kernel's counters
    | Apply(email: string)        // the poll applies its sample
    | GiveUp                      // the poll ends without applying it
    | Reset(keys: set<string>)    // a report with reset
    | Cleanup
    | OtherSample(sample: Sample)
    | OtherRemoved(key: string)

  function SampleOf(k: string, email: string, r: Reading): Sample {
    Sample(k, email, r.rx, r.tx)
  }

  function Applied(k: string, w: World, email: string, r: Reading): World {
    var credit := Credit(Known(w.stats, k), Counts(r.rx, r.tx));
    w.(stats := AfterSample(w.stats, SampleOf(k, email, r)), reading := None,
       rx := w.rx.Settle(r.rx - r.beforeRx, credit.rx), tx := w.tx.Settle(r.tx - r.beforeTx, credit.tx))
  }

  function Next(k: string, w: World, e: Event): World {
    match e
    case PeerAdded => if w.presence == Gone then w.(presence := Here) else w
    case Traffic(n, m) => if w.presence == Here then w.(rx := w.rx.Carry(n), tx := w.tx.Carry(m)) else w
    case CounterRestart => if w.presence == Here then w.EndEpoch() else w
    case KernelRemoved => if w.presence == Here then w.EndEpoch().(presence := Leaving) else w
    case StatsRemoved => if w.presence == Leaving then w.(presence := Gone, stats := AfterRemove(w.stats, {k})) else w
    case Read =>
      if w.presence == Here && w.reading.None? then
        w.(reading := Some(Reading(w.rx.counter, w.tx.counter, w.rx.accounted, w.tx.accounted, true)),
           rx := w.rx.TakeReading(), tx := w.tx.TakeReading())
      else w
    case Apply(email) => if w.reading.Some? then Applied(k, w, email, w.reading.value) else w
    case GiveUp =>
      if w.reading.None? then w
      else
        var r := w.reading.value;
        w.(reading := None, rx := w.rx.GiveUp(r.rx - r.beforeRx, r.current),
           tx := w.tx.GiveUp(r.tx - r.beforeTx, r.current))
    case Reset(keys) =>
      w.(stats := AfterReset(w.stats, keys),
         reported := if k in keys then w.reported.Plus(PendingOf(w.stats, k)) else w.reported)
    case Cleanup => w.(stats := AfterCleanup(w.stats))
    case OtherSample(s) => if s.publicKey == k then w else w.(stats := AfterSample(w.stats, s))
    case OtherRemoved(other) => if other == k then w else w.(stats := AfterRemove(w.stats, {other}))
  }

  function Run(k: string, events: seq<Event>): World {
    if events == [] then START else Next(k, Run(k, events[..|events| - 1]), events[|events| - 1])
  }

  // ---- the exact ledger ---------------------------------------------------

  /** What was reported and what is pending is exactly what was credited. */
  ghost predicate Balanced(k: string, w: World) {
    var pending := PendingOf(w.stats, k);
    && SoundStats(w.stats)
    && w.reported.rx + pending.rx == w.rx.credited
    && w.reported.tx + pending.tx == w.tx.credited
  }

  lemma AfterSampleAt(stats: Stats, s: Sample, k: string)
    requires SoundStats(stats)
    ensures SoundStats(AfterSample(stats, s))
    ensures PendingOf(AfterSample(stats, s), k) ==
            if s.publicKey == k then PendingOf(stats, k).Plus(Credit(Known(stats, k), s.Counters()))
            else PendingOf(stats, k)
  {
    assert Known(stats, s.publicKey).Sound();
    SampledIsSound(Known(stats, s.publicKey), s);
  }

  lemma StepBalances(k: string, w: World, e: Event)
    requires Balanced(k, w)
    ensures Balanced(k, Next(k, w, e))
  {
    match e
    case Apply(email) =>
      if w.reading.Some? {
        AfterSampleAt(w.stats, SampleOf(k, email, w.reading.value), k);
      }
    case OtherSample(s) =>
      AfterSampleAt(w.stats, s, k);
    case _ =>
  }

  /** After every run: reported plus pending equals the credited growth, and every entry is sound. */
  lemma {:induction false} LedgerIsExact(k: string, events: seq<Event>)
    ensures Balanced(k, Run(k, events))
  {
    if events != [] {
      var w, e := Run(k, events[..|events| - 1]), events[|events| - 1];
      LedgerIsExact(k, events[..|events| - 1]);
      StepBalances(k, w, e);
      assert Run(k, events) == Next(k, w, e);
    }
  }

  // ---- where every byte is ------------------------------------------------

  /** What the tracker's entry has to do with the present epoch, in one direction. */
  ghost predicate Tied(live: bool, current: int, accounted: int) {
    0 <= accounted && if live then accounted <= current else accounted == 0
  }

  /** The same for a reading under way: only the readings before it count. */
  ghost predicate TiedReading(known: bool, live: bool, current: int, accounted: int, read: int, before: int,
                              lasts: bool) {
    && 0 <= before <= read && accounted == (if lasts then read else 0)
    && (known ==> before <= current)
    && (lasts && !live ==> before == 0)
  }

  ghost predicate Steady(k: string, w: World) {
    var e, known := Known(w.stats, k), k in w.stats;
    var live := known && !e.isDeleted;
    && SoundStats(w.stats)
    && w.rx.Sound(w.CoveredRx()) && w.tx.Sound(w.CoveredTx())
    && (w.presence != Here ==> w.rx.counter == 0 && w.tx.counter == 0 && (w.reading.Some? ==> !w.reading.value.current))
    && match w.reading
       case None => Tied(live, e.current.rx, w.rx.accounted) && Tied(live, e.current.tx, w.tx.accounted)
       case Some(r) =>
         && TiedReading(known, live, e.current.rx, w.rx.accounted, r.rx, r.beforeRx, r.current)
         && TiedReading(known, live, e.current.tx, w.tx.accounted, r.tx, r.beforeTx, r.current)
  }

  /** The sample about to be applied finds no entry, though readings before it covered part of its counters. */
  predicate Stale(k: string, w: World, e: Event) {
    e.Apply? && w.reading.Some? && k !in w.stats && (w.reading.value.beforeRx != 0 || w.reading.value.beforeTx != 0)
  }

  function Twice(k: string, w: World, e: Event): Counts {
    if Stale(k, w, e) then Counts(w.reading.value.beforeRx, w.reading.value.beforeTx) else ZERO
  }

  lemma ApplyIsSteady(k: string, w: World, email: string)
    requires Steady(k, w) && w.reading.Some?
    ensures Steady(k, Next(k, w, Apply(email)))
    ensures Next(k, w, Apply(email)).rx.recounted == w.rx.recounted + Twice(k, w, Apply(email)).rx
    ensures Next(k, w, Apply(email)).tx.recounted == w.tx.recounted + Twice(k, w, Apply(email)).tx
  {
    AfterSampleAt(w.stats, SampleOf(k, email, w.reading.value), k);
  }

  lemma KernelEventIsSteady(k: string, w: World, e: Event)
    requires Steady(k, w)
    requires e.PeerAdded? || e.Traffic? || e.CounterRestart? || e.KernelRemoved? || e.Read? || e.GiveUp?
    ensures Steady(k, Next(k, w, e))
    ensures Next(k, w, e).rx.recounted == w.rx.recounted && Next(k, w, e).tx.recounted == w.tx.recounted
  {
  }

  predicate TrackerEvent(e: Event) {
    e.StatsRemoved? || e.Reset? || e.Cleanup? || e.OtherSample? || e.OtherRemoved?
  }

  lemma RemovalIsSteady(k: string, w: World, e: Event)
    requires Steady(k, w) && (e.StatsRemoved? || e.OtherRemoved?)
    ensures Steady(k, Next(k, w, e))
  {
  }

  lemma ResetIsSteady(k: string, w: World, keys: set<string>)
    requires Steady(k, w)
    ensures Steady(k, Next(k, w, Reset(keys)))
  {
  }

  lemma CleanupIsSteady(k: string, w: World)
    requires Steady(k, w)
    ensures Steady(k, Next(k, w, Cleanup))
  {
  }

  lemma OtherSampleIsSteady(k: string, w: World, s: Sample)
    requires Steady(k, w)
    ensures Steady(k, Next(k, w, OtherSample(s)))
  {
    AfterSampleAt(w.stats, s, k);
  }

  lemma TrackerEventIsSteady(k: string, w: World, e: Event)
    requires Steady(k, w) && TrackerEvent(e)
    ensures Steady(k, Next(k, w, e))
  {
    match e
    case Reset(keys) => ResetIsSteady(k, w, keys);
    case Cleanup => CleanupIsSteady(k, w);
    case OtherSample(s) => OtherSampleIsSteady(k, w, s);
    case _ => RemovalIsSteady(k, w, e);
  }

  lemma TrackerEventCountsNothing(k: string, w: World, e: Event)
    requires TrackerEvent(e)
    ensures Next(k, w, e).rx == w.rx && Next(k, w, e).tx == w.tx
  {
  }

  /** Every step keeps the books, and only a stale sample is counted twice: exactly in what was covered before it. */
  lemma StepIsSteady(k: string, w: World, e: Event)
    requires Steady(k, w)
    ensures Steady(k, Next(k, w, e))
    ensures Next(k, w, e).rx.recounted == w.rx.recounted + Twice(k, w, e).rx
    ensures Next(k, w, e).tx.recounted == w.tx.recounted + Twice(k, w, e).tx
  {
    if e.Apply? {
      if w.reading.Some? {
        ApplyIsSteady(k, w, e.email);
      }
    } else if TrackerEvent(e) {
      TrackerEventIsSteady(k, w, e);
      TrackerEventCountsNothing(k, w, e);
    } else {
      KernelEventIsSteady(k, w, e);
    }
  }

  lemma {:induction false} RunsAreSteady(k: string, events: seq<Event>)
    ensures Steady(k, Run(k, events))
  {
    if events != [] {
      var w, e := Run(k, events[..|events| - 1]), events[|events| - 1];
      RunsAreSteady(k, events[..|events| - 1]);
      StepIsSteady(k, w, e);
      assert Run(k, events) == Next(k, w, e);
    }
  }

  // ---- never too much -----------------------------------------------------

  /** Some sample of the run is applied stale. */
  ghost predicate AppliesStale(k: string, events: seq<Event>) {
    exists i :: 0 <= i < |events| && Stale(k, Run(k, events[..i]), events[i])
  }

  lemma StaleGrows(k: string, events: seq<Event>)
    requires events != []
    ensures var init := events[..|events| - 1];
            AppliesStale(k, events) <==> AppliesStale(k, init) || Stale(k, Run(k, init), events[|events| - 1])
  {
    var init := events[..|events| - 1];
    assert forall i :: 0 <= i < |init| ==> init[..i] == events[..i] && init[i] == events[i];
    if AppliesStale(k, init) {
      var i :| 0 <= i < |init| && Stale(k, Run(k, init[..i]), init[i]);
      assert Stale(k, Run(k, events[..i]), events[i]);
    }
  }

  /** Bytes are counted twice in a run if and only if some sample is applied stale. */
  lemma {:induction false} RecountsExactly(k: string, events: seq<Event>)
    ensures var w := Run(k, events); w.rx.recounted == 0 && w.tx.recounted == 0 <==> !AppliesStale(k, events)
  {
    if events != [] {
      var init, e := events[..|events| - 1], events[|events| - 1];
      var w := Run(k, init);
      RecountsExactly(k, init);
      RunsAreSteady(k, init);
      StepIsSteady(k, w, e);
      StaleGrows(k, events);
      assert Run(k, events) == Next(k, w, e);
    }
  }

  /**
   * After every run, in each direction: the bytes reported and pending are within the bytes carried if and only if no
   * more bytes were counted twice than were lost, are covered by a reading under way or are not read yet.
   */
  lemma OverReportsExactly(k: string, events: seq<Event>)
    ensures var w := Run(k, events);
            var booked := w.reported.Plus(PendingOf(w.stats, k));
            && (booked.rx <= w.rx.carried <==>
                w.rx.recounted <= w.rx.lost + w.CoveredRx() + w.rx.counter - w.rx.accounted)
            && (booked.tx <= w.tx.carried <==>
                w.tx.recounted <= w.tx.lost + w.CoveredTx() + w.tx.counter - w.tx.accounted)
  {
    LedgerIsExact(k, events);
    RunsAreSteady(k, events);
  }

  /**
   * For every interleaving in which no sample is applied stale, in each direction, the bytes reported and pending never
   * exceed the bytes carried.
   */
  lemma NeverOverReports(k: string, events: seq<Event>)
    requires !AppliesStale(k, events)
    ensures var w := Run(k, events); w.reported.Plus(PendingOf(w.stats, k)).AtMost(w.Carried())
  {
    RecountsExactly(k, events);
    RunsAreSteady(k, events);
    OverReportsExactly(k, events);
  }

  /** So a stale sample's entry was there at its reading, and was removed and forgotten in between. */
  lemma StaleWasForgotten(k: string, w: World)
    requires Steady(k, w) && w.reading.None? && (w.rx.accounted != 0 || w.tx.accounted != 0)
    ensures k in w.stats && !w.stats[k].isDeleted
  {
  }

  // ---- nothing lost -------------------------------------------------------

  /** Neither the kernel's counters nor the tracker's entry start again. */
  predicate Quiet(e: Event) {
    !e.CounterRestart? && !e.KernelRemoved? && !e.StatsRemoved?
  }

  /** The entry is live and stands at what readings covered before the one under way. */
  ghost predicate Lossless(k: string, w: World) {
    && w.rx.lost == 0 && w.tx.lost == 0 && w.presence != Leaving
    && !Known(w.stats, k).isDeleted
    && match w.reading
       case None => Known(w.stats, k).current == Counts(w.rx.accounted, w.tx.accounted)
       case Some(r) => r.current && Known(w.stats, k).current == Counts(r.beforeRx, r.beforeTx)
  }

  lemma QuietSample(k: string, w: World, email: string)
    requires Steady(k, w) && Lossless(k, w) && w.reading.Some?
    ensures Lossless(k, Next(k, w, Apply(email)))
  {
  }

  lemma QuietStep(k: string, w: World, e: Event)
    requires Steady(k, w) && Lossless(k, w) && Quiet(e)
    ensures Lossless(k, Next(k, w, e))
  {
    if e.Apply? {
      if w.reading.Some? {
        QuietSample(k, w, e.email);
      }
    } else if TrackerEvent(e) {
      TrackerEventCountsNothing(k, w, e);
    }
  }

  lemma {:induction false} QuietRunIsLossless(k: string, events: seq<Event>)
    requires forall i :: 0 <= i < |events| ==> Quiet(events[i])
    ensures Lossless(k, Run(k, events))
  {
    if events != [] {
      var init, e := events[..|events| - 1], events[|events| - 1];
      QuietRunIsLossless(k, init);
      RunsAreSteady(k, init);
      QuietStep(k, Run(k, init), e);
      assert Run(k, events) == Next(k, Run(k, init), e);
    }
  }

  /**
   * Over every run in which no counter restarts and the peer is not removed, in each direction, every byte carried is
   * reported, pending, covered by a reading under way or not read yet: exactly once, and none is lost.
   */
  lemma NothingLost(k: string, events: seq<Event>)
    requires forall i :: 0 <= i < |events| ==> Quiet(events[i])
    ensures var w := Run(k, events);
            var booked := w.reported.Plus(PendingOf(w.stats, k));
            && booked.rx + w.CoveredRx() + w.rx.counter - w.rx.accounted == w.rx.carried
            && booked.tx + w.CoveredTx() + w.tx.counter - w.tx.accounted == w.tx.carried
  {
    QuietRunIsLossless(k, events);
    QuietIsNeverStale(k, events);
    RecountsExactly(k, events);
    LedgerIsExact(k, events);
    RunsAreSteady(k, events);
  }

  lemma QuietIsNeverStale(k: string, events: seq<Event>)
    requires forall i :: 0 <= i < |events| ==> Quiet(events[i])
    ensures !AppliesStale(k, events)
  {
    forall i | 0 <= i < |events| ensures !Stale(k, Run(k, events[..i]), events[i]) {
      QuietRunIsLossless(k, events[..i]);
    }
  }

  // ---- a stale sample -----------------------------------------------------

  lemma {:induction false} RunGrows(k: string, events: seq<Event>, e: Event)
    ensures Run(k, events + [e]) == Next(k, Run(k, events), e)
  {
    assert (events + [e])[..|events|] == events;
  }

  /** The counters of `n` and `m` bytes, read and applied once, and read again. */
  function ReadTwice(email: string, n: nat, m: nat): seq<Event> {
    [PeerAdded] + [Traffic(n, m)] + [Read] + [Apply(email)] + [Read]
  }

  lemma FirstReading(k: string, n: nat, m: nat)
    ensures Run(k, [PeerAdded] + [Traffic(n, m)] + [Read]) ==
            World(map[], Here, Line(n, n, n, 0, 0, 0), Line(m, m, m, 0, 0, 0), Some(Reading(n, m, 0, 0, true)), ZERO)
  {
    var a := [PeerAdded];
    RunGrows(k, [], PeerAdded);
    assert [] + [PeerAdded] == a;
    RunGrows(k, a, Traffic(n, m));
    RunGrows(k, a + [Traffic(n, m)], Read);
  }

  lemma AppliedAndReadAgain(k: string, email: string, n: nat, m: nat, w: World)
    requires w == World(map[], Here, Line(n, n, n, 0, 0, 0), Line(m, m, m, 0, 0, 0),
                        Some(Reading(n, m, 0, 0, true)), ZERO)
    ensures Next(k, Next(k, w, Apply(email)), Read) ==
            World(map[k := Entry(email, Counts(n, m), ZERO, ZERO, false)], Here, Line(n, n, n, n, 0, 0),
                  Line(m, m, m, m, 0, 0), Some(Reading(n, m, n, m, true)), ZERO)
  {
  }

  lemma ReadTwiceLeads(k: string, email: string, n: nat, m: nat)
    ensures Run(k, ReadTwice(email, n, m)) ==
            World(map[k := Entry(email, Counts(n, m), ZERO, ZERO, false)], Here, Line(n, n, n, n, 0, 0),
                  Line(m, m, m, m, 0, 0), Some(Reading(n, m, n, m, true)), ZERO)
  {
    var c := [PeerAdded] + [Traffic(n, m)] + [Read];
    FirstReading(k, n, m);
    RunGrows(k, c, Apply(email));
    RunGrows(k, c + [Apply(email)], Read);
    AppliedAndReadAgain(k, email, n, m, Run(k, c));
  }

  lemma ForgettingLeads(k: string, email: string, n: nat, m: nat, w: World)
    requires w == World(map[k := Entry(email, Counts(n, m), ZERO, ZERO, false)], Here, Line(n, n, n, n, 0, 0),
                        Line(m, m, m, m, 0, 0), Some(Reading(n, m, n, m, true)), ZERO)
    ensures Next(k, Next(k, Next(k, w, KernelRemoved), StatsRemoved), Reset({k})) ==
            World(map[], Gone, Line(0, 0, n, n, 0, 0), Line(0, 0, m, m, 0, 0), Some(Reading(n, m, n, m, false)),
                  Counts(n, m))
  {
  }

  lemma StaleApply(k: string, email: string, n: nat, m: nat, w: World)
    requires w.stats == map[] && w.reading == Some(Reading(n, m, n, m, false)) && w.reported == Counts(n, m)
    ensures PendingOf(Next(k, w, Apply(email)).stats, k) == Counts(n, m)
  {
    var sample := SampleOf(k, email, w.reading.value);
    AfterSampleAt(w.stats, sample, k);
    assert Credit(Known(w.stats, k), sample.Counters()) == Counts(n, m);
  }

  /** A sample read before its peer's removal and applied after the reset that forgot it counts all bytes again. */
  lemma StaleSampleCountsTwice(k: string, email: string, n: nat, m: nat)
    ensures var w := Run(k, ReadTwice(email, n, m) + [KernelRemoved] + [StatsRemoved] + [Reset({k})] + [Apply(email)]);
            w.Carried() == Counts(n, m) && w.reported.Plus(PendingOf(w.stats, k)) == Counts(n + n, m + m)
  {
    var a := ReadTwice(email, n, m);
    var b := a + [KernelRemoved];
    var c := b + [StatsRemoved];
    ReadTwiceLeads(k, email, n, m);
    RunGrows(k, a, KernelRemoved);
    RunGrows(k, b, StatsRemoved);
    RunGrows(k, c, Reset({k}));
    RunGrows(k, c + [Reset({k})], Apply(email));
    ForgettingLeads(k, email, n, m, Run(k, a));
    StaleApply(k, email, n, m, Run(k, c + [Reset({k})]));
  }
}
