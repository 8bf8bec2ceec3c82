/** Per-peer traffic accounting (pkg/stats/tracker.go). Activity times and endpoints are not part of the model. */
module Trackers {
  import opened Base

  /** A pair of byte counts, received and sent. */
  datatype Counts = Counts(rx: int, tx: int) {
    function Plus(o: Counts): Counts { Counts(rx + o.rx, tx + o.tx) }
    function Minus(o: Counts): Counts { Counts(rx - o.rx, tx - o.tx) }
    predicate AtMost(o: Counts) { rx <= o.rx && tx <= o.tx }
  }

  const ZERO := Counts(0, 0)

  datatype Entry = Entry(email: string, current: Counts, base: Counts, lastDelta: Counts, isDeleted: bool) {
    /** Bytes seen and not reported yet. */
    function Pending(): Counts { current.Minus(base) }

    /** Pending bytes are never negative, and a deleted entry has set its own aside. */
    predicate Sound() {
      && ZERO.AtMost(current) && ZERO.AtMost(Pending())
      && lastDelta == if isDeleted then Pending() else ZERO
    }
  }

  datatype Sample = Sample(publicKey: string, email: string, rx: nat, tx: nat) {
    function Counters(): Counts { Counts(rx, tx) }
  }

  datatype Direction = Uplink | Downlink

  datatype Stat = Stat(name: string, direction: Direction, link: string, value: int)

  type Stats = map<string, Entry>

  ghost predicate SoundStats(stats: Stats) {
    forall k :: k in stats ==> stats[k].Sound()
  }

  function PendingOf(stats: Stats, k: string): Counts {
    if k in stats then stats[k].Pending() else ZERO
  }

  // ---- what each operation means ------------------------------------------

  /** The entry of a key; an unknown key starts from nothing. */
  function Known(stats: Stats, k: string): Entry {
    if k in stats then stats[k] else Entry("", ZERO, ZERO, ZERO, false)
  }

  /**
   * The bytes a sample is credited with: its growth over the last value, and nothing when a counter went back or when
   * a removed key with pending bytes returns.
   */
  function Credit(e: Entry, now: Counts): Counts {
    if (e.isDeleted && e.Pending() != ZERO) || !e.current.AtMost(now) then ZERO
    else now.Minus(e.current)
  }

  /** After a sample the entry is live, stands at the sample, and its pending bytes grew by the credit. */
  function Sampled(e: Entry, s: Sample): Entry {
    var pending := e.Pending().Plus(Credit(e, s.Counters()));
    Entry(s.email, s.Counters(), s.Counters().Minus(pending), ZERO, false)
  }

  function AfterSample(stats: Stats, s: Sample): Stats {
    stats[s.publicKey := Sampled(Known(stats, s.publicKey), s)]
  }

  function AfterSamples(stats: Stats, samples: seq<Sample>): Stats {
    if samples == [] then stats
    else AfterSample(AfterSamples(stats, samples[..|samples| - 1]), samples[|samples| - 1])
  }

  /** A reset leaves nothing pending at the given keys and forgets the deleted ones among them. */
  function AfterReset(stats: Stats, keys: set<string>): Stats {
    map k | k in stats && !(k in keys && stats[k].isDeleted) ::
      if k in keys then stats[k].(base := stats[k].current) else stats[k]
  }

  function Retired(e: Entry): Entry {
    e.(lastDelta := e.Pending(), isDeleted := true)
  }

  function AfterRemove(stats: Stats, keys: set<string>): Stats {
    map k | k in stats :: if k in keys then Retired(stats[k]) else stats[k]
  }

  function AfterCleanup(stats: Stats): Stats {
    map k | k in stats && !(stats[k].isDeleted && stats[k].Pending() == ZERO) :: stats[k]
  }

  // ---- reports ------------------------------------------------------------

  /** What a report says about one key in one direction. */
  function Reported(report: seq<Stat>, link: string, direction: Direction): int {
    if report == [] then 0
    else
      var last := report[|report| - 1];
      Reported(report[..|report| - 1], link, direction) +
      if last.link == link && last.direction == direction then last.value else 0
  }

  function ReportedCounts(report: seq<Stat>, link: string): Counts {
    Counts(Reported(report, link, Downlink), Reported(report, link, Uplink))
  }

  /** A row, if there are bytes. */
  function Row(name: string, direction: Direction, link: string, value: int): seq<Stat> {
    if value > 0 then [Stat(name, direction, link, value)] else []
  }

  /** buildDeltaStats: a row for each direction with bytes. */
  function DeltaStats(name: string, link: string, c: Counts): seq<Stat> {
    if c.rx == 0 && c.tx == 0 then []
    else Row(name, Uplink, link, c.tx) + Row(name, Downlink, link, c.rx)
  }

  /** The rows of a list of keys, in order; a key listed twice has its rows twice. */
  function RowsOf(stats: Stats, keys: seq<string>): seq<Stat> {
    if keys == [] then []
    else
      var key, before := keys[|keys| - 1], RowsOf(stats, keys[..|keys| - 1]);
      if key in stats then before + DeltaStats(stats[key].email, key, stats[key].Pending()) else before
  }

  lemma {:induction false} ReportedSplits(a: seq<Stat>, b: seq<Stat>, link: string, direction: Direction)
    ensures Reported(a + b, link, direction) == Reported(a, link, direction) + Reported(b, link, direction)
  {
    if b == [] {
      assert a + b == a;
    } else {
      assert (a + b)[..|a + b| - 1] == a + b[..|b| - 1];
      ReportedSplits(a, b[..|b| - 1], link, direction);
    }
  }

  lemma ReportedRow(name: string, way: Direction, link: string, value: int, other: string, direction: Direction)
    requires value >= 0
    ensures Reported(Row(name, way, link, value), other, direction) ==
            if other == link && direction == way then value else 0
  {
  }

  /** For pending bytes the rows add up to exactly them. */
  lemma DeltaStatsExact(name: string, link: string, c: Counts, other: string, direction: Direction)
    requires ZERO.AtMost(c)
    ensures Reported(DeltaStats(name, link, c), other, direction) ==
            if other != link then 0 else if direction == Uplink then c.tx else c.rx
  {
    ReportedRow(name, Uplink, link, c.tx, other, direction);
    ReportedRow(name, Downlink, link, c.rx, other, direction);
    ReportedSplits(Row(name, Uplink, link, c.tx), Row(name, Downlink, link, c.rx), other, direction);
  }

  lemma ReportGrows(report: seq<Stat>, name: string, link: string, c: Counts, other: string)
    requires ZERO.AtMost(c)
    ensures ReportedCounts(report + DeltaStats(name, link, c), other) ==
            if other == link then ReportedCounts(report, other).Plus(c) else ReportedCounts(report, other)
  {
    var rows := DeltaStats(name, link, c);
    ReportedSplits(report, rows, other, Uplink);
    ReportedSplits(report, rows, other, Downlink);
    DeltaStatsExact(name, link, c, other, Uplink);
    DeltaStatsExact(name, link, c, other, Downlink);
  }

  lemma SampledIsSound(e: Entry, s: Sample)
    requires e.Sound()
    ensures Sampled(e, s).Sound()
  {
  }

  class Tracker {
    var stats: Stats

    ghost predicate Valid()
      reads this
    {
      SoundStats(stats)
    }

    constructor ()
      ensures Valid() && stats == map[]
    {
      stats := map[];
    }

    /** The update of one entry in applySampleLocked. */
    static method Refresh(known: Entry, sample: Sample) returns (entry: Entry)
      requires known.Sound()
      ensures entry == Sampled(known, sample)
    {
      var rx, tx := sample.rx, sample.tx;
      var base, lastDelta, readded := known.base, known.lastDelta, false;
      if lastDelta.rx != 0 || lastDelta.tx != 0 {
        base := Counts(rx - lastDelta.rx, tx - lastDelta.tx);
        readded := true;
      }
      if known.current.rx == rx && known.current.tx == tx {
        return Entry(sample.email, known.current, base, ZERO, false);
      }
      if !readded && (rx < known.current.rx || tx < known.current.tx) {
        var pendingRx, pendingTx := known.current.rx - known.base.rx, known.current.tx - known.base.tx;
        if pendingRx < 0 {
          pendingRx := 0;
        }
        if pendingTx < 0 {
          pendingTx := 0;
        }
        base := Counts(rx - pendingRx, tx - pendingTx);
      }
      entry := Entry(sample.email, Counts(rx, tx), base, ZERO, false);
    }

    /** applySampleLocked */
    method ApplySample(sample: Sample)
      requires Valid()
      modifies this
      ensures Valid() && stats == AfterSample(old(stats), sample)
    {
      var entry := Refresh(Known(stats, sample.publicKey), sample);
      SampledIsSound(Known(stats, sample.publicKey), sample);
      stats := stats[sample.publicKey := entry];
    }

    method UpdateStatsBatch(samples: seq<Sample>)
      requires Valid()
      modifies this
      ensures Valid() && stats == AfterSamples(old(stats), samples)
    {
      for i := 0 to |samples|
        invariant Valid() && stats == AfterSamples(old(stats), samples[..i])
      {
        assert samples[..i + 1][..i] == samples[..i];
        ApplySample(samples[i]);
      }
      assert samples[..|samples|] == samples;
    }

    /** RemoveStats: the entry stays until its pending bytes are reported. */
    method RemoveStats(publicKey: string)
      requires Valid()
      modifies this
      ensures Valid() && stats == AfterRemove(old(stats), {publicKey})
    {
      if publicKey in stats {
        var entry := stats[publicKey];
        stats := stats[publicKey := entry.(lastDelta := entry.current.Minus(entry.base), isDeleted := true)];
      }
    }

    method CleanupDeletedEntries()
      requires Valid()
      modifies this
      ensures Valid() && stats == AfterCleanup(old(stats))
      ensures forall k :: k in stats <==>
                k in old(stats) && !(old(stats)[k].isDeleted && old(stats)[k].current == old(stats)[k].base)
      ensures forall k :: k in stats ==> stats[k] == old(stats)[k]
    {
      var order := Enumerate(stats.Keys);
      for i := 0 to |order|
        invariant forall k :: k in stats ==> k in old(stats) && stats[k] == old(stats)[k]
        invariant forall k :: k in old(stats) ==> (k in stats <==> k !in order[..i] || k in AfterCleanup(old(stats)))
      {
        var key := order[i];
        assert key in Elements(order) && key !in order[..i];
        var entry := stats[key];
        if entry.isDeleted && entry.current.rx == entry.base.rx && entry.current.tx == entry.base.tx {
          stats := stats - {key};
        }
      }
      assert forall k :: k in Elements(order) <==> k in old(stats);
    }

    /** One turn of a stats loop for an existing entry. */
    method Report(key: string, reset: bool) returns (rows: seq<Stat>)
      requires Valid() && key in stats
      modifies this
      ensures Valid() && stats == if reset then AfterReset(old(stats), {key}) else old(stats)
      ensures rows == DeltaStats(old(stats)[key].email, key, PendingOf(old(stats), key))
    {
      var entry := stats[key];
      rows := DeltaStats(entry.email, key, entry.current.Minus(entry.base));
      if reset {
        stats := stats[key := entry.(base := entry.current)];
        if entry.isDeleted {
          stats := stats - {key};
        }
      }
    }

    /** With reset, each listed key is reported once however often it is listed. */
    method GetStats(keys: seq<string>, reset: bool) returns (report: seq<Stat>)
      requires Valid()
      modifies this
      ensures Valid() && stats == if reset then AfterReset(old(stats), Elements(keys)) else old(stats)
      ensures reset || NoDuplicates(keys) ==> Reports(report, old(stats), Elements(keys))
      ensures !reset ==> report == RowsOf(stats, keys)
    {
      report := [];
      for i := 0 to |keys|
        invariant Valid() && stats == if reset then AfterReset(old(stats), Elements(keys[..i])) else old(stats)
        invariant reset || NoDuplicates(keys) ==> Reports(report, old(stats), Elements(keys[..i]))
        invariant !reset ==> report == RowsOf(stats, keys[..i])
      {
        var key := keys[i];
        assert keys[..i + 1][..i] == keys[..i];
        ghost var done := Elements(keys[..i]);
        assert Elements(keys[..i + 1]) == done + {key};
        ResetTwice(old(stats), done, key);
        if reset || NoDuplicates(keys) {
          ReportsGrow(report, old(stats), done, key, stats);
        }
        if key in stats {
          var rows := Report(key, reset);
          report := report + rows;
        }
      }
      assert keys[..|keys|] == keys;
    }

    /** All users, visited in any order. */
    method GetUsersStats(reset: bool) returns (report: seq<Stat>)
      requires Valid()
      modifies this
      ensures Valid() && stats == if reset then AfterReset(old(stats), old(stats).Keys) else old(stats)
      ensures Reports(report, old(stats), old(stats).Keys)
    {
      var order := Enumerate(stats.Keys);
      report := GetStats(order, reset);
    }
  }

  /** A report of exactly the pending bytes of some keys. */
  ghost predicate Reports(report: seq<Stat>, stats: Stats, keys: set<string>) {
    forall k :: ReportedCounts(report, k) == if k in keys then PendingOf(stats, k) else ZERO
  }

  lemma ReportsGrow(report: seq<Stat>, before: Stats, done: set<string>, key: string, now: Stats)
    requires SoundStats(before) && Reports(report, before, done)
    requires now == AfterReset(before, done) || (now == before && key !in done)
    ensures key !in now ==> Reports(report, before, done + {key})
    ensures key in now ==> Reports(report + DeltaStats(now[key].email, key, PendingOf(now, key)), before, done + {key})
  {
    assert PendingOf(now, key) == if key in done then ZERO else PendingOf(before, key);
    if key in now {
      var rows := DeltaStats(now[key].email, key, PendingOf(now, key));
      forall k ensures ReportedCounts(report + rows, k) == if k in done + {key} then PendingOf(before, k) else ZERO {
        ReportGrows(report, now[key].email, key, PendingOf(now, key), k);
        assert ReportedCounts(report, k) == if k in done then PendingOf(before, k) else ZERO;
      }
    }
  }

  lemma ResetTwice(stats: Stats, keys: set<string>, key: string)
    ensures AfterReset(AfterReset(stats, keys), {key}) == AfterReset(stats, keys + {key})
  {
  }
}
