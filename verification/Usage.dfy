/** From absolute per-user counters to charged bytes (the accounting in CollectAndEnforce). */
module Usage {
  import opened Base

  /** One row of the core's user statistics. */
  datatype Row = Row(name: string, direction: string, link: string, value: nat)

  /** The rows of a name added up, uplink and downlink together. */
  function Totals(rows: seq<Row>): map<string, nat> {
    if rows == [] then map[]
    else
      var last, before := rows[|rows| - 1], Totals(rows[..|rows| - 1]);
      before[last.name := (if last.name in before then before[last.name] else 0) + last.value]
  }

  /** The growth over the last reading; a smaller total means the core restarted and counts from zero. */
  function Delta(last: Option<nat>, total: nat): (d: nat)
    ensures d <= total
  {
    var l := if last.Some? then last.value else 0;
    if total >= l then total - l else total
  }

  /** A sum over a set, visited in any order. */
  ghost function Sum<T(!new)>(f: T -> int, s: set<T>): int {
    if s == {} then 0 else var x :| x in s; f(x) + Sum(f, s - {x})
  }

  lemma {:induction false} SumTakes<T(!new)>(f: T -> int, s: set<T>, y: T)
    requires y in s
    ensures Sum(f, s) == f(y) + Sum(f, s - {y})
    decreases s
  {
    var x :| x in s && Sum(f, s) == f(x) + Sum(f, s - {x});
    if x != y {
      SumTakes(f, s - {x}, y);
      SumTakes(f, s - {y}, x);
      assert s - {x} - {y} == s - {y} - {x};
    }
  }

  lemma {:induction false} SumNonNegative<T(!new)>(f: T -> int, s: set<T>)
    requires forall x :: x in s ==> f(x) >= 0
    ensures Sum(f, s) >= 0
    decreases s
  {
    if s != {} {
      var x :| x in s && Sum(f, s) == f(x) + Sum(f, s - {x});
      SumNonNegative(f, s - {x});
    }
  }

  lemma {:induction false} SumAgrees<T(!new)>(f: T -> int, g: T -> int, s: set<T>)
    requires forall x :: x in s ==> f(x) == g(x)
    ensures Sum(f, s) == Sum(g, s)
    decreases s
  {
    if s != {} {
      var x :| x in s && Sum(f, s) == f(x) + Sum(f, s - {x});
      SumAgrees(f, g, s - {x});
      SumTakes(g, s, x);
    }
  }

  // ---- what the rows say --------------------------------------------------

  /** The places of a name among the rows. */
  ghost function Places(rows: seq<Row>, name: string): set<int> {
    set i | 0 <= i < |rows| && rows[i].name == name
  }

  ghost function ValueAt(rows: seq<Row>): int -> int {
    i => if 0 <= i < |rows| then rows[i].value else 0
  }

  /** The bytes of a name: the values at all its places. */
  ghost function BytesOf(rows: seq<Row>, name: string): int {
    Sum(ValueAt(rows), Places(rows, name))
  }

  ghost predicate AddsUp(rows: seq<Row>, totals: map<string, nat>) {
    && (forall name :: name in totals <==> exists i :: 0 <= i < |rows| && rows[i].name == name)
    && (forall name :: name in totals ==> totals[name] == BytesOf(rows, name))
  }

  lemma BytesGrow(rows: seq<Row>, name: string)
    requires rows != []
    ensures var init, last := rows[..|rows| - 1], rows[|rows| - 1];
            BytesOf(rows, name) == BytesOf(init, name) + if last.name == name then last.value else 0
  {
    var n := |rows| - 1;
    var init := rows[..n];
    SumAgrees(ValueAt(rows), ValueAt(init), Places(init, name));
    if rows[n].name == name {
      SumTakes(ValueAt(rows), Places(rows, name), n);
      assert Places(rows, name) - {n} == Places(init, name);
    } else {
      assert Places(rows, name) == Places(init, name);
    }
  }

  lemma NoBytes(rows: seq<Row>, name: string)
    requires forall i :: 0 <= i < |rows| ==> rows[i].name != name
    ensures BytesOf(rows, name) == 0
  {
    assert Places(rows, name) == {};
  }

  /** A name has a total exactly if some row carries it, and the total is the sum over all of them. */
  lemma {:induction false} TotalsExactly(rows: seq<Row>)
    ensures AddsUp(rows, Totals(rows))
  {
    if rows != [] {
      var init, last := rows[..|rows| - 1], rows[|rows| - 1];
      TotalsExactly(init);
      assert rows[|rows| - 1] == last && forall i :: 0 <= i < |init| ==> rows[i] == init[i];
      forall name | name in Totals(rows) ensures Totals(rows)[name] == BytesOf(rows, name) {
        BytesGrow(rows, name);
        if name !in Totals(init) {
          NoBytes(init, name);
        }
      }
    }
  }

  // ---- one user's ledger --------------------------------------------------

  datatype Event =
    | Traffic(bytes: nat)
    | CoreRestart
    | Poll
    | Drop      // the user is dropped: its reading is forgotten, the core keeps its counter
    | Add

  /**
   * The core's counter for a user, `accounted` being the part of its present epoch that polls have covered, beside the
   * manager's last reading. What a poll covers is charged or lost, or charged a second time.
   */
  datatype Meter = Meter(counter: nat, accounted: int, carried: int, last: Option<nat>, registered: bool,
                         charged: int, lost: int, recharged: int)

  const START := Meter(0, 0, 0, None, false, 0, 0, 0)

  /** What a poll charges: the delta of a registered user; an unregistered one is read all the same. */
  function PollCharge(m: Meter): int {
    if m.registered then Delta(m.last, m.counter) else 0
  }

  function Next(m: Meter, e: Event): Meter {
    match e
    case Traffic(n) => m.(counter := m.counter + n, carried := m.carried + n)
    case CoreRestart => m.(counter := 0, accounted := 0, lost := m.lost + m.counter - m.accounted)
    case Poll =>
      var covered, charge := m.counter - m.accounted, PollCharge(m);
      m.(last := Some(m.counter), accounted := m.counter, charged := m.charged + charge,
         lost := if charge <= covered then m.lost + covered - charge else m.lost,
         recharged := if charge <= covered then m.recharged else m.recharged + charge - covered)
    case Drop => if m.registered then m.(registered := false, last := None) else m
    case Add => m.(registered := true)
  }

  function Run(events: seq<Event>): Meter {
    if events == [] then START else Next(Run(events[..|events| - 1]), events[|events| - 1])
  }

  /** Every byte carried is charged, lost or not polled yet, but for those charged twice. */
  ghost predicate Sound(m: Meter) {
    && 0 <= m.accounted <= m.counter && 0 <= m.lost && 0 <= m.recharged
    && m.charged + m.lost + m.counter - m.accounted == m.carried + m.recharged
    && (m.accounted > 0 && m.last.Some? ==> m.last.value == m.accounted)
  }

  /** A registered user is polled whose reading in the present epoch was forgotten. */
  predicate Recharges(m: Meter, e: Event) {
    e.Poll? && m.registered && m.last.None? && m.accounted > 0
  }

  /** Every step keeps the books, and only such a poll charges twice: exactly the forgotten reading. */
  lemma StepIsSound(m: Meter, e: Event)
    requires Sound(m)
    ensures Sound(Next(m, e))
    ensures Next(m, e).recharged == m.recharged + if Recharges(m, e) then m.accounted else 0
  {
  }

  /**
   * What a step loses: the unpolled rest at a restart, all that a poll of an unregistered user covers, and the old
   * reading when a poll after a restart finds the counter past it.
   */
  lemma LossesExactly(m: Meter, e: Event)
    requires Sound(m)
    ensures Next(m, e).lost == m.lost +
            match e
            case CoreRestart => m.counter - m.accounted
            case Poll =>
              if !m.registered then m.counter - m.accounted
              else if m.last.Some? && m.accounted == 0 && m.last.value <= m.counter then m.last.value
              else 0
            case _ => 0
  {
  }

  lemma {:induction false} MeterIsExact(events: seq<Event>)
    ensures Sound(Run(events))
  {
    if events != [] {
      MeterIsExact(events[..|events| - 1]);
      StepIsSound(Run(events[..|events| - 1]), events[|events| - 1]);
      assert Run(events) == Next(Run(events[..|events| - 1]), events[|events| - 1]);
    }
  }

  ghost predicate RechargesSomewhere(events: seq<Event>) {
    exists i :: 0 <= i < |events| && Recharges(Run(events[..i]), events[i])
  }

  lemma RechargesGrow(events: seq<Event>)
    requires events != []
    ensures var init := events[..|events| - 1];
            RechargesSomewhere(events) <==> RechargesSomewhere(init) || Recharges(Run(init), events[|events| - 1])
  {
    var init := events[..|events| - 1];
    assert forall i :: 0 <= i < |init| ==> init[..i] == events[..i] && init[i] == events[i];
    if RechargesSomewhere(init) {
      var i :| 0 <= i < |init| && Recharges(Run(init[..i]), init[i]);
      assert Recharges(Run(events[..i]), events[i]);
    }
  }

  /** Bytes are charged twice if and only if some poll finds a reading of the present epoch forgotten. */
  lemma {:induction false} RechargesExactly(events: seq<Event>)
    ensures Run(events).recharged == 0 <==> !RechargesSomewhere(events)
  {
    if events != [] {
      var init, e := events[..|events| - 1], events[|events| - 1];
      RechargesExactly(init);
      MeterIsExact(init);
      StepIsSound(Run(init), e);
      RechargesGrow(events);
      assert Run(events) == Next(Run(init), e);
    }
  }

  /**
   * A user is charged at most what was carried if and only if no more was charged twice than lost or not polled yet.
   */
  lemma OverchargedExactly(events: seq<Event>)
    ensures var m := Run(events); m.charged <= m.carried <==> m.recharged <= m.lost + m.counter - m.accounted
  {
    MeterIsExact(events);
  }

  /** Without a forgotten reading, across any number of core restarts, a user is charged at most what was carried. */
  lemma ChargedAtMostCarried(events: seq<Event>)
    requires !RechargesSomewhere(events)
    ensures Run(events).charged <= Run(events).carried
  {
    RechargesExactly(events);
    MeterIsExact(events);
  }

  /** A re-add that leaves a positive reading of the present epoch forgotten: no poll or restart since the drop. */
  predicate ForgetfulAdd(m: Meter, e: Event) {
    e.Add? && !m.registered && m.last.None? && m.accounted > 0
  }

  ghost predicate Remembers(m: Meter) {
    m.registered ==> m.last.Some? || m.accounted == 0
  }

  lemma CarefulStep(m: Meter, e: Event)
    requires Sound(m) && Remembers(m) && !ForgetfulAdd(m, e)
    ensures Remembers(Next(m, e)) && !Recharges(m, e)
  {
  }

  /** Without such a re-add no poll charges twice. */
  lemma {:induction false} CarefulAddsSuffice(events: seq<Event>)
    requires forall i :: 0 <= i < |events| ==> !ForgetfulAdd(Run(events[..i]), events[i])
    ensures Remembers(Run(events)) && !RechargesSomewhere(events)
  {
    if events != [] {
      var init, e := events[..|events| - 1], events[|events| - 1];
      assert forall i :: 0 <= i < |init| ==> init[..i] == events[..i] && init[i] == events[i];
      CarefulAddsSuffice(init);
      MeterIsExact(init);
      CarefulStep(Run(init), e);
      RechargesGrow(events);
    }
  }

  /** After such a re-add the next poll charges the forgotten reading again. */
  lemma ForgottenReadingChargesAgain(m: Meter)
    requires Sound(m) && ForgetfulAdd(m, Add)
    ensures Next(Next(m, Add), Poll).recharged == m.recharged + m.accounted
    ensures Next(Next(m, Add), Poll).charged == m.charged + m.counter
  {
    StepIsSound(Next(m, Add), Poll);
  }

  /** Dropping and re-adding a polled user at once is such a case. */
  lemma DropAndAddForgets(m: Meter)
    requires Sound(m) && m.registered && m.accounted > 0
    ensures ForgetfulAdd(Next(m, Drop), Add) && Next(m, Drop).accounted == m.accounted
  {
  }
}
