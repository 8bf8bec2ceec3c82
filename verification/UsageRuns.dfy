/** The manager's charges over whole runs, email by email, beside the core's counters. */
module UsageRuns {
  import opened Base
  import opened SharedState
  import opened SharedRuns
  import opened Usage

  /** What happens to the core's counter for an email after an operation: a restart of the core or not, then traffic. */
  datatype Aftermath = Aftermath(restart: bool, bytes: nat)

  /** The events of one operation for an email: a poll that reads it, a drop or an add, and the aftermath. */
  function Advance(m: Meter, reading: Option<nat>, registered: bool, then': Aftermath): Meter {
    var polled := if reading.Some? then Next(m, Poll) else m;
    var filed := if registered then Next(polled, Add) else Next(polled, Drop);
    var lasting := if then'.restart then Next(filed, CoreRestart) else filed;
    Next(lasting, Traffic(then'.bytes))
  }

  ghost function MeterAt(ops: seq<Op>, states: seq<State>, after: seq<Aftermath>, e: string, n: nat): Meter
    requires |states| == |ops| + 1 && |after| == |ops| && n <= |ops|
  {
    if n == 0 then START
    else
      Advance(MeterAt(ops, states, after, e, n - 1), Reading(states[n - 1], ops[n - 1], e), e in states[n].emailTo,
              after[n - 1])
  }

  /** A run beside the core's counters: every poll that reads the email reads its counter. */
  ghost predicate Metered(ops: seq<Op>, states: seq<State>, after: seq<Aftermath>, e: string) {
    && IsRun(ops, states) && |after| == |ops|
    && forall i :: 0 <= i < |ops| && Reading(states[i], ops[i], e).Some? ==>
         Reading(states[i], ops[i], e).value == MeterAt(ops, states, after, e, i).counter
  }

  /** What an operation charges for the email, to the tenant it is registered with. */
  function EmailCharge(s: State, op: Op, e: string): int {
    var r := Reading(s, op, e);
    if e in s.emailTo && r.Some? then Delta(Lookup(s.lastSeen, e), r.value) else 0
  }

  /** It is the email's part of the tenant's charge. */
  lemma ChargeIsOfEmails(s: State, op: Op, e: string)
    requires op.Collect? && s.core.Some? && op.rows.Some? && e in s.emailTo
    ensures e in Totals(op.rows.value) ==>
              e in Polled(s, Totals(op.rows.value), s.emailTo[e]) &&
              EmailDelta(s, Totals(op.rows.value))(e) == EmailCharge(s, op, e)
    ensures e !in Totals(op.rows.value) ==> EmailCharge(s, op, e) == 0
  {
  }

  function ChargedTo(ops: seq<Op>, states: seq<State>, e: string, n: nat): int
    requires |states| == |ops| + 1 && n <= |ops|
  {
    if n == 0 then 0 else ChargedTo(ops, states, e, n - 1) + EmailCharge(states[n - 1], ops[n - 1], e)
  }

  /** The meter knows the manager's reading and registration. */
  ghost predicate Matches(m: Meter, s: State, e: string) {
    m.last == Lookup(s.lastSeen, e) && (m.registered <==> e in s.emailTo)
  }

  lemma AdvanceMatches(m: Meter, s: State, op: Op, s': State, e: string, then': Aftermath)
    requires Inverse(s) && Step(s, op, s') && Matches(m, s, e)
    requires Reading(s, op, e).Some? ==> Reading(s, op, e).value == m.counter
    requires op.Collect? ==> s'.emailTo == s.emailTo
    ensures Matches(Advance(m, Reading(s, op, e), e in s'.emailTo, then'), s', e)
    ensures Advance(m, Reading(s, op, e), e in s'.emailTo, then').charged == m.charged + EmailCharge(s, op, e)
  {
    ReadingsMoveByPolls(s, op, s', e);
  }

  lemma CollectKeepsEmails(s: State, op: Op, s': State)
    requires op.Collect? && Step(s, op, s')
    ensures s'.emailTo == s.emailTo
  {
    if s.core.Some? {
      var mid :| Accounted(s, op.rows, mid) && EnforceDone(mid, op.now, s');
    }
  }

  lemma AdvanceIsSound(m: Meter, reading: Option<nat>, registered: bool, then': Aftermath)
    requires Sound(m)
    ensures Sound(Advance(m, reading, registered, then'))
    ensures Advance(m, reading, registered, then').recharged ==
            m.recharged + if reading.Some? && Recharges(m, Poll) then m.accounted else 0
  {
    var polled := if reading.Some? then Next(m, Poll) else m;
    var filed := if registered then Next(polled, Add) else Next(polled, Drop);
    var lasting := if then'.restart then Next(filed, CoreRestart) else filed;
    StepIsSound(m, Poll);
    StepIsSound(polled, if registered then Add else Drop);
    StepIsSound(filed, CoreRestart);
    StepIsSound(lasting, Traffic(then'.bytes));
  }

  /**
   * Over every run, for every email: the charges made for it are those of its meter, so what it was charged and what
   * was lost or not polled yet add up to the bytes carried and the readings forgotten and charged again.
   */
  lemma {:induction false} RunCharges(ops: seq<Op>, states: seq<State>, after: seq<Aftermath>, e: string, n: nat)
    requires Metered(ops, states, after, e) && n <= |ops|
    ensures var m := MeterAt(ops, states, after, e, n);
            Matches(m, states[n], e) && Sound(m) && m.charged == ChargedTo(ops, states, e, n)
  {
    if n > 0 {
      var m, s, op, s' := MeterAt(ops, states, after, e, n - 1), states[n - 1], ops[n - 1], states[n - 1 + 1];
      RunCharges(ops, states, after, e, n - 1);
      RunsKeepInvariant(ops, states, n - 1);
      if op.Collect? {
        CollectKeepsEmails(s, op, s');
      }
      AdvanceMatches(m, s, op, s', e, after[n - 1]);
      AdvanceIsSound(m, Reading(s, op, e), e in s'.emailTo, after[n - 1]);
    }
  }

  /** A poll reads a registered email whose reading in the core's present epoch the manager forgot. */
  ghost predicate PollsForgotten(ops: seq<Op>, states: seq<State>, after: seq<Aftermath>, e: string, i: nat)
    requires |states| == |ops| + 1 && |after| == |ops| && i < |ops|
  {
    && Reading(states[i], ops[i], e).Some? && e in states[i].emailTo && e !in states[i].lastSeen
    && MeterAt(ops, states, after, e, i).accounted > 0
  }

  lemma PollsForgottenExactly(ops: seq<Op>, states: seq<State>, after: seq<Aftermath>, e: string, i: nat)
    requires Metered(ops, states, after, e) && i < |ops|
    ensures var m := MeterAt(ops, states, after, e, i);
            PollsForgotten(ops, states, after, e, i) <==>
            Reading(states[i], ops[i], e).Some? && Recharges(m, Poll) && m.accounted > 0
  {
    RunCharges(ops, states, after, e, i);
  }

  lemma RechargedNext(ops: seq<Op>, states: seq<State>, after: seq<Aftermath>, e: string, i: nat)
    requires Metered(ops, states, after, e) && i < |ops|
    ensures MeterAt(ops, states, after, e, i + 1).recharged == 0 <==>
            MeterAt(ops, states, after, e, i).recharged == 0 && !PollsForgotten(ops, states, after, e, i)
  {
    RunCharges(ops, states, after, e, i);
    PollsForgottenExactly(ops, states, after, e, i);
    AdvanceIsSound(MeterAt(ops, states, after, e, i), Reading(states[i], ops[i], e), e in states[i + 1].emailTo,
                   after[i]);
  }

  /** Some poll of the run's first `n` operations is of that kind. */
  ghost predicate EverForgets(ops: seq<Op>, states: seq<State>, after: seq<Aftermath>, e: string, n: nat)
    requires |states| == |ops| + 1 && |after| == |ops| && n <= |ops|
  {
    exists i :: 0 <= i < n && PollsForgotten(ops, states, after, e, i)
  }

  /** One operation charges something twice exactly if it is of that kind. */
  ghost predicate RechargesBy(ops: seq<Op>, states: seq<State>, after: seq<Aftermath>, e: string, i: nat)
    requires |states| == |ops| + 1 && |after| == |ops| && i < |ops|
  {
    MeterAt(ops, states, after, e, i + 1).recharged == 0 <==>
    MeterAt(ops, states, after, e, i).recharged == 0 && !PollsForgotten(ops, states, after, e, i)
  }

  lemma {:induction false} RechargesAddUp(ops: seq<Op>, states: seq<State>, after: seq<Aftermath>, e: string, n: nat)
    requires |states| == |ops| + 1 && |after| == |ops| && n <= |ops|
    requires forall i :: 0 <= i < n ==> RechargesBy(ops, states, after, e, i)
    ensures MeterAt(ops, states, after, e, n).recharged == 0 <==> !EverForgets(ops, states, after, e, n)
  {
    if n > 0 {
      RechargesAddUp(ops, states, after, e, n - 1);
      assert RechargesBy(ops, states, after, e, n - 1);
    }
  }

  /** Over every run something is charged twice if and only if some poll is of that kind. */
  lemma RunRechargesExactly(ops: seq<Op>, states: seq<State>, after: seq<Aftermath>, e: string, n: nat)
    requires Metered(ops, states, after, e) && n <= |ops|
    ensures MeterAt(ops, states, after, e, n).recharged == 0 <==> !EverForgets(ops, states, after, e, n)
  {
    forall i | 0 <= i < n
      ensures RechargesBy(ops, states, after, e, i)
    {
      RechargedNext(ops, states, after, e, i);
    }
    RechargesAddUp(ops, states, after, e, n);
  }

  /**
   * Over every run an email is charged within the bytes carried if and only if no more was charged twice than lost or
   * unpolled.
   */
  lemma RunOverchargesExactly(ops: seq<Op>, states: seq<State>, after: seq<Aftermath>, e: string, n: nat)
    requires Metered(ops, states, after, e) && n <= |ops|
    ensures var m := MeterAt(ops, states, after, e, n);
            ChargedTo(ops, states, e, n) <= m.carried <==> m.recharged <= m.lost + m.counter - m.accounted
  {
    RunCharges(ops, states, after, e, n);
  }

  // ---- a user who stays ---------------------------------------------------

  /** Once registered the email stays registered. */
  ghost predicate Stays(states: seq<State>, e: string, n: nat) {
    forall i :: 0 <= i < n && i + 1 < |states| && e in states[i].emailTo ==> e in states[i + 1].emailTo
  }

  lemma AdvanceRemembers(m: Meter, reading: Option<nat>, registered: bool, then': Aftermath)
    requires Sound(m) && (m.last.Some? || m.accounted == 0) && (m.registered ==> registered)
    ensures var m' := Advance(m, reading, registered, then');
            (m'.last.Some? || m'.accounted == 0) && m'.recharged == m.recharged
  {
    AdvanceIsSound(m, reading, registered, then');
  }

  lemma {:induction false} StayingIsNeverRecharged(ops: seq<Op>, states: seq<State>, after: seq<Aftermath>, e: string,
                                                   n: nat)
    requires Metered(ops, states, after, e) && n <= |ops| && Stays(states, e, n)
    ensures var m := MeterAt(ops, states, after, e, n); (m.last.Some? || m.accounted == 0) && m.recharged == 0
  {
    if n > 0 {
      var m := MeterAt(ops, states, after, e, n - 1);
      StayingIsNeverRecharged(ops, states, after, e, n - 1);
      RunCharges(ops, states, after, e, n - 1);
      assert e in states[n - 1].emailTo ==> e in states[n - 1 + 1].emailTo;
      AdvanceRemembers(m, Reading(states[n - 1], ops[n - 1], e), e in states[n].emailTo, after[n - 1]);
    }
  }

  /**
   * Over every run, across any number of core restarts, an email that is never dropped is charged at most the bytes it
   * carried.
   */
  lemma StayingIsNeverOvercharged(ops: seq<Op>, states: seq<State>, after: seq<Aftermath>, e: string, n: nat)
    requires Metered(ops, states, after, e) && n <= |ops| && Stays(states, e, n)
    ensures ChargedTo(ops, states, e, n) <= MeterAt(ops, states, after, e, n).carried
  {
    RunCharges(ops, states, after, e, n);
    StayingIsNeverRecharged(ops, states, after, e, n);
  }

  lemma AdvanceTelescopes(m: Meter, reading: Option<nat>, then': Aftermath)
    requires Sound(m) && m.registered && m.last == Some(m.accounted) && !then'.restart
    ensures var m' := Advance(m, reading, true, then');
            m'.registered && m'.last == Some(m'.accounted) && m'.charged - m.charged == m'.accounted - m.accounted
  {
  }

  /** The meter stands at the manager's reading. */
  ghost predicate AtReading(m: Meter) {
    m.registered && m.last == Some(m.accounted)
  }

  /** Registered and without a restart of the core from `lo` to `n`. */
  ghost predicate Undisturbed(states: seq<State>, after: seq<Aftermath>, e: string, lo: nat, n: nat) {
    && lo <= n <= |after| && |states| == |after| + 1
    && (forall i :: lo <= i <= n ==> e in states[i].emailTo)
    && (forall i :: lo <= i < n ==> !after[i].restart)
  }

  lemma TelescopesOnce(ops: seq<Op>, states: seq<State>, after: seq<Aftermath>, e: string, i: nat)
    requires Metered(ops, states, after, e) && i < |ops| && e in states[i + 1].emailTo && !after[i].restart
    requires AtReading(MeterAt(ops, states, after, e, i))
    ensures var m, m' := MeterAt(ops, states, after, e, i), MeterAt(ops, states, after, e, i + 1);
            AtReading(m') && m'.charged - m.charged == m'.accounted - m.accounted
  {
    RunCharges(ops, states, after, e, i);
    AdvanceTelescopes(MeterAt(ops, states, after, e, i), Reading(states[i], ops[i], e), after[i]);
  }

  lemma {:induction false} MeterTelescopes(ops: seq<Op>, states: seq<State>, after: seq<Aftermath>, e: string, lo: nat,
                                           n: nat)
    requires Metered(ops, states, after, e) && Undisturbed(states, after, e, lo, n)
    requires AtReading(MeterAt(ops, states, after, e, lo))
    ensures var m, m' := MeterAt(ops, states, after, e, lo), MeterAt(ops, states, after, e, n);
            AtReading(m') && m'.charged - m.charged == m'.accounted - m.accounted
  {
    if n > lo {
      MeterTelescopes(ops, states, after, e, lo, n - 1);
      assert e in states[n].emailTo;
      TelescopesOnce(ops, states, after, e, n - 1);
    }
  }

  /** Between core restarts a registered email's charges add up to the growth of its readings. */
  lemma ChargesTelescope(ops: seq<Op>, states: seq<State>, after: seq<Aftermath>, e: string, lo: nat, n: nat)
    requires Metered(ops, states, after, e) && Undisturbed(states, after, e, lo, n)
    requires AtReading(MeterAt(ops, states, after, e, lo))
    ensures e in states[lo].lastSeen && e in states[n].lastSeen
    ensures ChargedTo(ops, states, e, n) + states[lo].lastSeen[e] ==
            ChargedTo(ops, states, e, lo) + states[n].lastSeen[e]
  {
    MeterTelescopes(ops, states, after, e, lo, n);
    RunCharges(ops, states, after, e, lo);
    RunCharges(ops, states, after, e, n);
  }
}
