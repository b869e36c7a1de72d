/**
 Waiting for the gateway container to become healthy (`wait_for_gateway_ready` and `drain_logs` in
 crates/clustershell-bootstrap/src/runtime.rs). The log channel and the daemon are a `World`: what
 each poll finds in the channel, and what each inspection answers.
 */
module Readiness {
  import opened Text

  const WINDOW := 15
  const ATTEMPTS := 180
  const DNS_GRACE := 5
  const PRESSURE_GRACE := 8

  const DNS_PROBE := "DNS_PROBE_FAILED"
  const DNS_HEALTHCHECK := "HEALTHCHECK_DNS_FAILURE"
  const NODE_PRESSURE := "HEALTHCHECK_NODE_PRESSURE"
  const MISSING_SUPERVISOR := "HEALTHCHECK_MISSING_SUPERVISOR"

  /** `NoHealthCheck` stands for the statuses NONE and EMPTY and for a missing status. */
  datatype Health = Starting | Healthy | Unhealthy | NoHealthCheck

  datatype Inspection = InspectError | Inspected(running: bool, health: Health)

  /** Lines waiting at each poll, the answer to each inspection, and lines that come after the loop. */
  datatype World = World(batch: nat -> seq<string>, reply: nat -> Inspection, late: seq<string>)

  datatype Verdict =
    | Ready
    | DnsAbort
    | PressureAbort
    | SupervisorMissing
    | InspectFailed
    | Exited
    | StillUnhealthy
    | HealthCheckMissing
    | TimedOut

  // -------------------------------------------------------------------- the log window

  function LastLines(lines: seq<string>): seq<string> {
    if |lines| <= WINDOW then lines else lines[|lines| - WINDOW..]
  }

  class LogWindow {
    var recent: seq<string>
    /** The lines passed on to the log callback. */
    var forwarded: seq<string>

    constructor ()
      ensures recent == [] && forwarded == []
    {
      recent, forwarded := [], [];
    }

    method Drain(batch: seq<string>)
      requires |recent| <= WINDOW
      modifies this
      ensures recent == LastLines(old(recent) + batch) && forwarded == old(forwarded) + batch
    {
      ghost var before := recent;
      assert before + batch[..0] == before;
      for i := 0 to |batch|
        invariant recent == LastLines(before + batch[..i])
        invariant forwarded == old(forwarded) + batch[..i]
      {
        assert before + batch[..i + 1] == before + batch[..i] + [batch[i]];
        assert batch[..i + 1] == batch[..i] + [batch[i]];
        PushLine(before + batch[..i], batch[i]);
        if |recent| == WINDOW {
          recent := recent[1..];
        }
        recent := recent + [batch[i]];
        forwarded := forwarded + [batch[i]];
      }
      assert batch[..|batch|] == batch;
    }
  }

  /** Dropping the oldest line of a full window before adding one keeps exactly the last lines. */
  lemma PushLine(lines: seq<string>, line: string)
    ensures LastLines(lines + [line]) ==
            (if |LastLines(lines)| == WINDOW then LastLines(lines)[1..] else LastLines(lines)) + [line]
  {}

  // ------------------------------------------------------- what has been seen, poll by poll

  /** Everything received up to and including poll `k`. */
  ghost function Received(w: World, k: nat): seq<string> {
    (if k == 0 then [] else Received(w, k - 1)) + w.batch(k)
  }

  /** The window that poll `k` looks at: the last lines received so far. */
  ghost function WindowAt(w: World, k: nat): seq<string> {
    LastLines(Received(w, k))
  }

  predicate AnyContains(lines: seq<string>, marker: string) {
    exists i | 0 <= i < |lines| :: Contains(lines[i], marker)
  }

  predicate ShowsDns(lines: seq<string>) {
    AnyContains(lines, DNS_PROBE) || AnyContains(lines, DNS_HEALTHCHECK)
  }

  /** What each poll sees: which markers are in its window, and what the inspection answers. */
  datatype View = View(dns: nat -> bool, pressure: nat -> bool, missing: nat -> bool, reply: nat -> Inspection)

  ghost function ViewOf(w: World): View {
    View((k: nat) => ShowsDns(WindowAt(w, k)),
         (k: nat) => AnyContains(WindowAt(w, k), NODE_PRESSURE),
         (k: nat) => AnyContains(WindowAt(w, k), MISSING_SUPERVISOR),
         w.reply)
  }

  /** Some line of the window has the marker in it. */
  ghost predicate Shows(lines: seq<string>, marker: string) {
    exists line :: line in lines && HasText(line, marker)
  }

  lemma AnyContainsMeaning(lines: seq<string>, marker: string)
    ensures AnyContains(lines, marker) <==> Shows(lines, marker)
  {
    if i :| 0 <= i < |lines| && Contains(lines[i], marker) {
      ContainsMeaning(lines[i], marker);
      assert lines[i] in lines;
    }
    if line :| line in lines && HasText(line, marker) {
      ContainsMeaning(line, marker);
    }
  }

  /** What poll `k` sees in the lines received so far. */
  lemma MarkersMeaning(w: World, k: nat)
    ensures ViewOf(w).dns(k) <==>
            Shows(WindowAt(w, k), "DNS_PROBE_FAILED") || Shows(WindowAt(w, k), "HEALTHCHECK_DNS_FAILURE")
    ensures ViewOf(w).pressure(k) <==> Shows(WindowAt(w, k), "HEALTHCHECK_NODE_PRESSURE")
    ensures ViewOf(w).missing(k) <==> Shows(WindowAt(w, k), "HEALTHCHECK_MISSING_SUPERVISOR")
    ensures ViewOf(w).reply(k) == w.reply(k)
  {
    AnyContainsMeaning(WindowAt(w, k), DNS_PROBE);
    AnyContainsMeaning(WindowAt(w, k), DNS_HEALTHCHECK);
    AnyContainsMeaning(WindowAt(w, k), NODE_PRESSURE);
    AnyContainsMeaning(WindowAt(w, k), MISSING_SUPERVISOR);
  }

  /** How many polls in a row, ending with poll `k`, have seen the marker. */
  ghost function Streak(seen: nat -> bool, k: nat): nat {
    if !seen(k) then 0 else if k == 0 then 1 else Streak(seen, k - 1) + 1
  }

  /** The streak is the length of the current unbroken run: it is all marked, and it is maximal. */
  lemma {:induction false} StreakIsUnbrokenRun(seen: nat -> bool, k: nat)
    ensures Streak(seen, k) <= k + 1
    ensures forall j | k - Streak(seen, k) < j <= k :: seen(j)
    ensures Streak(seen, k) <= k ==> !seen(k - Streak(seen, k))
  {
    if seen(k) && k > 0 {
      StreakIsUnbrokenRun(seen, k - 1);
    }
  }

  /** The window holds all lines, or the last fifteen of more. */
  lemma LastLinesMeaning(lines: seq<string>)
    ensures |lines| <= 15 ==> LastLines(lines) == lines
    ensures |lines| > 15 ==> |LastLines(lines)| == 15 && exists older :: lines == older + LastLines(lines)
  {
    if |lines| > 15 {
      assert lines == lines[..|lines| - 15] + LastLines(lines);
    }
  }

  lemma LastLinesCompose(a: seq<string>, b: seq<string>)
    ensures LastLines(LastLines(a) + b) == LastLines(a + b)
  {}

  // ------------------------------------------------------------------ what each poll decides

  /** The decision of poll `k`, if it makes one: the checks in the order in which they are made. */
  ghost function Decision(v: View, k: nat): Option<Verdict> {
    if Streak(v.dns, k) >= DNS_GRACE then Some(DnsAbort)
    else if Streak(v.pressure, k) >= PRESSURE_GRACE then Some(PressureAbort)
    else if v.missing(k) then Some(SupervisorMissing)
    else AfterInspection(v.reply(k), k)
  }

  function AfterInspection(reply: Inspection, k: nat): Option<Verdict> {
    match reply
    case InspectError => Some(InspectFailed)
    case Inspected(false, _) => Some(Exited)
    case Inspected(true, Healthy) => Some(Ready)
    case Inspected(true, Unhealthy) => if k + 1 == ATTEMPTS then Some(StillUnhealthy) else None
    case Inspected(true, NoHealthCheck) => if k == 0 then Some(HealthCheckMissing) else None
    case Inspected(true, Starting) => None
  }

  /** None of the first `k` polls decides. */
  ghost predicate Undecided(v: View, k: nat) {
    forall j: nat | j < k :: Decision(v, j).None?
  }

  /** Poll `k` takes place: none before it has decided. */
  ghost predicate Reached(v: View, k: nat) {
    k < ATTEMPTS && Undecided(v, k)
  }

  /** Poll `k` is the first to decide. */
  ghost predicate DecidedAt(v: View, k: nat) {
    Reached(v, k) && Decision(v, k).Some?
  }

  /** The result of the loop as a function of the world. */
  ghost predicate IsOutcome(v: View, verdict: Verdict) {
    || (verdict == TimedOut && Undecided(v, ATTEMPTS))
    || exists k :: DecidedAt(v, k) && verdict == Decision(v, k).value
  }

  lemma UndecidedNext(v: View, k: nat)
    requires Undecided(v, k) && Decision(v, k).None?
    ensures Undecided(v, k + 1)
  {}

  // --------------------------------------------------------------------------- the loop

  /** One poll: drains, counts and checks, in the order of the code. */
  method PollOnce(w: World, k: nat, window: LogWindow, dns: nat, pressure: nat)
    returns (dns': nat, pressure': nat, verdict: Option<Verdict>, inspected: bool)
    requires window.recent == if k == 0 then [] else WindowAt(w, k - 1)
    requires dns == if k == 0 then 0 else Streak(ViewOf(w).dns, k - 1)
    requires pressure == if k == 0 then 0 else Streak(ViewOf(w).pressure, k - 1)
    modifies window
    ensures window.recent == WindowAt(w, k)
    ensures window.forwarded == old(window.forwarded) + w.batch(k)
    ensures dns' == Streak(ViewOf(w).dns, k)
    ensures verdict.None? ==> pressure' == Streak(ViewOf(w).pressure, k)
    ensures verdict == Decision(ViewOf(w), k)
  {
    if k > 0 {
      LastLinesCompose(Received(w, k - 1), w.batch(k));
    }
    window.Drain(w.batch(k));
    assert window.recent == WindowAt(w, k);
    dns', pressure', inspected := dns, pressure, false;
    assert ViewOf(w).dns(k) == ShowsDns(window.recent);
    assert ViewOf(w).pressure(k) == AnyContains(window.recent, NODE_PRESSURE);
    assert ViewOf(w).missing(k) == AnyContains(window.recent, MISSING_SUPERVISOR);
    if ShowsDns(window.recent) {
      dns' := dns + 1;
      if dns' >= DNS_GRACE {
        return dns', pressure', Some(DnsAbort), false;
      }
    } else {
      dns' := 0;
    }
    if AnyContains(window.recent, NODE_PRESSURE) {
      pressure' := pressure + 1;
      if pressure' >= PRESSURE_GRACE {
        return dns', pressure', Some(PressureAbort), false;
      }
    } else {
      pressure' := 0;
    }
    if AnyContains(window.recent, MISSING_SUPERVISOR) {
      return dns', pressure', Some(SupervisorMissing), false;
    }
    inspected := true;
    verdict := AfterInspection(w.reply(k), k);
  }

  /** What is left in the channel when polling has ended. */
  method DrainLate(window: LogWindow, late: seq<string>)
    requires window.recent == LastLines(window.forwarded)
    modifies window
    ensures window.recent == LastLines(window.forwarded) && window.forwarded == old(window.forwarded) + late
  {
    LastLinesCompose(window.forwarded, late);
    window.Drain(late);
  }

  /** Before poll `k`: none has decided, and window and counters are up to date. */
  ghost predicate Before(w: World, k: nat, recent: seq<string>, forwarded: seq<string>, dns: nat, pressure: nat) {
    && Undecided(ViewOf(w), k)
    && forwarded == (if k == 0 then [] else Received(w, k - 1))
    && recent == (if k == 0 then [] else WindowAt(w, k - 1))
    && dns == (if k == 0 then 0 else Streak(ViewOf(w).dns, k - 1))
    && pressure == (if k == 0 then 0 else Streak(ViewOf(w).pressure, k - 1))
  }

  lemma BeforeMeans(w: World, k: nat, recent: seq<string>, forwarded: seq<string>, dns: nat, pressure: nat)
    requires Before(w, k, recent, forwarded, dns, pressure)
    ensures recent == LastLines(forwarded)
    ensures k == ATTEMPTS ==> IsOutcome(ViewOf(w), TimedOut)
  {}

  method PollNext(w: World, k: nat, window: LogWindow, dns: nat, pressure: nat)
    returns (dns': nat, pressure': nat, verdict: Option<Verdict>, inspected: bool)
    requires k < ATTEMPTS && Before(w, k, window.recent, window.forwarded, dns, pressure)
    modifies window
    ensures verdict.None? ==> Before(w, k + 1, window.recent, window.forwarded, dns', pressure')
    ensures verdict.Some? ==> IsOutcome(ViewOf(w), verdict.value) && window.recent == LastLines(window.forwarded)
    ensures window.forwarded == Received(w, k)
  {
    dns', pressure', verdict, inspected := PollOnce(w, k, window, dns, pressure);
    if verdict.Some? {
      assert DecidedAt(ViewOf(w), k);
    } else {
      UndecidedNext(ViewOf(w), k);
    }
  }

  /** Polls until one decides, at most 180 times. `last` is the last poll made. */
  method PollUntilDecided(w: World, window: LogWindow) returns (verdict: Verdict, inspections: nat, ghost last: nat)
    requires window.recent == [] && window.forwarded == []
    modifies window
    ensures IsOutcome(ViewOf(w), verdict)
    ensures inspections <= 180 && last < 180
    ensures window.recent == LastLines(window.forwarded) && window.forwarded == Received(w, last)
  {
    inspections, last := 0, 0;
    var dns, pressure := 0, 0;
    for k := 0 to ATTEMPTS
      invariant inspections <= k
      invariant k > 0 ==> last == k - 1
      invariant Before(w, k, window.recent, window.forwarded, dns, pressure)
    {
      var decided, inspected;
      dns, pressure, decided, inspected := PollNext(w, k, window, dns, pressure);
      last := k;
      if inspected {
        inspections := inspections + 1;
      }
      if decided.Some? {
        return decided.value, inspections, last;
      }
    }
    BeforeMeans(w, ATTEMPTS, window.recent, window.forwarded, dns, pressure);
    verdict := TimedOut;
  }

  /**
   The verdict is that of the replies and markers; every line received is passed on in order, those
   that come late only when the container has exited or time is up; the window is the last of them.
   */
  method WaitForGatewayReady(w: World, window: LogWindow)
    returns (verdict: Verdict, inspections: nat, ghost last: nat)
    requires window.recent == [] && window.forwarded == []
    modifies window
    ensures IsOutcome(ViewOf(w), verdict)
    ensures inspections <= 180 && last < 180
    ensures window.recent == LastLines(window.forwarded)
    ensures window.forwarded ==
            if verdict.TimedOut? || verdict.Exited? then Received(w, last) + w.late else Received(w, last)
  {
    verdict, inspections, last := PollUntilDecided(w, window);
    if verdict == TimedOut || verdict == Exited {
      DrainLate(window, w.late);
    }
  }

  // ------------------------------------------------------------------- what verdicts mean

  lemma OutcomeIsUnique(v: View, a: Verdict, b: Verdict)
    requires IsOutcome(v, a) && IsOutcome(v, b)
    ensures a == b
  {
    if a != TimedOut && b != TimedOut {
      var i: nat :| DecidedAt(v, i) && a == Decision(v, i).value;
      var j: nat :| DecidedAt(v, j) && b == Decision(v, j).value;
      assert i == j;
    }
  }

  /** Nothing in the logs ends the wait at poll `k`, so the container is inspected. */
  ghost predicate IsInspected(v: View, k: nat) {
    Streak(v.dns, k) < 5 && Streak(v.pressure, k) < 8 && !v.missing(k)
  }

  /** Poll `k` finds the container running and healthy, and nothing in the logs speaks against it. */
  ghost predicate HealthyAt(v: View, k: nat) {
    IsInspected(v, k) && v.reply(k) == Inspected(true, Healthy)
  }

  /** Poll `k`, not being the last, leaves everything open: a running container that is not yet healthy. */
  ghost predicate WaitsAt(v: View, k: nat) {
    && IsInspected(v, k) && v.reply(k).Inspected? && v.reply(k).running
    && (v.reply(k).health.Starting? || v.reply(k).health.Unhealthy? || (v.reply(k).health.NoHealthCheck? && k > 0))
  }

  /** Poll `k` takes place. */
  ghost predicate TakesPlace(v: View, k: nat) {
    k < 180 && forall j: nat | j < k :: WaitsAt(v, j)
  }

  lemma WaitsExactlyWhen(v: View, k: nat)
    requires k < 179
    ensures Decision(v, k).None? <==> WaitsAt(v, k)
  {}

  /** Which polls take place, in terms of the replies and the markers alone. */
  lemma ReachedExactlyWhen(v: View, k: nat)
    ensures Reached(v, k) <==> TakesPlace(v, k)
  {
    if k < 180 {
      forall j: nat | j < k
        ensures Decision(v, j).None? <==> WaitsAt(v, j)
      {
        WaitsExactlyWhen(v, j);
      }
    }
  }

  lemma DecisionKind(v: View, k: nat)
    ensures Decision(v, k) == Some(DnsAbort) <==> Streak(v.dns, k) >= DNS_GRACE
    ensures Decision(v, k) == Some(PressureAbort) <==>
              Streak(v.pressure, k) >= PRESSURE_GRACE && Streak(v.dns, k) < DNS_GRACE
  {
    NoEarlyAborts(v.reply(k), k);
  }

  lemma NoEarlyAborts(reply: Inspection, k: nat)
    ensures AfterInspection(reply, k) != Some(DnsAbort) && AfterInspection(reply, k) != Some(PressureAbort)
    ensures AfterInspection(reply, k) == Some(Ready) <==> reply == Inspected(true, Healthy)
    ensures AfterInspection(reply, k) != Some(TimedOut)
  {}

  lemma OutcomeByPoll(v: View, verdict: Verdict)
    requires verdict != TimedOut
    ensures IsOutcome(v, verdict) <==> exists k: nat :: Reached(v, k) && Decision(v, k) == Some(verdict)
  {
    if k: nat :| Reached(v, k) && Decision(v, k) == Some(verdict) {
      assert DecidedAt(v, k);
    }
  }

  /** A verdict other than a timeout comes from a poll that takes place and finds what calls for it. */
  lemma VerdictByPoll(v: View, verdict: Verdict, holds: nat -> bool)
    requires verdict != TimedOut
    requires forall k: nat | TakesPlace(v, k) :: Decision(v, k) == Some(verdict) <==> holds(k)
    ensures IsOutcome(v, verdict) <==> exists k: nat :: TakesPlace(v, k) && holds(k)
  {
    OutcomeByPoll(v, verdict);
    forall k: nat
      ensures Reached(v, k) <==> TakesPlace(v, k)
    {
      ReachedExactlyWhen(v, k);
    }
    if k: nat :| Reached(v, k) && Decision(v, k) == Some(verdict) {
      assert TakesPlace(v, k) && holds(k);
    }
    if k: nat :| TakesPlace(v, k) && holds(k) {
      assert Reached(v, k) && Decision(v, k) == Some(verdict);
    }
  }

  /** Success comes exactly from a running, healthy inspection with no marker against it. */
  lemma ReadyMeansHealthy(v: View)
    ensures IsOutcome(v, Ready) <==> exists k: nat :: TakesPlace(v, k) && HealthyAt(v, k)
  {
    VerdictByPoll(v, Ready, (k: nat) => HealthyAt(v, k));
  }

  lemma SupervisorMissingMeans(v: View)
    ensures IsOutcome(v, SupervisorMissing) <==>
            exists k: nat :: TakesPlace(v, k) && v.missing(k) && Streak(v.dns, k) < 5 && Streak(v.pressure, k) < 8
  {
    VerdictByPoll(v, SupervisorMissing,
                  (k: nat) => v.missing(k) && Streak(v.dns, k) < 5 && Streak(v.pressure, k) < 8);
  }

  lemma InspectFailedMeans(v: View)
    ensures IsOutcome(v, InspectFailed) <==>
            exists k: nat :: TakesPlace(v, k) && IsInspected(v, k) && v.reply(k) == InspectError
  {
    VerdictByPoll(v, InspectFailed, (k: nat) => IsInspected(v, k) && v.reply(k) == InspectError);
  }

  lemma ExitedMeans(v: View)
    ensures IsOutcome(v, Exited) <==>
            exists k: nat ::
              TakesPlace(v, k) && IsInspected(v, k) && v.reply(k).Inspected? && !v.reply(k).running
  {
    forall k: nat
      ensures Decision(v, k) == Some(Exited) <==> IsInspected(v, k) && v.reply(k).Inspected? && !v.reply(k).running
    {
      ExitedReply(v.reply(k), k);
    }
    VerdictByPoll(v, Exited, (k: nat) => IsInspected(v, k) && v.reply(k).Inspected? && !v.reply(k).running);
  }

  lemma ExitedReply(reply: Inspection, k: nat)
    ensures AfterInspection(reply, k) == Some(Exited) <==> reply.Inspected? && !reply.running
  {
    match reply
    case InspectError =>
    case Inspected(running, health) =>
      if running {
        assert AfterInspection(reply, k) != Some(Exited);
      } else {
        assert reply == Inspected(false, health);
      }
  }

  /** An unhealthy container is only given up at the last poll. */
  lemma StillUnhealthyMeans(v: View)
    ensures IsOutcome(v, StillUnhealthy) <==>
            exists k: nat ::
              TakesPlace(v, k) && k == 179 && IsInspected(v, k) && v.reply(k) == Inspected(true, Unhealthy)
  {
    VerdictByPoll(v, StillUnhealthy,
                  (k: nat) => k == 179 && IsInspected(v, k) && v.reply(k) == Inspected(true, Unhealthy));
  }

  /** A container without health check is only given up at the first poll. */
  lemma HealthCheckMissingMeans(v: View)
    ensures IsOutcome(v, HealthCheckMissing) <==>
            exists k: nat ::
              TakesPlace(v, k) && k == 0 && IsInspected(v, k) && v.reply(k) == Inspected(true, NoHealthCheck)
  {
    VerdictByPoll(v, HealthCheckMissing,
                  (k: nat) => k == 0 && IsInspected(v, k) && v.reply(k) == Inspected(true, NoHealthCheck));
  }

  /** The wait times out exactly when all polls take place and the last one leaves it open, too. */
  lemma TimedOutMeans(v: View)
    ensures IsOutcome(v, TimedOut) <==>
            exists k: nat :: TakesPlace(v, k) && k == 179 && WaitsAt(v, k) && !v.reply(k).health.Unhealthy?
  {
    NeverTimedOut(v);
    var last: nat := 179;
    ReachedExactlyWhen(v, last);
    assert Undecided(v, ATTEMPTS) <==> Undecided(v, last) && Decision(v, last).None?;
    assert Decision(v, last).None? <==> WaitsAt(v, last) && !v.reply(last).health.Unhealthy?;
  }

  lemma NeverTimedOut(v: View)
    ensures forall k: nat :: Decision(v, k) != Some(TimedOut)
  {
    forall k: nat
      ensures Decision(v, k) != Some(TimedOut)
    {
      NoEarlyAborts(v.reply(k), k);
    }
  }

  lemma StreakGrowsByOne(seen: nat -> bool, k: nat, limit: nat)
    requires Streak(seen, k) >= limit > 0
    requires k == 0 || Streak(seen, k - 1) < limit
    ensures Streak(seen, k) == limit
  {}

  /** At a poll that takes place a streak cannot have passed its limit before. */
  lemma LimitsAreHitExactly(v: View, k: nat)
    requires Reached(v, k)
    ensures Streak(v.dns, k) <= DNS_GRACE
    ensures Streak(v.pressure, k) <= PRESSURE_GRACE
  {
    if k > 0 {
      DecisionKind(v, k - 1);
    }
    if Streak(v.dns, k) >= DNS_GRACE {
      StreakGrowsByOne(v.dns, k, DNS_GRACE);
    }
    if Streak(v.pressure, k) >= PRESSURE_GRACE {
      StreakGrowsByOne(v.pressure, k, PRESSURE_GRACE);
    }
  }

  /** The DNS abort comes exactly at the poll where an unbroken run of marked polls reaches five. */
  lemma DnsAbortAtFive(v: View)
    ensures IsOutcome(v, DnsAbort) <==> exists k: nat :: TakesPlace(v, k) && Streak(v.dns, k) == 5
  {
    forall k: nat | TakesPlace(v, k)
      ensures Decision(v, k) == Some(DnsAbort) <==> Streak(v.dns, k) == 5
    {
      DecisionKind(v, k);
      ReachedExactlyWhen(v, k);
      LimitsAreHitExactly(v, k);
    }
    VerdictByPoll(v, DnsAbort, (k: nat) => Streak(v.dns, k) == 5);
  }

  /** Likewise the pressure abort at eight, unless the DNS run has reached five by then. */
  lemma PressureAbortAtEight(v: View)
    ensures IsOutcome(v, PressureAbort) <==>
            exists k: nat :: TakesPlace(v, k) && Streak(v.pressure, k) == 8 && Streak(v.dns, k) < 5
  {
    forall k: nat | TakesPlace(v, k)
      ensures Decision(v, k) == Some(PressureAbort) <==> Streak(v.pressure, k) == 8 && Streak(v.dns, k) < 5
    {
      DecisionKind(v, k);
      ReachedExactlyWhen(v, k);
      LimitsAreHitExactly(v, k);
    }
    VerdictByPoll(v, PressureAbort, (k: nat) => Streak(v.pressure, k) == 8 && Streak(v.dns, k) < 5);
  }
}
