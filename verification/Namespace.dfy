/**
 Waiting for the Kubernetes namespace inside the gateway container (`wait_for_namespace` in
 crates/clustershell-bootstrap/src/lib.rs). The container's answers are a `World`.
 */
module Namespace {

  const ATTEMPTS := 60
  const FIRST_BACKOFF := 200
  const MAX_BACKOFF := 2000
  const PROBE_START := 3
  const PROBE_INTERVAL := 3
  const FAILURE_THRESHOLD := 2

  /** A DNS probe succeeds, fails, or cannot be run. */
  datatype Probe = Resolved | Unresolved | ProbeError

  /** The lookup cannot be run, with the container running or not, or it tells whether the namespace exists. */
  datatype Lookup = LookupError(running: bool) | Answer(exists_: bool)

  datatype World = World(probe: nat -> Probe, lookup: nat -> Lookup)

  datatype Outcome = Found | DnsFailure | NotRunning | LookupFailed | TimedOut

  predicate ProbesAt(attempt: nat) {
    attempt >= PROBE_START && (attempt - PROBE_START) % PROBE_INTERVAL == 0
  }

  /** The probed attempts are 3, 6, 9 and so on. */
  lemma ProbedAttempts(attempt: nat)
    ensures ProbesAt(attempt) <==> exists n: nat :: n >= 1 && attempt == 3 * n
  {
    if ProbesAt(attempt) {
      var n := attempt / 3;
      assert attempt == 3 * n;
    }
  }

  /** The pause after attempt `k`: doubling from 200 ms, at most two seconds. */
  ghost function Backoff(k: nat): nat {
    if k == 0 then FIRST_BACKOFF
    else if Backoff(k - 1) * 2 < MAX_BACKOFF then Backoff(k - 1) * 2 else MAX_BACKOFF
  }

  /** The pauses of the first `n` attempts together. */
  ghost function TotalPause(n: nat): nat {
    if n == 0 then 0 else TotalPause(n - 1) + Backoff(n - 1)
  }

  lemma {:induction false} BackoffSettles(k: nat)
    ensures k >= 4 ==> Backoff(k) == MAX_BACKOFF
  {
    if k == 4 {
      assert Backoff(1) == 400 && Backoff(2) == 800 && Backoff(3) == 1600;
    } else if k > 4 {
      BackoffSettles(k - 1);
    }
  }

  lemma {:induction false} TotalPauseClosed(n: nat)
    ensures n >= 4 ==> TotalPause(n) == 3000 + (n - 4) * MAX_BACKOFF
    ensures n < 4 ==> TotalPause(n) <= 3000
  {
    if n == 0 {
    } else if n <= 4 {
      assert TotalPause(1) == 200 && TotalPause(2) == 600 && TotalPause(3) == 1400 && TotalPause(4) == 3000;
    } else {
      TotalPauseClosed(n - 1);
      BackoffSettles(n - 1);
    }
  }

  /** Failed probes among the attempts before `n`, counted since the last successful one. */
  ghost function FailuresBefore(w: World, n: nat): nat {
    if n == 0 then 0
    else if !ProbesAt(n - 1) then FailuresBefore(w, n - 1)
    else match w.probe(n - 1)
      case Resolved => 0
      case Unresolved => FailuresBefore(w, n - 1) + 1
      case ProbeError => FailuresBefore(w, n - 1)
  }

  /** Two failed probes, at attempts `a` and `b`, with no successful probe between them. */
  ghost predicate TwoFailures(w: World, a: nat, b: nat) {
    && a < b && ProbesAt(a) && ProbesAt(b)
    && w.probe(a) == Unresolved && w.probe(b) == Unresolved
    && forall k | a < k < b && ProbesAt(k) :: w.probe(k) != Resolved
  }

  lemma {:induction false} FailureBefore(w: World, n: nat) returns (a: nat)
    requires FailuresBefore(w, n) >= 1
    ensures a < n && ProbesAt(a) && w.probe(a) == Unresolved
    ensures forall k | a < k < n && ProbesAt(k) :: w.probe(k) != Resolved
  {
    if ProbesAt(n - 1) && w.probe(n - 1) == Unresolved {
      a := n - 1;
    } else {
      a := FailureBefore(w, n - 1);
    }
  }

  /** The failure counter reaches two exactly when there are two failures with no success between. */
  lemma {:induction false} ThresholdMeaning(w: World, b: nat)
    requires ProbesAt(b) && w.probe(b) == Unresolved
    ensures FailuresBefore(w, b + 1) >= FAILURE_THRESHOLD <==> exists a :: TwoFailures(w, a, b)
  {
    if FailuresBefore(w, b) >= 1 {
      var a := FailureBefore(w, b);
      assert TwoFailures(w, a, b);
    }
    if a :| TwoFailures(w, a, b) {
      FailureCounted(w, a, b);
    }
  }

  lemma {:induction false} FailureCounted(w: World, a: nat, n: nat)
    requires a < n && ProbesAt(a) && w.probe(a) == Unresolved
    requires forall k | a < k < n && ProbesAt(k) :: w.probe(k) != Resolved
    ensures FailuresBefore(w, n) >= 1
  {
    if a < n - 1 {
      FailureCounted(w, a, n - 1);
    }
  }

  lemma BelowThreshold(w: World, b: nat)
    requires FailuresBefore(w, b + 1) < FAILURE_THRESHOLD
    ensures !exists a :: TwoFailures(w, a, b)
  {
    if ProbesAt(b) && w.probe(b) == Unresolved {
      ThresholdMeaning(w, b);
    }
  }

  /** The namespace is there at attempt `n`, and nothing has ended the wait before. */
  ghost predicate FoundAt(w: World, n: nat) {
    && n < 60 && w.lookup(n) == Answer(true)
    && (forall k: nat | k < n :: w.lookup(k) == Answer(false) || w.lookup(k) == LookupError(true))
    && (forall a: nat, b: nat | b <= n :: !TwoFailures(w, a, b))
  }

  ghost predicate IsFound(w: World) {
    exists n: nat :: FoundAt(w, n)
  }

  /** How waiting ended at attempt `last` tells whether the namespace is found at all. */
  lemma FoundOnlyAtLast(w: World, last: nat)
    requires last < 60
    requires forall a: nat, b: nat | b < last :: !TwoFailures(w, a, b)
    requires forall k: nat | k < last :: w.lookup(k) == Answer(false) || w.lookup(k) == LookupError(true)
    requires last == 59 || (exists a: nat :: TwoFailures(w, a, last)) || w.lookup(last) == Answer(true)
          || w.lookup(last) == LookupError(false)
    ensures IsFound(w) <==> w.lookup(last) == Answer(true) && !exists a: nat :: TwoFailures(w, a, last)
  {
    if n: nat :| FoundAt(w, n) {
      assert n == last;
    }
    if w.lookup(last) == Answer(true) && !exists a: nat :: TwoFailures(w, a, last) {
      assert FoundAt(w, last);
    }
  }

  method WaitForNamespace(w: World) returns (outcome: Outcome, sleeps: nat, slept: nat, ghost last: nat)
    ensures last < ATTEMPTS && sleeps == last && slept == TotalPause(last)
    ensures sleeps <= 59 && slept <= 113000
    ensures outcome == Found <==> IsFound(w)
    ensures outcome == DnsFailure <==> exists a :: TwoFailures(w, a, last)
    ensures forall a: nat, b: nat | b < last :: !TwoFailures(w, a, b)
    ensures outcome == Found ==> w.lookup(last) == Answer(true)
    ensures outcome == NotRunning ==> w.lookup(last) == LookupError(false)
    ensures outcome == TimedOut ==> w.lookup(last) == Answer(false)
    ensures outcome == LookupFailed ==> w.lookup(last) == LookupError(true)
    ensures outcome == TimedOut || outcome == LookupFailed ==> last == 59 && slept == 113000
    ensures forall k: nat | k < last :: w.lookup(k) == Answer(false) || w.lookup(k) == LookupError(true)
  {
    outcome, sleeps, slept, last := PollNamespace(w);
    FoundOnlyAtLast(w, last);
  }

  /**
   `sleeps` and `slept` count the pauses and their total length in milliseconds; `last` is the
   attempt at which waiting ended.
   */
  method PollNamespace(w: World) returns (outcome: Outcome, sleeps: nat, slept: nat, ghost last: nat)
    ensures last < ATTEMPTS && sleeps == last && slept == TotalPause(last)
    ensures sleeps <= 59 && slept <= 113000
    ensures outcome == DnsFailure <==> exists a :: TwoFailures(w, a, last)
    ensures forall a: nat, b: nat | b < last :: !TwoFailures(w, a, b)
    ensures outcome == Found ==> w.lookup(last) == Answer(true)
    ensures outcome == NotRunning ==> w.lookup(last) == LookupError(false)
    ensures outcome == TimedOut ==> w.lookup(last) == Answer(false)
    ensures outcome == LookupFailed ==> w.lookup(last) == LookupError(true)
    ensures outcome == TimedOut || outcome == LookupFailed ==> last == 59 && slept == 113000
    ensures forall k: nat | k < last :: w.lookup(k) == Answer(false) || w.lookup(k) == LookupError(true)
  {
    var backoff, failures, attempt: nat := FIRST_BACKOFF, 0, 0;
    sleeps, slept, last := 0, 0, 0;
    while true
      invariant attempt < ATTEMPTS && last == attempt
      invariant backoff == Backoff(attempt) && failures == FailuresBefore(w, attempt)
      invariant failures < FAILURE_THRESHOLD
      invariant sleeps == attempt && slept == TotalPause(attempt)
      invariant forall a: nat, b: nat | b < attempt :: !TwoFailures(w, a, b)
      invariant forall k: nat | k < attempt :: w.lookup(k) == Answer(false) || w.lookup(k) == LookupError(true)
      decreases ATTEMPTS - attempt
    {
      TotalPauseClosed(attempt);
      if ProbesAt(attempt) {
        match w.probe(attempt)
        case Resolved =>
          failures := 0;
        case Unresolved =>
          failures := failures + 1;
          if failures >= FAILURE_THRESHOLD {
            ThresholdMeaning(w, attempt);
            return DnsFailure, sleeps, slept, last;
          }
        case ProbeError =>
      }
      BelowThreshold(w, attempt);
      match w.lookup(attempt) {
        case LookupError(running) =>
          if !running {
            return NotRunning, sleeps, slept, last;
          }
          if attempt + 1 == ATTEMPTS {
            return LookupFailed, sleeps, slept, last;
          }
        case Answer(found) =>
          if found {
            return Found, sleeps, slept, last;
          }
          if attempt + 1 == ATTEMPTS {
            return TimedOut, sleeps, slept, last;
          }
      }
      sleeps, slept := sleeps + 1, slept + backoff;
      backoff := if backoff * 2 < MAX_BACKOFF then backoff * 2 else MAX_BACKOFF;
      attempt := attempt + 1;
      last := attempt;
    }
  }
}
