/** Claiming of cron instants by replicas that share one schedule row.

    Every replica fires the same callback.  One attempt is one transaction: it reads the row,
    checks that the clock is within 500 ms of the instant stored there, advances the row and runs
    the job; a failing job rolls the row back.  `Apply` is the effect of one attempt, `Run` of any
    interleaving of attempts.  This module is about one row that start-up and callback share. */
module CronClaim {
  /** The k-th instant of a cron schedule, in milliseconds. */
  type Ticks = nat -> int

  /** The instants come in order, at least one second apart. */
  ghost predicate CronTicks(ticks: Ticks) {
    forall i: nat, j: nat :: i < j ==> ticks(i) + 1000 <= ticks(j)
  }

  const WINDOW := 500

  predicate InWindow(scheduled: int, now: int) {
    (if now >= scheduled then now - scheduled else scheduled - now) < WINDOW
  }

  /** What the stages of an attempt would answer if they were reached. */
  datatype Outcome = BeginFails | UpdateFails | JobFails | CommitFails | Succeeds

  /** An attempt at time `now` of a firing whose interval started after instant `base` and had
      `next()` called `number` times, this attempt included. */
  datatype Attempt = Attempt(base: nat, number: nat, now: int, outcome: Outcome)

  /** A committed run of the job for the instant that the row held. */
  datatype Claim = Claim(instant: int, at: int)

  datatype State = State(next: int, last: int, claims: seq<Claim>)

  predicate Commits(s: State, a: Attempt) {
    a.outcome == Succeeds && InWindow(s.next, a.now)
  }

  function Apply(ticks: Ticks, s: State, a: Attempt): State {
    if Commits(s, a) then State(ticks(a.base + a.number), a.now, s.claims + [Claim(s.next, a.now)]) else s
  }

  function Run(ticks: Ticks, s: State, trace: seq<Attempt>): State
    decreases |trace|
  {
    if trace == [] then s else Run(ticks, Apply(ticks, s, trace[0]), trace[1..])
  }

  /** Whether the retry loop stops after the attempt.  A failed window check is answered like a
      success, so a replica that comes too late or too early does not retry. */
  predicate Stops(s: State, a: Attempt) {
    match a.outcome
    case BeginFails => false
    case UpdateFails => false
    case CommitFails => false
    case JobFails => !InWindow(s.next, a.now)
    case Succeeds => true
  }

  // ---------------------------------------------------------------------------------------------
  // Safety of every interleaving
  // ---------------------------------------------------------------------------------------------

  /** The attempt commits at least one window before the instant it writes. */
  predicate Timely(ticks: Ticks, a: Attempt) {
    a.now + WINDOW <= ticks(a.base + a.number)
  }

  ghost predicate StrictlyIncreasing(claims: seq<Claim>) {
    forall i, j :: 0 <= i < j < |claims| ==> claims[i].instant < claims[j].instant
  }

  ghost predicate AllBefore(claims: seq<Claim>, instant: int) {
    forall i :: 0 <= i < |claims| ==> claims[i].instant < instant
  }

  /** In every interleaving of timely attempts of any number of replicas the row never moves back,
      the committed instants strictly increase and the row stays beyond all of them. */
  lemma {:induction false} ClaimsStrictlyIncrease(ticks: Ticks, s: State, trace: seq<Attempt>)
    requires forall a :: a in trace ==> Timely(ticks, a)
    requires StrictlyIncreasing(s.claims) && AllBefore(s.claims, s.next)
    ensures var r := Run(ticks, s, trace);
            s.next <= r.next && StrictlyIncreasing(r.claims) && AllBefore(r.claims, r.next) && s.claims <= r.claims
    decreases |trace|
  {
    if trace == [] {
    } else {
      assert Timely(ticks, trace[0]);
      ClaimsStrictlyIncrease(ticks, Apply(ticks, s, trace[0]), trace[1..]);
    }
  }

  /** Each scheduled instant is run to completion at most once. */
  lemma NoInstantRunsTwice(ticks: Ticks, s: State, trace: seq<Attempt>, i: nat, j: nat)
    requires forall a :: a in trace ==> Timely(ticks, a)
    requires s.claims == []
    requires i < |Run(ticks, s, trace).claims| && j < |Run(ticks, s, trace).claims|
    requires Run(ticks, s, trace).claims[i].instant == Run(ticks, s, trace).claims[j].instant
    ensures i == j
  {
    ClaimsStrictlyIncrease(ticks, s, trace);
  }

  /** Without the timing bound the promise is false: a first attempt that commits less than a window
      before the next instant claims that instant and writes it back, so it is run again. */
  lemma LateAttemptRunsAnInstantTwice()
    ensures var ticks: Ticks := k => 60000 * k;
            var late := Attempt(0, 1, 59800, Succeeds);
            var punctual := Attempt(1, 1, 60010, Succeeds);
            CronTicks(ticks) && !Timely(ticks, late) && Timely(ticks, punctual) &&
            Run(ticks, State(60000, 0, []), [late, punctual]).claims == [Claim(60000, 59800), Claim(60000, 60010)]
  {
    var ticks: Ticks := k => 60000 * k;
    var late := Attempt(0, 1, 59800, Succeeds);
    var punctual := Attempt(1, 1, 60010, Succeeds);
    var s1 := Apply(ticks, State(60000, 0, []), late);
    assert s1 == State(60000, 59800, [Claim(60000, 59800)]);
    assert [late, punctual][1..] == [punctual] && [punctual][1..] == [];
    assert Run(ticks, s1, [punctual]) == Apply(ticks, s1, punctual);
  }

  // ---------------------------------------------------------------------------------------------
  // Exactly which attempts make an instant run twice
  // ---------------------------------------------------------------------------------------------

  /** The instant that the attempt writes is within the window around its own time, so that the row
      stays claimable. */
  predicate WritesOpenInstant(ticks: Ticks, a: Attempt) {
    InWindow(ticks(a.base + a.number), a.now)
  }

  /** The attempts come in the order of their times, none before the clock. */
  ghost predicate InOrder(clock: int, trace: seq<Attempt>)
    decreases |trace|
  {
    trace == [] || (clock <= trace[0].now && InOrder(trace[0].now, trace[1..]))
  }

  /** Before the next instant only a first attempt in the half second in front of that instant writes such
      an instant, and if it commits, that is the instant it claims. */
  lemma OnlyEarlyFirstAttempts(ticks: Ticks, s: State, j: nat, a: Attempt)
    requires CronTicks(ticks) && s.next == ticks(j) && a.number >= 1 && ticks(a.base) <= a.now < ticks(a.base + 1)
    ensures WritesOpenInstant(ticks, a) <==> a.number == 1 && ticks(a.base + 1) < a.now + WINDOW
    ensures Commits(s, a) ==> (WritesOpenInstant(ticks, a) <==> a.number == 1 && j == a.base + 1)
  {
    assert a.number > 1 ==> ticks(a.base + 1) + 1000 <= ticks(a.base + a.number);
    assert ticks(a.base) + 1000 <= ticks(a.base + 1);
    if InWindow(ticks(j), a.now) && InWindow(ticks(a.base + 1), a.now) {
      OneInstantInWindow(ticks, j, a.base + 1, a.now);
    }
  }

  /** A row whose window has passed is never claimed again. */
  lemma {:induction false} PassedRowStays(ticks: Ticks, s: State, clock: int, trace: seq<Attempt>)
    requires s.next + WINDOW <= clock && InOrder(clock, trace)
    ensures Run(ticks, s, trace) == s
    decreases |trace|
  {
    if trace == [] {
    } else {
      PassedRowStays(ticks, s, trace[0].now, trace[1..]);
    }
  }

  lemma {:induction false} ClaimsOnlyGrow(ticks: Ticks, s: State, trace: seq<Attempt>)
    ensures s.claims <= Run(ticks, s, trace).claims
    decreases |trace|
  {
    if trace == [] {
    } else {
      ClaimsOnlyGrow(ticks, Apply(ticks, s, trace[0]), trace[1..]);
    }
  }

  /** At most one instant is within the window around a point of time. */
  lemma OneInstantInWindow(ticks: Ticks, i: nat, j: nat, now: int)
    requires CronTicks(ticks) && InWindow(ticks(i), now) && InWindow(ticks(j), now)
    ensures i == j
  {
  }

  /** What a committing attempt does to a row at instant j: it moves it forward, or leaves it where it
      is, or moves it back to an instant whose window has passed. */
  lemma CommitMoves(ticks: Ticks, s: State, j: nat, a: Attempt)
    requires CronTicks(ticks) && s.next == ticks(j) && Commits(s, a)
    ensures WritesOpenInstant(ticks, a) ==> Apply(ticks, s, a).next == s.next
    ensures !WritesOpenInstant(ticks, a) && Timely(ticks, a) ==> s.next < Apply(ticks, s, a).next
    ensures !WritesOpenInstant(ticks, a) && !Timely(ticks, a) ==> Apply(ticks, s, a).next + WINDOW <= a.now
  {
    if WritesOpenInstant(ticks, a) {
      OneInstantInWindow(ticks, j, a.base + a.number, a.now);
    }
  }

  /** The first replica to fire at an instant, as soon as the instant or the clock allows. */
  function Punctual(ticks: Ticks, j: nat, clock: int): Attempt {
    Attempt(j, 1, if clock > ticks(j) then clock else ticks(j), Succeeds)
  }

  lemma OpenRowIsClaimed(ticks: Ticks, s: State, j: nat, clock: int)
    requires CronTicks(ticks) && s.next == ticks(j) && clock < ticks(j) + WINDOW
    ensures var a := Punctual(ticks, j, clock);
            Timely(ticks, a) && InOrder(clock, [a]) && Run(ticks, s, [a]).claims == s.claims + [Claim(s.next, a.now)]
  {
    var a := Punctual(ticks, j, clock);
    assert ticks(j) + 1000 <= ticks(j + 1);
    assert [a][1..] == [] && Run(ticks, s, [a]) == Apply(ticks, s, a);
  }

  ghost predicate AllTimely(ticks: Ticks, trace: seq<Attempt>) {
    forall a :: a in trace ==> Timely(ticks, a)
  }

  /** After a claim, some timely attempts that follow in order run an instant twice if and only if the
      claiming attempt wrote an instant within the window around its own time. */
  lemma ClaimIsRepeatableExactly(ticks: Ticks, s: State, j: nat, a: Attempt)
    requires CronTicks(ticks) && s.next == ticks(j) && Commits(s, a)
    requires StrictlyIncreasing(s.claims) && AllBefore(s.claims, s.next)
    ensures (exists rest :: AllTimely(ticks, rest) && InOrder(a.now, rest) &&
                            !StrictlyIncreasing(Run(ticks, Apply(ticks, s, a), rest).claims))
            <==> WritesOpenInstant(ticks, a)
  {
    var s1 := Apply(ticks, s, a);
    CommitMoves(ticks, s, j, a);
    if WritesOpenInstant(ticks, a) {
      var b := Punctual(ticks, j, a.now);
      OpenRowIsClaimed(ticks, s1, j, a.now);
      RepeatedInstant(Run(ticks, s1, [b]).claims, |s.claims|);
      assert AllTimely(ticks, [b]);
    } else {
      forall rest | AllTimely(ticks, rest) && InOrder(a.now, rest)
        ensures StrictlyIncreasing(Run(ticks, s1, rest).claims)
      {
        if Timely(ticks, a) {
          ClaimsStrictlyIncrease(ticks, s1, rest);
        } else {
          PassedRowStays(ticks, s1, a.now, rest);
        }
      }
    }
  }

  lemma RepeatedInstant(claims: seq<Claim>, i: nat)
    requires i + 1 < |claims| && claims[i].instant == claims[i + 1].instant
    ensures !StrictlyIncreasing(claims)
  {
  }

  /** Some attempt that writes an instant within the window around its time commits, and another
      attempt commits after it. */
  predicate RepeatsIn(ticks: Ticks, s: State, trace: seq<Attempt>)
    decreases |trace|
  {
    trace != [] &&
    var s1 := Apply(ticks, s, trace[0]);
    (Commits(s, trace[0]) && WritesOpenInstant(ticks, trace[0]) && Run(ticks, s1, trace[1..]).claims != s1.claims)
    || RepeatsIn(ticks, s1, trace[1..])
  }

  /** The first commit after a claim that left the row in place claims the same instant. */
  lemma {:induction false} NextCommitRepeats(ticks: Ticks, s: State, trace: seq<Attempt>)
    requires s.claims != [] && s.claims[|s.claims| - 1].instant == s.next
    requires Run(ticks, s, trace).claims != s.claims
    ensures !StrictlyIncreasing(Run(ticks, s, trace).claims)
    decreases |trace|
  {
    var s1 := Apply(ticks, s, trace[0]);
    if Commits(s, trace[0]) {
      ClaimsOnlyGrow(ticks, s1, trace[1..]);
      RepeatedInstant(Run(ticks, s1, trace[1..]).claims, |s.claims| - 1);
    } else {
      NextCommitRepeats(ticks, s, trace[1..]);
    }
  }

  lemma {:induction false} NoCommitNoRepeat(ticks: Ticks, s: State, trace: seq<Attempt>)
    requires Run(ticks, s, trace).claims == s.claims
    ensures !RepeatsIn(ticks, s, trace)
    decreases |trace|
  {
    if trace == [] {
    } else {
      var s1 := Apply(ticks, s, trace[0]);
      ClaimsOnlyGrow(ticks, s1, trace[1..]);
      assert !Commits(s, trace[0]);
      NoCommitNoRepeat(ticks, s1, trace[1..]);
    }
  }

  /** For every run of attempts in the order of their times, timely or not: an instant runs twice if and
      only if an attempt commits that writes an instant within the window around its time, and another
      attempt commits after it. */
  lemma {:induction false} RunRepeatsExactly(ticks: Ticks, s: State, j: nat, clock: int, trace: seq<Attempt>)
    requires CronTicks(ticks) && s.next == ticks(j) && InOrder(clock, trace)
    requires StrictlyIncreasing(s.claims) && AllBefore(s.claims, s.next)
    ensures !StrictlyIncreasing(Run(ticks, s, trace).claims) <==> RepeatsIn(ticks, s, trace)
    decreases |trace|
  {
    if trace == [] {
    } else {
      var a, rest := trace[0], trace[1..];
      var s1 := Apply(ticks, s, a);
      if !Commits(s, a) {
        RunRepeatsExactly(ticks, s, j, a.now, rest);
      } else {
        CommitMoves(ticks, s, j, a);
        if WritesOpenInstant(ticks, a) {
          StayingRowRepeats(ticks, s1, rest);
        } else if Timely(ticks, a) {
          RunRepeatsExactly(ticks, s1, a.base + a.number, a.now, rest);
        } else {
          PassedRowStays(ticks, s1, a.now, rest);
          NoCommitNoRepeat(ticks, s1, rest);
        }
      }
    }
  }

  lemma StayingRowRepeats(ticks: Ticks, s: State, rest: seq<Attempt>)
    requires s.claims != [] && s.claims[|s.claims| - 1].instant == s.next && StrictlyIncreasing(s.claims)
    ensures !StrictlyIncreasing(Run(ticks, s, rest).claims) <==> Run(ticks, s, rest).claims != s.claims
    ensures Run(ticks, s, rest).claims == s.claims ==> !RepeatsIn(ticks, s, rest)
  {
    if Run(ticks, s, rest).claims == s.claims {
      NoCommitNoRepeat(ticks, s, rest);
    } else {
      NextCommitRepeats(ticks, s, rest);
    }
  }

  // ---------------------------------------------------------------------------------------------
  // Which instants run
  // ---------------------------------------------------------------------------------------------

  /** All attempts that belong to instant k: none before the instant, none later than one window
      before the next one. */
  ghost predicate RoundOf(ticks: Ticks, k: nat, round: seq<Attempt>) {
    forall a :: a in round ==>
      a.base == k && ticks(k) <= a.now && a.now + WINDOW <= ticks(k + 1) && (a.outcome != BeginFails ==> a.number >= 1)
  }

  /** A schedule may have an instant every second, and a round may reach from its instant to half a second before
      the next one; an attempt there is still timely. */
  lemma RoundsReachTheEdges(k: nat)
    ensures var ticks: Ticks := (i: nat) => 1000 * i;
            var early, late := Attempt(k, 0, 1000 * k, BeginFails), Attempt(k, 1, 1000 * k + 500, Succeeds);
            CronTicks(ticks) && RoundOf(ticks, k, [early, late]) && Timely(ticks, late)
  {
    var ticks: Ticks := (i: nat) => 1000 * i;
    assert ticks(k + 1) == 1000 * k + 1000;
  }

  /** Round after round, starting with instant k. */
  ghost predicate RoundsFrom(ticks: Ticks, k: nat, rounds: seq<seq<Attempt>>)
    decreases |rounds|
  {
    rounds != [] ==> RoundOf(ticks, k, rounds[0]) && RoundsFrom(ticks, k + 1, rounds[1..])
  }

  predicate CanClaim(ticks: Ticks, k: nat, a: Attempt) {
    a.outcome == Succeeds && a.now < ticks(k) + WINDOW
  }

  /** The `next()` count of the first attempt whose job succeeds inside the window; 0 if there is none. */
  function ClaimerNumber(ticks: Ticks, k: nat, round: seq<Attempt>): nat {
    if round == [] then 0
    else if CanClaim(ticks, k, round[0]) then round[0].number
    else ClaimerNumber(ticks, k, round[1..])
  }

  function RunRounds(ticks: Ticks, s: State, rounds: seq<seq<Attempt>>): State
    decreases |rounds|
  {
    if rounds == [] then s else RunRounds(ticks, Run(ticks, s, rounds[0]), rounds[1..])
  }

  /** A row at any other instant is out of reach of the attempts of instant k. */
  lemma {:induction false} RoundElsewhere(ticks: Ticks, s: State, j: nat, k: nat, round: seq<Attempt>)
    requires CronTicks(ticks) && RoundOf(ticks, k, round)
    requires j != k && s.next == ticks(j)
    ensures Run(ticks, s, round) == s
  {
    if round == [] {
    } else {
      var a := round[0];
      assert a in round;
      assert !InWindow(s.next, a.now) by {
        assert j < k ==> ticks(j) + 1000 <= ticks(k);
        assert k + 1 < j ==> ticks(k + 1) + 1000 <= ticks(j);
      }
      RoundElsewhere(ticks, s, j, k, round[1..]);
    }
  }

  /** What one round does to a row that is at its instant: the first attempt whose job succeeds in
      the window takes it, and moves the row as many instants on as its interval was advanced. */
  lemma {:induction false} RoundAtItsInstant(ticks: Ticks, s: State, k: nat, round: seq<Attempt>)
    requires CronTicks(ticks) && RoundOf(ticks, k, round) && s.next == ticks(k)
    ensures var m := ClaimerNumber(ticks, k, round); var r := Run(ticks, s, round);
            if m == 0 then r == s
            else r.next == ticks(k + m) && |r.claims| == |s.claims| + 1 && s.claims <= r.claims &&
                 r.claims[|s.claims|].instant == ticks(k)
  {
    if round == [] {
    } else {
      var a := round[0];
      assert a in round;
      assert Commits(s, a) <==> CanClaim(ticks, k, a);
      if CanClaim(ticks, k, a) {
        var s1 := Apply(ticks, s, a);
        RoundElsewhere(ticks, s1, k + a.number, k, round[1..]);
      } else {
        RoundAtItsInstant(ticks, s, k, round[1..]);
      }
    }
  }

  /** Once an instant has passed unclaimed, no later firing ever runs the job or moves the row. */
  lemma {:induction false} MissedInstantStopsTheJob(ticks: Ticks, s: State, j: nat, k: nat, rounds: seq<seq<Attempt>>)
    requires CronTicks(ticks) && RoundsFrom(ticks, k, rounds)
    requires j < k && s.next == ticks(j)
    ensures RunRounds(ticks, s, rounds) == s
    decreases |rounds|
  {
    if rounds == [] {
    } else {
      RoundElsewhere(ticks, s, j, k, rounds[0]);
      MissedInstantStopsTheJob(ticks, s, j, k + 1, rounds[1..]);
    }
  }

  /** A row that was moved too far catches up only when the schedule reaches it. */
  lemma {:induction false} RowAheadWaits(ticks: Ticks, s: State, j: nat, k: nat, rounds: seq<seq<Attempt>>)
    requires CronTicks(ticks) && RoundsFrom(ticks, k, rounds)
    requires k + |rounds| <= j && s.next == ticks(j)
    ensures RunRounds(ticks, s, rounds) == s
    decreases |rounds|
  {
    if rounds == [] {
    } else {
      RoundElsewhere(ticks, s, j, k, rounds[0]);
      RowAheadWaits(ticks, s, j, k + 1, rounds[1..]);
    }
  }

  /** The row as an index into the schedule, and the indices of the instants that ran. */
  datatype Slot = Slot(at: nat, ran: seq<nat>)

  /** Instant k runs when the row is there and some attempt can claim it; the row then moves by that
      attempt's number. */
  function Advance(ticks: Ticks, x: Slot, k: nat, round: seq<Attempt>): Slot {
    var m := if x.at == k then ClaimerNumber(ticks, k, round) else 0;
    if m == 0 then x else Slot(k + m, x.ran + [k])
  }

  function AdvanceAll(ticks: Ticks, x: Slot, k: nat, rounds: seq<seq<Attempt>>): Slot
    decreases |rounds|
  {
    if rounds == [] then x else AdvanceAll(ticks, Advance(ticks, x, k, rounds[0]), k + 1, rounds[1..])
  }

  ghost predicate Represents(ticks: Ticks, s: State, x: Slot) {
    && s.next == ticks(x.at)
    && |s.claims| == |x.ran|
    && forall i :: 0 <= i < |x.ran| ==> s.claims[i].instant == ticks(x.ran[i])
  }

  lemma RoundRefinesAdvance(ticks: Ticks, s: State, x: Slot, k: nat, round: seq<Attempt>)
    requires CronTicks(ticks) && RoundOf(ticks, k, round) && Represents(ticks, s, x)
    ensures Represents(ticks, Run(ticks, s, round), Advance(ticks, x, k, round))
  {
    if x.at == k { RoundAtItsInstant(ticks, s, k, round); } else { RoundElsewhere(ticks, s, x.at, k, round); }
  }

  /** The timed protocol refines the index machine, over any number of rounds. */
  lemma {:induction false} ProtocolRefinesIndices(ticks: Ticks, s: State, x: Slot, k: nat, rounds: seq<seq<Attempt>>)
    requires CronTicks(ticks) && RoundsFrom(ticks, k, rounds) && Represents(ticks, s, x)
    ensures Represents(ticks, RunRounds(ticks, s, rounds), AdvanceAll(ticks, x, k, rounds))
    decreases |rounds|
  {
    if rounds == [] {
    } else {
      RoundRefinesAdvance(ticks, s, x, k, rounds[0]);
      ProtocolRefinesIndices(ticks, Run(ticks, s, rounds[0]), Advance(ticks, x, k, rounds[0]), k + 1, rounds[1..]);
    }
  }

  /** In every round, from instant k on, the claim is made by a first attempt. */
  ghost predicate ServedByFirstAttempts(ticks: Ticks, k: nat, rounds: seq<seq<Attempt>>)
    decreases |rounds|
  {
    rounds != [] ==> ClaimerNumber(ticks, k, rounds[0]) == 1 && ServedByFirstAttempts(ticks, k + 1, rounds[1..])
  }

  lemma {:induction false} SlotBounds(ticks: Ticks, x: Slot, k: nat, rounds: seq<seq<Attempt>>)
    ensures var r := AdvanceAll(ticks, x, k, rounds);
            |r.ran| <= |x.ran| + |rounds| && (x.at < k ==> r == x) &&
            (x.at > k && rounds != [] ==> |r.ran| < |x.ran| + |rounds|)
    decreases |rounds|
  {
    if rounds == [] {
    } else {
      SlotBounds(ticks, Advance(ticks, x, k, rounds[0]), k + 1, rounds[1..]);
    }
  }

  lemma {:induction false} SlotsComplete(ticks: Ticks, x: Slot, k: nat, rounds: seq<seq<Attempt>>)
    requires x.at == k
    ensures var r := AdvanceAll(ticks, x, k, rounds);
            ServedByFirstAttempts(ticks, k, rounds) <==> |r.ran| == |x.ran| + |rounds| && r.at == k + |rounds|
    ensures var r := AdvanceAll(ticks, x, k, rounds);
            ServedByFirstAttempts(ticks, k, rounds) ==>
              |r.ran| == |x.ran| + |rounds| &&
              forall i :: 0 <= i < |r.ran| ==> r.ran[i] == if i < |x.ran| then x.ran[i] else k + i - |x.ran|
    decreases |rounds|
  {
    if rounds == [] {
    } else {
      var x1 := Advance(ticks, x, k, rounds[0]);
      if ClaimerNumber(ticks, k, rounds[0]) == 1 {
        SlotsComplete(ticks, x1, k + 1, rounds[1..]);
      } else {
        SlotBounds(ticks, x1, k + 1, rounds[1..]);
      }
    }
  }

  ghost predicate ClaimsAre(ticks: Ticks, claims: seq<Claim>, k: nat, n: nat) {
    |claims| == n && forall i :: 0 <= i < n ==> claims[i].instant == ticks(k + i)
  }

  /** The committed runs are exactly the instants, once each and in order, and the row is at the
      next one, if and only if in every round the first attempt to succeed in the window is a first
      attempt.  A later attempt of the same firing that succeeds there skips an instant; a round
      without a success ends the job for good. */
  lemma EveryInstantRunsOnce(ticks: Ticks, k: nat, rounds: seq<seq<Attempt>>, s: State)
    requires CronTicks(ticks) && RoundsFrom(ticks, k, rounds) && s.next == ticks(k) && s.claims == []
    ensures var r := RunRounds(ticks, s, rounds);
            ServedByFirstAttempts(ticks, k, rounds)
            <==> ClaimsAre(ticks, r.claims, k, |rounds|) && r.next == ticks(k + |rounds|)
  {
    var x := AdvanceAll(ticks, Slot(k, []), k, rounds);
    ProtocolRefinesIndices(ticks, s, Slot(k, []), k, rounds);
    SlotsComplete(ticks, Slot(k, []), k, rounds);
    if x.at != k + |rounds| {
      assert ticks(x.at) != ticks(k + |rounds|);
    }
  }

  /** A retry that waited a second or more never runs the job for the instant of its firing. */
  lemma RetryComesTooLate(ticks: Ticks, s: State, a: Attempt, firedAt: int, waitedSecs: nat)
    requires CronTicks(ticks) && ticks(a.base) <= firedAt && waitedSecs >= 1
    requires firedAt + 1000 * waitedSecs <= a.now
    requires s.next <= ticks(a.base)
    ensures Apply(ticks, s, a) == s
  {
  }

  // ---------------------------------------------------------------------------------------------
  // Restarts
  // ---------------------------------------------------------------------------------------------

  /** A start-up of any replica writes the first instant after its clock into the row. */
  datatype Step = Attempted(a: Attempt) | Restarted(now: int, index: nat)

  function Time(e: Step): int {
    match e case Attempted(a) => a.now case Restarted(now, _) => now
  }

  function ApplyStep(ticks: Ticks, s: State, e: Step): State {
    match e
    case Attempted(a) => Apply(ticks, s, a)
    case Restarted(_, index) => State(ticks(index), 120000, s.claims)
  }

  function RunSteps(ticks: Ticks, s: State, trace: seq<Step>): State
    decreases |trace|
  {
    if trace == [] then s else RunSteps(ticks, ApplyStep(ticks, s, trace[0]), trace[1..])
  }

  /** A restart writes the first instant after its clock. */
  ghost predicate IsFirstAfter(ticks: Ticks, now: int, index: nat) {
    now < ticks(index) && (index > 0 ==> ticks(index - 1) <= now)
  }

  /** Attempts that commit are timely and do not claim an instant before it has come. */
  ghost predicate StepOk(ticks: Ticks, s: State, e: Step) {
    match e
    case Attempted(a) => Commits(s, a) ==> Timely(ticks, a) && s.next <= a.now
    case Restarted(now, index) => IsFirstAfter(ticks, now, index)
  }

  ghost predicate StepsOk(ticks: Ticks, s: State, trace: seq<Step>)
    decreases |trace|
  {
    trace == [] || (StepOk(ticks, s, trace[0]) && StepsOk(ticks, ApplyStep(ticks, s, trace[0]), trace[1..]))
  }

  ghost predicate StepsInOrder(clock: int, trace: seq<Step>)
    decreases |trace|
  {
    trace == [] || (clock <= Time(trace[0]) && StepsInOrder(Time(trace[0]), trace[1..]))
  }

  /** Restarts may happen anywhere between the attempts and still no instant runs twice, provided the
      attempts that commit are timely and claim no instant before it has come. */
  lemma {:induction false} RestartsKeepClaimsIncreasing(ticks: Ticks, s: State, clock: int, trace: seq<Step>)
    requires StepsOk(ticks, s, trace) && StepsInOrder(clock, trace)
    requires StrictlyIncreasing(s.claims) && AllBefore(s.claims, s.next)
    requires forall i :: 0 <= i < |s.claims| ==> s.claims[i].instant <= clock
    ensures StrictlyIncreasing(RunSteps(ticks, s, trace).claims)
    decreases |trace|
  {
    if trace == [] {
    } else {
      RestartsKeepClaimsIncreasing(ticks, ApplyStep(ticks, s, trace[0]), Time(trace[0]), trace[1..]);
    }
  }

  /** The instant was claimed before it had come, a replica restarts, and the instant is claimed again. */
  function RestartAndRepeat(ticks: Ticks, j: nat, now: int): seq<Step> {
    [Restarted(now, j), Attempted(Punctual(ticks, j, now))]
  }

  lemma EarlyClaimIsRepeated(ticks: Ticks, s: State, j: nat, a: Attempt)
    requires CronTicks(ticks) && s.next == ticks(j) && Commits(s, a) && a.now < s.next
    ensures var s1, rest := Apply(ticks, s, a), RestartAndRepeat(ticks, j, a.now);
            StepsOk(ticks, s1, rest) && StepsInOrder(a.now, rest)
            && !StrictlyIncreasing(RunSteps(ticks, s1, rest).claims)
  {
    var s1, b := Apply(ticks, s, a), Punctual(ticks, j, a.now);
    var restart, claim := Restarted(a.now, j), Attempted(b);
    var s2 := ApplyStep(ticks, s1, restart);
    OpenRowIsClaimed(ticks, s2, j, a.now);
    assert [restart, claim][1..] == [claim] && [claim][1..] == [] && [b][1..] == [];
    assert j > 0 ==> ticks(j - 1) + 1000 <= ticks(j);
    assert RunSteps(ticks, s1, [restart, claim]) == RunSteps(ticks, s2, [claim]) == Run(ticks, s2, [b]);
    RepeatedInstant(Run(ticks, s2, [b]).claims, |s.claims|);
  }

  /** After a timely claim, some steps that follow in order, restarts among them, run an instant twice if
      and only if the instant was claimed before it had come. */
  lemma RestartRepeatsExactly(ticks: Ticks, s: State, j: nat, a: Attempt)
    requires CronTicks(ticks) && s.next == ticks(j) && Commits(s, a) && Timely(ticks, a)
    requires StrictlyIncreasing(s.claims) && AllBefore(s.claims, s.next)
    requires forall i :: 0 <= i < |s.claims| ==> s.claims[i].instant <= a.now
    ensures (exists rest :: StepsOk(ticks, Apply(ticks, s, a), rest) && StepsInOrder(a.now, rest) &&
                            !StrictlyIncreasing(RunSteps(ticks, Apply(ticks, s, a), rest).claims))
            <==> a.now < s.next
  {
    var s1 := Apply(ticks, s, a);
    if a.now < s.next {
      EarlyClaimIsRepeated(ticks, s, j, a);
    } else {
      forall rest | StepsOk(ticks, s1, rest) && StepsInOrder(a.now, rest)
        ensures StrictlyIncreasing(RunSteps(ticks, s1, rest).claims)
      {
        RestartsKeepClaimsIncreasing(ticks, s1, a.now, rest);
      }
    }
  }

  lemma {:induction false} AttemptsAreSteps(ticks: Ticks, s: State, trace: seq<Attempt>, steps: seq<Step>)
    requires |steps| == |trace| && forall i :: 0 <= i < |trace| ==> steps[i] == Attempted(trace[i])
    ensures RunSteps(ticks, s, steps) == Run(ticks, s, trace)
    decreases |trace|
  {
    if trace == [] {
    } else {
      AttemptsAreSteps(ticks, Apply(ticks, s, trace[0]), trace[1..], steps[1..]);
    }
  }

  lemma FirstAfterIsLeast(ticks: Ticks, now: int, i: nat, j: nat)
    requires CronTicks(ticks) && now < ticks(i) && IsFirstAfter(ticks, now, j)
    ensures j <= i
  {
  }

  lemma FirstAfterIsUnique(ticks: Ticks, now: int, i: nat, j: nat)
    requires CronTicks(ticks) && IsFirstAfter(ticks, now, i) && IsFirstAfter(ticks, now, j)
    ensures i == j
  {
    FirstAfterIsLeast(ticks, now, i, j);
    FirstAfterIsLeast(ticks, now, j, i);
  }
}
