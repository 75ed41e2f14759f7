/** The schedule table with its rows by name, the start-up that writes it and the cron callback.

    A start-up writes one row for every job, under the name of the service's class and the function.  The
    callback looks for its row under the name of the microservice's property and the function. */
module CronTable {
  import opened CronClaim
  import opened Text

  /** A property of the microservice and the class of the service it holds. */
  datatype Service = Service(property: string, className: string)

  /** The services in the order of the properties, and the schedules by class and function name. */
  datatype Jobs = Jobs(services: seq<Service>, schedules: map<string, Ticks>)

  ghost predicate Proper(j: Jobs) {
    forall key :: key in j.schedules ==> CronTicks(j.schedules[key])
  }

  /** The first property with a service of the class; empty if there is none. */
  function PropertyOf(services: seq<Service>, className: string): (r: string)
    ensures (forall i :: 0 <= i < |services| ==> services[i].className != className) ==> r == ""
    ensures forall i ::
              (0 <= i < |services| && services[i].className == className
               && forall h :: 0 <= h < i ==> services[h].className != className)
              ==> r == services[i].property
  {
    if services == [] then ""
    else if services[0].className == className then services[0].property
    else PropertyOf(services[1..], className)
  }

  /** The name under which the callback of a job looks for its row. */
  function NameRead(j: Jobs, key: string): string {
    var parts := Split(key, ".");
    PropertyOf(j.services, parts[0]) + "." + parts[|parts| - 1]
  }

  function KeyOf(className: string, functionName: string): string {
    className + "." + functionName
  }

  /** Both names are the same if and only if property and class are. */
  lemma NamesAgreeExactly(j: Jobs, className: string, functionName: string)
    requires Free(className, ".") && Free(functionName, ".")
    ensures NameRead(j, KeyOf(className, functionName)) == PropertyOf(j.services, className) + "." + functionName
    ensures NameRead(j, KeyOf(className, functionName)) == KeyOf(className, functionName)
            <==> PropertyOf(j.services, className) == className
  {
    var key, property := KeyOf(className, functionName), PropertyOf(j.services, className);
    assert key == className + ['.'] + functionName;
    SplitFirst(className, '.', functionName, ".");
    SplitFree(functionName, ".");
    assert Split(key, ".") == [className, functionName];
    if property + "." + functionName == key {
      assert |property| == |className|;
      assert (property + "." + functionName)[..|property|] == property && key[..|className|] == className;
    }
  }

  // ---------------------------------------------------------------------------------------------
  // The table
  // ---------------------------------------------------------------------------------------------

  /** What an update answers when no row has the name: the SQL stores answer that nothing was found,
      MongoDB answers success. */
  datatype MissingRow = NotFound | Success

  /** A run of the job that the store answered to have succeeded. */
  datatype JobRun = JobRun(key: string, at: int)

  datatype World = World(rows: map<string, State>, runs: seq<JobRun>)

  const EMPTY := World(map[], [])

  /** An attempt at a job that looks for the row with this name. */
  function FireAt(missing: MissingRow, ticks: Ticks, w: World, name: string, key: string, a: Attempt): World {
    if name in w.rows then
      World(w.rows[name := Apply(ticks, w.rows[name], a)],
            if Commits(w.rows[name], a) then w.runs + [JobRun(key, a.now)] else w.runs)
    else if missing.Success? && a.outcome == Succeeds then w.(runs := w.runs + [JobRun(key, a.now)])
    else w
  }

  function FireOn(missing: MissingRow, j: Jobs, w: World, key: string, a: Attempt): World
    requires key in j.schedules
  {
    FireAt(missing, j.schedules[key], w, NameRead(j, key), key, a)
  }

  /** Whether the retry loop stops.  That nothing was found is an error and retried. */
  predicate StopsOn(missing: MissingRow, w: World, name: string, a: Attempt) {
    if name in w.rows then Stops(w.rows[name], a) else missing.Success? && a.outcome == Succeeds
  }

  /** The index of the first instant after the clock, not looked for before index i. */
  function FirstAfter(ticks: Ticks, now: int, i: nat): (k: nat)
    requires CronTicks(ticks)
    ensures i <= k && now < ticks(k) && (k > i ==> ticks(k - 1) <= now)
    decreases if now < ticks(i) then 0 else now - ticks(i) + 1
  {
    if now < ticks(i) then i
    else
      assert ticks(i) + 1000 <= ticks(i + 1);
      FirstAfter(ticks, now, i + 1)
  }

  /** The row after a start-up; the claims are history. */
  function StartRow(ticks: Ticks, now: int, rows: map<string, State>, name: string): State
    requires CronTicks(ticks)
  {
    State(ticks(FirstAfter(ticks, now, 0)), 120000, if name in rows then rows[name].claims else [])
  }

  /** A start-up writes each job's row in a transaction of its own. */
  function StartUpOn(j: Jobs, w: World, key: string, now: int): World
    requires Proper(j) && key in j.schedules
  {
    w.(rows := w.rows[key := StartRow(j.schedules[key], now, w.rows, key)])
  }

  datatype TableStep = StartUp(key: string, now: int) | Fires(key: string, a: Attempt)

  function ApplyTable(missing: MissingRow, j: Jobs, w: World, e: TableStep): World
    requires Proper(j)
  {
    match e
    case StartUp(key, now) => if key in j.schedules then StartUpOn(j, w, key, now) else w
    case Fires(key, a) => if key in j.schedules then FireOn(missing, j, w, key, a) else w
  }

  function RunTable(missing: MissingRow, j: Jobs, w: World, trace: seq<TableStep>): World
    requires Proper(j)
    decreases |trace|
  {
    if trace == [] then w else RunTable(missing, j, ApplyTable(missing, j, w, trace[0]), trace[1..])
  }

  lemma {:induction false} RunTableAppend(missing: MissingRow, j: Jobs, w: World, xs: seq<TableStep>,
                                          ys: seq<TableStep>)
    requires Proper(j)
    ensures RunTable(missing, j, w, xs + ys) == RunTable(missing, j, RunTable(missing, j, w, xs), ys)
    decreases |xs|
  {
    if xs == [] {
      assert xs + ys == ys;
    } else {
      assert (xs + ys)[0] == xs[0] && (xs + ys)[1..] == xs[1..] + ys;
      RunTableAppend(missing, j, ApplyTable(missing, j, w, xs[0]), xs[1..], ys);
    }
  }

  lemma OneStep(missing: MissingRow, j: Jobs, w: World, e: TableStep)
    requires Proper(j)
    ensures RunTable(missing, j, w, [e]) == ApplyTable(missing, j, w, e)
  {
    assert [e][1..] == [];
  }

  // ---------------------------------------------------------------------------------------------
  // Which jobs run
  // ---------------------------------------------------------------------------------------------

  predicate RowsAreWritten(j: Jobs, w: World) {
    w.rows.Keys <= j.schedules.Keys
  }

  /** With a store that reports missing rows, a job whose name is not written never runs, whatever replicas
      start and fire. */
  lemma {:induction false} UnwrittenJobNeverRuns(j: Jobs, w: World, key: string, trace: seq<TableStep>)
    requires Proper(j) && RowsAreWritten(j, w) && NameRead(j, key) !in j.schedules
    requires forall r :: r in w.runs ==> r.key != key
    ensures forall r :: r in RunTable(NotFound, j, w, trace).runs ==> r.key != key
    decreases |trace|
  {
    if trace == [] {
    } else {
      UnwrittenJobNeverRuns(j, ApplyTable(NotFound, j, w, trace[0]), key, trace[1..]);
    }
  }

  ghost predicate RunsIn(missing: MissingRow, j: Jobs, key: string, trace: seq<TableStep>)
    requires Proper(j)
  {
    exists r :: r in RunTable(missing, j, EMPTY, trace).runs && r.key == key
  }

  lemma WrittenJobRuns(missing: MissingRow, j: Jobs, key: string)
    requires Proper(j) && key in j.schedules && NameRead(j, key) in j.schedules
    ensures exists trace :: RunsIn(missing, j, key, trace)
  {
    var name := NameRead(j, key);
    var ticks := j.schedules[name];
    var w := StartUpOn(j, EMPTY, name, 0);
    var a := Attempt(0, 1, w.rows[name].next, Succeeds);
    var trace := [StartUp(name, 0)] + [Fires(key, a)];
    RunTableAppend(missing, j, EMPTY, [StartUp(name, 0)], [Fires(key, a)]);
    OneStep(missing, j, EMPTY, StartUp(name, 0));
    OneStep(missing, j, w, Fires(key, a));
    assert JobRun(key, a.now) in FireOn(missing, j, w, key, a).runs;
    assert RunsIn(missing, j, key, trace);
  }

  /** From an empty table a job can run if and only if the name it looks for is written for some job. */
  lemma JobRunsExactlyIfItsNameIsWritten(j: Jobs, key: string)
    requires Proper(j) && key in j.schedules
    ensures (exists trace :: RunsIn(NotFound, j, key, trace)) <==> NameRead(j, key) in j.schedules
  {
    if NameRead(j, key) in j.schedules {
      WrittenJobRuns(NotFound, j, key);
    } else {
      forall trace ensures !RunsIn(NotFound, j, key, trace) {
        UnwrittenJobNeverRuns(j, EMPTY, key, trace);
      }
    }
  }

  /** No other job is keyed by the name that this one looks for. */
  predicate NameIsNotAnothers(j: Jobs, key: string) {
    NameRead(j, key) in j.schedules ==> NameRead(j, key) == key
  }

  /** So, unless the class of another job is named like the property, with an SQL store the job runs if and
      only if the property that holds the service has the name of its class. */
  lemma SqlJobRunsExactly(j: Jobs, className: string, functionName: string)
    requires Proper(j) && Free(className, ".") && Free(functionName, ".")
    requires KeyOf(className, functionName) in j.schedules && NameIsNotAnothers(j, KeyOf(className, functionName))
    ensures (exists trace :: RunsIn(NotFound, j, KeyOf(className, functionName), trace))
            <==> PropertyOf(j.services, className) == className
  {
    NamesAgreeExactly(j, className, functionName);
    JobRunsExactlyIfItsNameIsWritten(j, KeyOf(className, functionName));
  }

  /** The documented layout is one in which an SQL store never lets the job run. */
  lemma DocumentedLayoutNeverRuns(j: Jobs, functionName: string)
    requires Proper(j) && Free(functionName, ".")
    requires PropertyOf(j.services, "UserAccountServiceImpl") == "userAccountService"
    requires KeyOf("UserAccountServiceImpl", functionName) in j.schedules
    requires NameIsNotAnothers(j, KeyOf("UserAccountServiceImpl", functionName))
    ensures !exists trace :: RunsIn(NotFound, j, KeyOf("UserAccountServiceImpl", functionName), trace)
  {
    var className := "UserAccountServiceImpl";
    assert |className| != |"userAccountService"|;
    SqlJobRunsExactly(j, className, functionName);
  }

  /** The times at which the job ran. */
  function TimesOf(key: string, runs: seq<JobRun>): seq<int> {
    if runs == [] then []
    else
      var last := runs[|runs| - 1];
      TimesOf(key, runs[..|runs| - 1]) + if last.key == key then [last.at] else []
  }

  /** The times of the attempts at the job that succeed if they are let through. */
  function SuccessTimes(key: string, trace: seq<TableStep>): seq<int>
    decreases |trace|
  {
    if trace == [] then []
    else
      var e := trace[0];
      (if e.Fires? && e.key == key && e.a.outcome == Succeeds then [e.a.now] else []) + SuccessTimes(key, trace[1..])
  }

  lemma TimesAppend(key: string, runs: seq<JobRun>, r: JobRun)
    ensures TimesOf(key, runs + [r]) == TimesOf(key, runs) + if r.key == key then [r.at] else []
  {
    assert (runs + [r])[..|runs|] == runs;
  }

  lemma FireTimes(missing: MissingRow, j: Jobs, w: World, key: string, e: TableStep)
    requires Proper(j) && key in j.schedules && NameRead(j, key) !in w.rows && missing.Success?
    ensures TimesOf(key, ApplyTable(missing, j, w, e).runs) == TimesOf(key, w.runs) + SuccessTimes(key, [e])
  {
    assert [e][1..] == [];
    if e.Fires? && e.key in j.schedules {
      TimesAppend(key, w.runs, JobRun(e.key, e.a.now));
    }
  }

  lemma ConcatTimes(a: seq<int>, b: seq<int>, c: seq<int>)
    ensures a + b + c == a + (b + c)
  {
  }

  lemma SuccessHead(key: string, trace: seq<TableStep>)
    requires trace != []
    ensures SuccessTimes(key, trace) == SuccessTimes(key, [trace[0]]) + SuccessTimes(key, trace[1..])
  {
    assert [trace[0]][1..] == [];
  }

  lemma RowsStayWritten(missing: MissingRow, j: Jobs, w: World, e: TableStep)
    requires Proper(j) && RowsAreWritten(j, w)
    ensures RowsAreWritten(j, ApplyTable(missing, j, w, e))
  {
  }

  /** With MongoDB, which answers success for a missing row, such a job is run by every attempt of every
      replica at every instant, without any check. */
  lemma {:induction false} UnwrittenJobRunsEveryTime(j: Jobs, w: World, key: string, trace: seq<TableStep>)
    requires Proper(j) && RowsAreWritten(j, w) && key in j.schedules && NameRead(j, key) !in j.schedules
    ensures TimesOf(key, RunTable(Success, j, w, trace).runs) == TimesOf(key, w.runs) + SuccessTimes(key, trace)
    decreases |trace|
  {
    if trace == [] {
    } else {
      RowsStayWritten(Success, j, w, trace[0]);
      FireTimes(Success, j, w, key, trace[0]);
      UnwrittenJobRunsEveryTime(j, ApplyTable(Success, j, w, trace[0]), key, trace[1..]);
      SuccessHead(key, trace);
      ConcatTimes(TimesOf(key, w.runs), SuccessTimes(key, [trace[0]]), SuccessTimes(key, trace[1..]));
    }
  }

  // ---------------------------------------------------------------------------------------------
  // The row of a job whose names agree
  // ---------------------------------------------------------------------------------------------

  /** The job looks for the row that is written for it, and no other job does. */
  predicate OwnsRow(j: Jobs, key: string) {
    && key in j.schedules && NameRead(j, key) == key
    && forall other :: other in j.schedules && NameRead(j, other) == key ==> other == key
  }

  /** What a step of the table is to the row of the job. */
  function StepsOf(j: Jobs, key: string, e: TableStep): seq<Step>
    requires Proper(j) && key in j.schedules
  {
    match e
    case StartUp(k, now) => if k == key then [Restarted(now, FirstAfter(j.schedules[key], now, 0))] else []
    case Fires(k, a) => if k == key then [Attempted(a)] else []
  }

  function AllStepsOf(j: Jobs, key: string, trace: seq<TableStep>): seq<Step>
    requires Proper(j) && key in j.schedules
    decreases |trace|
  {
    if trace == [] then [] else StepsOf(j, key, trace[0]) + AllStepsOf(j, key, trace[1..])
  }

  lemma RowFollowsStep(missing: MissingRow, j: Jobs, key: string, w: World, e: TableStep)
    requires Proper(j) && OwnsRow(j, key) && key in w.rows
    ensures var w1 := ApplyTable(missing, j, w, e);
            key in w1.rows && w1.rows[key] == RunSteps(j.schedules[key], w.rows[key], StepsOf(j, key, e))
  {
    var steps := StepsOf(j, key, e);
    if steps != [] {
      assert steps[1..] == [];
    }
  }

  lemma {:induction false} RunStepsAppend(ticks: Ticks, s: State, xs: seq<Step>, ys: seq<Step>)
    ensures RunSteps(ticks, s, xs + ys) == RunSteps(ticks, RunSteps(ticks, s, xs), ys)
    decreases |xs|
  {
    if xs == [] {
      assert xs + ys == ys;
    } else {
      assert (xs + ys)[0] == xs[0] && (xs + ys)[1..] == xs[1..] + ys;
      RunStepsAppend(ticks, ApplyStep(ticks, s, xs[0]), xs[1..], ys);
    }
  }

  /** The row of a job whose names agree changes as a single row does, whatever happens to the other rows. */
  lemma {:induction false} RowFollowsSteps(missing: MissingRow, j: Jobs, key: string, w: World, trace: seq<TableStep>)
    requires Proper(j) && OwnsRow(j, key) && key in w.rows
    ensures var r := RunTable(missing, j, w, trace);
            key in r.rows && r.rows[key] == RunSteps(j.schedules[key], w.rows[key], AllStepsOf(j, key, trace))
    decreases |trace|
  {
    if trace == [] {
    } else {
      RowFollowsStep(missing, j, key, w, trace[0]);
      RowFollowsSteps(missing, j, key, ApplyTable(missing, j, w, trace[0]), trace[1..]);
      RunStepsAppend(j.schedules[key], w.rows[key], StepsOf(j, key, trace[0]), AllStepsOf(j, key, trace[1..]));
    }
  }

  /** The steps of the table, as they concern the job, are such that restarts do no harm. */
  ghost predicate HarmlessFor(j: Jobs, key: string, s: State, clock: int, trace: seq<TableStep>)
    requires Proper(j) && key in j.schedules
  {
    var steps := AllStepsOf(j, key, trace);
    StepsOk(j.schedules[key], s, steps) && StepsInOrder(clock, steps)
  }

  /** If the names agree, start-ups may happen anywhere between the attempts and still no instant runs
      twice, provided the attempts that commit are timely and claim no instant before it has come. */
  lemma StartUpsKeepClaimsIncreasing(missing: MissingRow, j: Jobs, key: string, w: World, clock: int,
                                     trace: seq<TableStep>)
    requires Proper(j) && OwnsRow(j, key) && key in w.rows && HarmlessFor(j, key, w.rows[key], clock, trace)
    requires StrictlyIncreasing(w.rows[key].claims) && AllBefore(w.rows[key].claims, w.rows[key].next)
    requires forall i :: 0 <= i < |w.rows[key].claims| ==> w.rows[key].claims[i].instant <= clock
    ensures key in RunTable(missing, j, w, trace).rows
    ensures StrictlyIncreasing(RunTable(missing, j, w, trace).rows[key].claims)
  {
    RowFollowsSteps(missing, j, key, w, trace);
    RestartsKeepClaimsIncreasing(j.schedules[key], w.rows[key], clock, AllStepsOf(j, key, trace));
  }

  function StartUpAndRepeat(ticks: Ticks, key: string, i: nat, now: int): seq<TableStep> {
    [StartUp(key, now), Fires(key, Punctual(ticks, i, now))]
  }

  lemma StartUpIsRestart(j: Jobs, key: string, i: nat, now: int)
    requires Proper(j) && key in j.schedules && IsFirstAfter(j.schedules[key], now, i)
    ensures AllStepsOf(j, key, StartUpAndRepeat(j.schedules[key], key, i, now)) ==
            RestartAndRepeat(j.schedules[key], i, now)
  {
    var ticks := j.schedules[key];
    var trace := StartUpAndRepeat(ticks, key, i, now);
    FirstAfterIsUnique(ticks, now, FirstAfter(ticks, now, 0), i);
    assert trace[1..] == [trace[1]] && [trace[1]][1..] == [];
    assert AllStepsOf(j, key, [trace[1]]) == StepsOf(j, key, trace[1]) + [];
  }

  /** If the names agree, then after a timely claim some start-ups and attempts that follow in order run an
      instant twice if and only if the instant was claimed before it had come. */
  lemma StartUpRepeatsExactly(missing: MissingRow, j: Jobs, key: string, w: World, i: nat, a: Attempt)
    requires Proper(j) && OwnsRow(j, key) && key in w.rows && w.rows[key].next == j.schedules[key](i)
    requires Commits(w.rows[key], a) && Timely(j.schedules[key], a)
    requires StrictlyIncreasing(w.rows[key].claims) && AllBefore(w.rows[key].claims, w.rows[key].next)
    requires forall c :: 0 <= c < |w.rows[key].claims| ==> w.rows[key].claims[c].instant <= a.now
    ensures (exists trace :: RepeatsAfter(missing, j, key, FireOn(missing, j, w, key, a), a.now, trace))
            <==> a.now < w.rows[key].next
  {
    var ticks, s, w1 := j.schedules[key], w.rows[key], FireOn(missing, j, w, key, a);
    assert w1.rows[key] == Apply(ticks, s, a);
    RestartRepeatsExactly(ticks, s, i, a);
    if a.now < s.next {
      var trace := StartUpAndRepeat(ticks, key, i, a.now);
      assert i > 0 ==> ticks(i - 1) + 1000 <= ticks(i);
      EarlyClaimIsRepeated(ticks, s, i, a);
      StartUpIsRestart(j, key, i, a.now);
      RowFollowsSteps(missing, j, key, w1, trace);
      assert RepeatsAfter(missing, j, key, w1, a.now, trace);
    } else {
      forall trace ensures !RepeatsAfter(missing, j, key, w1, a.now, trace) {
        if HarmlessFor(j, key, w1.rows[key], a.now, trace) {
          RowFollowsSteps(missing, j, key, w1, trace);
        }
      }
    }
  }

  ghost predicate RepeatsAfter(missing: MissingRow, j: Jobs, key: string, w: World, clock: int, trace: seq<TableStep>)
    requires Proper(j) && key in j.schedules && key in w.rows
  {
    && HarmlessFor(j, key, w.rows[key], clock, trace)
    && var r := RunTable(missing, j, w, trace);
       key in r.rows && !StrictlyIncreasing(r.rows[key].claims)
  }

  /** If the names agree, a start-up before instant i makes a job run at that instant which a missed instant
      had stopped. */
  lemma StartUpRevivesTheJob(missing: MissingRow, j: Jobs, key: string, w: World, i: nat, now: int)
    requires Proper(j) && OwnsRow(j, key) && IsFirstAfter(j.schedules[key], now, i)
    ensures var ticks, r := j.schedules[key], RunTable(missing, j, w, StartUpAndRepeat(j.schedules[key], key, i, now));
            && key in r.rows && r.rows[key].next == ticks(i + 1)
            && r.runs == w.runs + [JobRun(key, Punctual(ticks, i, now).now)]
  {
    var ticks := j.schedules[key];
    var a, w1 := Punctual(ticks, i, now), StartUpOn(j, w, key, now);
    FirstAfterIsUnique(ticks, now, FirstAfter(ticks, now, 0), i);
    assert StartUpAndRepeat(ticks, key, i, now) == [StartUp(key, now)] + [Fires(key, a)];
    RunTableAppend(missing, j, w, [StartUp(key, now)], [Fires(key, a)]);
    OneStep(missing, j, w, StartUp(key, now));
    OneStep(missing, j, w1, Fires(key, a));
    assert w1.rows[key].next == ticks(i);
    assert ticks(i) + 1000 <= ticks(i + 1);
    assert i > 0 ==> ticks(i - 1) + 1000 <= ticks(i);
  }

  // ---------------------------------------------------------------------------------------------
  // Start-up and callback
  // ---------------------------------------------------------------------------------------------

  /** The iterator of the cron parser, created once per firing. */
  class CronInterval {
    const ticks: Ticks
    const base: nat
    var calls: nat

    constructor (ticks: Ticks, base: nat, now: int)
      requires ticks(base) <= now < ticks(base + 1)
      ensures this.ticks == ticks && this.base == base && calls == 0
    {
      this.ticks, this.base, calls := ticks, base, 0;
    }

    method Next() returns (instant: int)
      modifies this
      ensures calls == old(calls) + 1 && instant == ticks(base + calls)
    {
      calls := calls + 1;
      instant := ticks(base + calls);
    }
  }

  datatype Row = Row(next: int, last: int)

  /** The rows without their history. */
  ghost predicate Shows(rows: map<string, Row>, w: World) {
    rows.Keys == w.rows.Keys && forall name :: name in rows ==> rows[name] == Row(w.rows[name].next, w.rows[name].last)
  }

  datatype UpdateResult = Updated | BadRequest | NoSuchRow | Failed

  /** The table behind a transactional store. */
  class ScheduleStore {
    const missing: MissingRow
    var rows: map<string, Row>
    var inTransaction: bool
    var saved: map<string, Row>
    ghost var world: World

    ghost predicate Valid()
      reads this
    {
      !inTransaction && Shows(rows, world)
    }

    constructor (missing: MissingRow)
      ensures Valid() && this.missing == missing && world == EMPTY
    {
      this.missing, rows, inTransaction, world := missing, map[], false, EMPTY;
    }

    method Begin()
      requires !inTransaction
      modifies `inTransaction, `saved
      ensures inTransaction && saved == rows
    {
      inTransaction, saved := true, rows;
    }

    method Rollback()
      requires inTransaction
      modifies `inTransaction, `rows
      ensures !inTransaction && rows == saved
    {
      inTransaction, rows := false, saved;
    }

    method Commit()
      requires inTransaction
      modifies `inTransaction
      ensures !inTransaction
    {
      inTransaction := false;
    }

    /** Creates the row, or overwrites it. */
    method Put(name: string, row: Row)
      requires inTransaction
      modifies `rows
      ensures rows == old(rows)[name := row]
    {
      rows := rows[name := row];
    }

    /** Read the row by name, evaluate the pre-hook, write. */
    method UpdateByFilters(name: string, now: int, instant: int, outcome: Outcome) returns (r: UpdateResult)
      requires inTransaction
      modifies `rows
      ensures r == if outcome == UpdateFails then Failed
                   else if name !in old(rows) then (if missing.Success? then Updated else NoSuchRow)
                   else if InWindow(old(rows)[name].next, now) then Updated else BadRequest
      ensures rows == if r == Updated && name in old(rows) then old(rows)[name := Row(instant, now)] else old(rows)
    {
      if outcome == UpdateFails {
        return Failed;
      }
      if name !in rows {
        return if missing.Success? then Updated else NoSuchRow;
      }
      if !InWindow(rows[name].next, now) {
        return BadRequest;
      }
      rows := rows[name := Row(instant, now)];
      r := Updated;
    }
  }

  /** The start-up transaction of one job. */
  method InitializeRow(store: ScheduleStore, j: Jobs, key: string, now: int)
    requires Proper(j) && store.Valid() && key in j.schedules
    modifies store
    ensures store.Valid() && store.world == StartUpOn(j, old(store.world), key, now)
  {
    var ticks := j.schedules[key];
    store.Begin();
    store.Put(key, Row(ticks(FirstAfter(ticks, now, 0)), 120000));
    store.Commit();
    store.world := StartUpOn(j, store.world, key, now);
  }

  /** A start-up: one transaction for every job, in any order. */
  method InitializeTable(store: ScheduleStore, j: Jobs, now: int) returns (ghost keys: seq<string>)
    requires Proper(j) && store.Valid()
    modifies store
    ensures store.Valid() && store.world == RunTable(store.missing, j, old(store.world), StartUps(keys, now))
    ensures (forall key :: key in keys <==> key in j.schedules) && |keys| == |j.schedules|
  {
    ghost var before := store.world;
    var left := j.schedules.Keys;
    keys := [];
    while left != {}
      invariant store.Valid() && store.world == RunTable(store.missing, j, before, StartUps(keys, now))
      invariant left <= j.schedules.Keys && forall key :: key in keys <==> key in j.schedules && key !in left
      invariant |keys| + |left| == |j.schedules.Keys|
      decreases |left|
    {
      var key :| key in left;
      InitializeRow(store, j, key, now);
      RunTableAppend(store.missing, j, before, StartUps(keys, now), [StartUp(key, now)]);
      OneStep(store.missing, j, RunTable(store.missing, j, before, StartUps(keys, now)), StartUp(key, now));
      assert StartUps(keys + [key], now) == StartUps(keys, now) + [StartUp(key, now)];
      keys, left := keys + [key], left - {key};
    }
  }

  function StartUps(keys: seq<string>, now: int): (r: seq<TableStep>)
    ensures |r| == |keys| && forall i :: 0 <= i < |r| ==> r[i] == StartUp(keys[i], now)
  {
    seq(|keys|, i requires 0 <= i < |keys| => StartUp(keys[i], now))
  }

  /** The transaction of one iteration for the row with this name. */
  method ClaimAndRun(store: ScheduleStore, name: string, key: string, interval: CronInterval, now: int,
                     outcome: Outcome)
    returns (done: bool)
    requires store.Valid() && outcome != BeginFails
    modifies store, interval
    ensures store.Valid() && interval.calls == old(interval.calls) + 1
    ensures var a := Attempt(interval.base, interval.calls, now, outcome);
            && store.world == FireAt(store.missing, interval.ticks, old(store.world), name, key, a)
            && done == StopsOn(store.missing, old(store.world), name, a)
  {
    store.Begin();
    var instant := interval.Next();
    var updated := store.UpdateByFilters(name, now, instant, outcome);
    var error := updated == Failed || updated == NoSuchRow || (updated == Updated && outcome == JobFails);
    ghost var w, a := store.world, Attempt(interval.base, interval.calls, now, outcome);
    if error || outcome == CommitFails {
      store.Rollback();
      WithoutSuccess(store.missing, interval.ticks, w, name, key, a);
      return false;
    }
    store.Commit();
    WithoutSuccess(store.missing, interval.ticks, w, name, key, a);
    SuccessShows(store.missing, interval.ticks, store.saved, w, name, key, a);
    store.world := FireAt(store.missing, interval.ticks, w, name, key, a);
    done := true;
  }

  lemma SuccessShows(missing: MissingRow, ticks: Ticks, rows: map<string, Row>, w: World, name: string, key: string,
                     a: Attempt)
    requires Shows(rows, w)
    ensures a.outcome == Succeeds ==> Shows(if name in rows && InWindow(rows[name].next, a.now)
                  then rows[name := Row(ticks(a.base + a.number), a.now)] else rows,
                  FireAt(missing, ticks, w, name, key, a))
  {
  }

  /** One iteration of the retry loop.  The result says whether the loop stops: after a job that succeeded,
      and after one that was not to run because the clock is half a second or more away from the row's instant,
      unless the transaction could not begin, update or commit.  A missing row is an error where the store
      says so. */
  method TryClaimAndRun(store: ScheduleStore, j: Jobs, key: string, interval: CronInterval, now: int, outcome: Outcome)
    returns (done: bool)
    requires store.Valid() && key in j.schedules && interval.ticks == j.schedules[key]
    modifies store, interval
    ensures store.Valid()
    ensures interval.calls == old(interval.calls) + if outcome == BeginFails then 0 else 1
    ensures var a := Attempt(interval.base, interval.calls, now, outcome);
            && store.world == FireOn(store.missing, j, old(store.world), key, a)
            && done == StopsOn(store.missing, old(store.world), NameRead(j, key), a)
    ensures var rows, name := old(store.world).rows, NameRead(j, key);
            done <==>
              if name !in rows then store.missing == Success && outcome == Succeeds
              else outcome == Succeeds
                   || (outcome == JobFails && (now <= rows[name].next - 500 || rows[name].next + 500 <= now))
  {
    if outcome == BeginFails {
      WithoutSuccess(store.missing, interval.ticks, store.world, NameRead(j, key), key,
                     Attempt(interval.base, interval.calls, now, outcome));
      return false;
    }
    done := ClaimAndRun(store, NameRead(j, key), key, interval, now, outcome);
  }

  /** An attempt that does not succeed leaves the table alone. */
  lemma WithoutSuccess(missing: MissingRow, ticks: Ticks, w: World, name: string, key: string, a: Attempt)
    ensures a.outcome != Succeeds ==> FireAt(missing, ticks, w, name, key, a) == w
  {
    if name in w.rows {
      assert w.rows[name := w.rows[name]] == w.rows;
    }
  }

  /** What happens around one iteration: what other replicas do while this one waits, then the time and
      the outcome of its own attempt. */
  datatype Turn = Turn(others: seq<TableStep>, now: int, outcome: Outcome)

  function AttemptOf(base: nat, calls: nat, t: Turn): Attempt {
    Attempt(base, if t.outcome == BeginFails then calls else calls + 1, t.now, t.outcome)
  }

  /** The interleaving a firing produces. */
  function Interleaving(missing: MissingRow, j: Jobs, w: World, key: string, base: nat, calls: nat,
                        turns: seq<Turn>): seq<TableStep>
    requires Proper(j) && key in j.schedules
    decreases |turns|
  {
    if turns == [] then []
    else
      var w1, a := RunTable(missing, j, w, turns[0].others), AttemptOf(base, calls, turns[0]);
      turns[0].others + [Fires(key, a)] +
      (if StopsOn(missing, w1, NameRead(j, key), a) then []
       else Interleaving(missing, j, FireOn(missing, j, w1, key, a), key, base, a.number, turns[1..]))
  }

  /** An attempt of another replica, seen from one that waits. */
  method OtherFires(store: ScheduleStore, j: Jobs, key: string, a: Attempt)
    requires store.Valid() && key in j.schedules
    modifies store
    ensures store.Valid() && store.world == FireOn(store.missing, j, old(store.world), key, a)
  {
    var name := NameRead(j, key);
    if name in store.rows && a.outcome == Succeeds && InWindow(store.rows[name].next, a.now) {
      store.rows := store.rows[name := Row(j.schedules[key](a.base + a.number), a.now)];
    }
    store.world := FireOn(store.missing, j, store.world, key, a);
  }

  /** What other replicas do, seen from one that waits. */
  method OthersRun(store: ScheduleStore, j: Jobs, others: seq<TableStep>)
    requires Proper(j) && store.Valid()
    modifies store
    ensures store.Valid() && store.world == RunTable(store.missing, j, old(store.world), others)
  {
    ghost var final := RunTable(store.missing, j, store.world, others);
    for i := 0 to |others|
      invariant store.Valid() && RunTable(store.missing, j, store.world, others[i..]) == final
    {
      assert others[i..][0] == others[i] && others[i..][1..] == others[i + 1..];
      match others[i] {
        case StartUp(key, now) =>
          if key in j.schedules {
            InitializeRow(store, j, key, now);
          }
        case Fires(key, a) =>
          if key in j.schedules {
            OtherFires(store, j, key, a);
          }
      }
    }
  }

  /** What a firing does to the table. */
  function Fired(missing: MissingRow, j: Jobs, w: World, key: string, base: nat, calls: nat, turns: seq<Turn>): World
    requires Proper(j) && key in j.schedules
    decreases |turns|
  {
    if turns == [] then w
    else
      var w1, a := RunTable(missing, j, w, turns[0].others), AttemptOf(base, calls, turns[0]);
      var w2 := FireOn(missing, j, w1, key, a);
      if StopsOn(missing, w1, NameRead(j, key), a) then w2 else Fired(missing, j, w2, key, base, a.number, turns[1..])
  }

  /** The retry loop of one firing: attempts until one says stop or the turns are used up. */
  method Fire(store: ScheduleStore, j: Jobs, key: string, interval: CronInterval, turns: seq<Turn>)
    requires Proper(j) && store.Valid() && key in j.schedules && interval.ticks == j.schedules[key]
    modifies store, interval
    ensures store.Valid()
    ensures store.world == Fired(store.missing, j, old(store.world), key, interval.base, old(interval.calls), turns)
  {
    ghost var base := interval.base;
    ghost var final := Fired(store.missing, j, store.world, key, interval.base, interval.calls, turns);
    for i := 0 to |turns|
      invariant store.Valid()
      invariant Fired(store.missing, j, store.world, key, base, interval.calls, turns[i..]) == final
    {
      assert turns[i..][0] == turns[i] && turns[i..][1..] == turns[i + 1..];
      OthersRun(store, j, turns[i].others);
      var done := TryClaimAndRun(store, j, key, interval, turns[i].now, turns[i].outcome);
      if done {
        return;
      }
    }
  }

  /** A firing is a run of the table: its attempts, interleaved with what other replicas do. */
  lemma {:induction false} FiredIsRun(missing: MissingRow, j: Jobs, w: World, key: string, base: nat, calls: nat,
                                      turns: seq<Turn>)
    requires Proper(j) && key in j.schedules
    ensures Fired(missing, j, w, key, base, calls, turns)
            == RunTable(missing, j, w, Interleaving(missing, j, w, key, base, calls, turns))
    decreases |turns|
  {
    if turns == [] {
    } else {
      var others := turns[0].others;
      var w1, a := RunTable(missing, j, w, others), AttemptOf(base, calls, turns[0]);
      var w2 := FireOn(missing, j, w1, key, a);
      var rest := if StopsOn(missing, w1, NameRead(j, key), a) then []
                  else Interleaving(missing, j, w2, key, base, a.number, turns[1..]);
      RunTableAppend(missing, j, w, others + [Fires(key, a)], rest);
      RunTableAppend(missing, j, w, others, [Fires(key, a)]);
      OneStep(missing, j, w1, Fires(key, a));
      if rest != [] || !StopsOn(missing, w1, NameRead(j, key), a) {
        FiredIsRun(missing, j, w2, key, base, a.number, turns[1..]);
      }
    }
  }

  // ---------------------------------------------------------------------------------------------
  // Retries
  // ---------------------------------------------------------------------------------------------

  /** The turn's own attempt fails in a way that is tried again, for the row that it finds: the transaction
      cannot begin, update or commit, or the job is run and fails, or there is no row and that is an error. */
  predicate TriedAgain(missing: MissingRow, rows: map<string, State>, name: string, now: int, outcome: Outcome) {
    || outcome == BeginFails || outcome == UpdateFails || outcome == CommitFails
    || (outcome == JobFails && (name in rows ==> rows[name].next - 500 < now < rows[name].next + 500))
    || (name !in rows && missing == NotFound)
  }

  /** After such a turn the table is as the others left it and the next turn is taken, with one call of
      `next()` more unless the transaction did not begin.  After any other turn no further turn is taken. */
  lemma FailedTurnIsFollowed(missing: MissingRow, j: Jobs, w: World, key: string, base: nat, calls: nat,
                             turns: seq<Turn>)
    requires Proper(j) && key in j.schedules && turns != []
    ensures var w1, t := RunTable(missing, j, w, turns[0].others), turns[0];
            if TriedAgain(missing, w1.rows, NameRead(j, key), t.now, t.outcome) then
              Fired(missing, j, w, key, base, calls, turns) ==
              Fired(missing, j, w1, key, base, if t.outcome == BeginFails then calls else calls + 1, turns[1..])
            else
              Fired(missing, j, w, key, base, calls, turns) == Fired(missing, j, w, key, base, calls, [t])
  {
    var w1, t, a := RunTable(missing, j, w, turns[0].others), turns[0], AttemptOf(base, calls, turns[0]);
    WithoutSuccess(missing, j.schedules[key], w1, NameRead(j, key), key, a);
    assert [t][1..] == [];
  }

  /** How many of the turns call `next()`. */
  function Begun(turns: seq<Turn>): nat {
    if turns == [] then 0 else (if turns[0].outcome == BeginFails then 0 else 1) + Begun(turns[1..])
  }

  /** Turn i claims the row after turns that failed and are tried again, with no other replica in between. */
  ghost predicate ClaimsAtTurn(missing: MissingRow, rows: map<string, State>, name: string, turns: seq<Turn>, i: nat) {
    && i < |turns| && (forall h :: 0 <= h <= i ==> turns[h].others == [])
    && (forall h :: 0 <= h < i ==> TriedAgain(missing, rows, name, turns[h].now, turns[h].outcome))
    && turns[i].outcome == Succeeds
    && (name in rows ==> rows[name].next - 500 < turns[i].now < rows[name].next + 500)
    && (name !in rows ==> missing == Success)
  }

  /** The table after a claim at the instant that n calls of `next()` lead to. */
  ghost predicate Claimed(j: Jobs, w: World, r: World, key: string, base: nat, n: nat, now: int)
    requires key in j.schedules
  {
    var name := NameRead(j, key);
    && r.runs == w.runs + [JobRun(key, now)]
    && r.rows == if name !in w.rows then w.rows
                 else w.rows[name := State(j.schedules[key](base + n), now,
                                           w.rows[name].claims + [Claim(w.rows[name].next, now)])]
  }

  lemma FirstTurnClaims(missing: MissingRow, j: Jobs, w: World, key: string, base: nat, calls: nat, turns: seq<Turn>)
    requires Proper(j) && key in j.schedules && ClaimsAtTurn(missing, w.rows, NameRead(j, key), turns, 0)
    ensures Claimed(j, w, Fired(missing, j, w, key, base, calls, turns), key, base, calls + 1, turns[0].now)
  {
    assert RunTable(missing, j, w, turns[0].others) == w;
  }

  lemma BegunBehind(turns: seq<Turn>, i: nat)
    requires 0 < i < |turns|
    ensures Begun(turns[..i + 1]) == (if turns[0].outcome == BeginFails then 0 else 1) + Begun(turns[1..][..i])
  {
    assert turns[..i + 1][1..] == turns[1..][..i];
  }

  lemma ClaimsAtTurnBehind(missing: MissingRow, rows: map<string, State>, name: string, turns: seq<Turn>, i: nat)
    requires ClaimsAtTurn(missing, rows, name, turns, i) && i > 0
    ensures ClaimsAtTurn(missing, rows, name, turns[1..], i - 1)
  {
    assert turns[1..][i - 1] == turns[i];
  }

  /** Then the firing ends with that claim: the row is at the instant that as many calls of `next()` lead to,
      and the job has run once more. */
  lemma {:induction false} FirstSuccessClaims(missing: MissingRow, j: Jobs, w: World, key: string, base: nat,
                                              calls: nat, turns: seq<Turn>, i: nat)
    requires Proper(j) && key in j.schedules && ClaimsAtTurn(missing, w.rows, NameRead(j, key), turns, i)
    ensures Claimed(j, w, Fired(missing, j, w, key, base, calls, turns), key, base, calls + Begun(turns[..i + 1]),
                    turns[i].now)
    decreases i
  {
    if i == 0 {
      FirstTurnClaims(missing, j, w, key, base, calls, turns);
      assert turns[..1][1..] == [] && turns[..1][0] == turns[0];
    } else {
      assert RunTable(missing, j, w, turns[0].others) == w;
      FailedTurnIsFollowed(missing, j, w, key, base, calls, turns);
      BegunBehind(turns, i);
      ClaimsAtTurnBehind(missing, w.rows, NameRead(j, key), turns, i);
      var next := if turns[0].outcome == BeginFails then calls else calls + 1;
      FirstSuccessClaims(missing, j, w, key, base, next, turns[1..], i - 1);
    }
  }

  lemma BothBegun(turns: seq<Turn>)
    requires |turns| == 2 && turns[0].outcome != BeginFails && turns[1].outcome != BeginFails
    ensures Begun(turns[..2]) == 2
  {
    var last := turns[1..];
    assert turns[..2] == turns && last[1..] == [];
    assert Begun(last) == 1;
  }

  /** A job that fails inside the window and succeeds, still inside it, at the second attempt moves the row
      past the next instant to the one after. */
  lemma SecondAttemptMovesByTwo(missing: MissingRow, j: Jobs, w: World, key: string, base: nat, turns: seq<Turn>)
    requires Proper(j) && key in j.schedules && NameRead(j, key) in w.rows
    requires |turns| == 2 && turns[0].others == turns[1].others == []
    requires turns[0].outcome == JobFails && turns[1].outcome == Succeeds
    requires forall i :: 0 <= i < 2 ==>
               w.rows[NameRead(j, key)].next - 500 < turns[i].now < w.rows[NameRead(j, key)].next + 500
    ensures var r := Fired(missing, j, w, key, base, 0, turns);
            && r.runs == w.runs + [JobRun(key, turns[1].now)]
            && NameRead(j, key) in r.rows && r.rows[NameRead(j, key)].next == j.schedules[key](base + 2)
  {
    FirstSuccessClaims(missing, j, w, key, base, 0, turns, 1);
    BothBegun(turns);
  }

  /** Without a row, in a store that answers success for it, the second attempt runs the job. */
  lemma SecondAttemptRunsWithoutRow(j: Jobs, w: World, key: string, base: nat, turns: seq<Turn>)
    requires Proper(j) && key in j.schedules && NameRead(j, key) !in w.rows
    requires |turns| == 2 && turns[0].others == turns[1].others == []
    requires turns[0].outcome == JobFails && turns[1].outcome == Succeeds
    ensures var r := Fired(Success, j, w, key, base, 0, turns);
            r.rows == w.rows && r.runs == w.runs + [JobRun(key, turns[1].now)]
  {
    var missing := Success;
    assert ClaimsAtTurn(missing, w.rows, NameRead(j, key), turns, 1);
    FirstSuccessClaims(missing, j, w, key, base, 0, turns, 1);
  }
}
