/** The 30-second cache of the system trading mode, under any interleaving of readers and mode changes. */
module ModeCache {
  import opened Common

  const TTL: real := 30.0  // seconds

  /** What a lookup at time `now` returns, if the entry is fresh and not empty. */
  function Hit(value: string, loadedAt: real, now: real): Option<string> {
    if now - loadedAt < TTL && value != "" then Some(value) else None
  }

  /** The module-level dictionary. */
  class Cache {
    var value: string
    var loadedAt: real

    constructor ()
      ensures value == "" && loadedAt == 0.0
    {
      value, loadedAt := "", 0.0;
    }

    /** One uninterrupted read. `fetched` is the database's answer, None if the query fails. */
    method GetMode(now: real, fetched: Option<string>, fallback: string) returns (mode: string)
      modifies this
      ensures var hit := Hit(old(value), old(loadedAt), now);
              var loaded := if fetched.Some? then fetched.value else fallback;
              if hit.Some? then mode == hit.value && value == old(value) && loadedAt == old(loadedAt)
              else mode == loaded && value == loaded && loadedAt == now
    {
      if now - loadedAt < TTL && value != "" { return value; }
      if fetched.Some? { mode := fetched.value; } else { mode := fallback; }
      value := mode;
      loadedAt := now;
    }

    /** Forget when the entry was loaded; the value itself stays. */
    method Invalidate()
      modifies this
      ensures loadedAt == 0.0 && value == old(value)
    {
      loadedAt := 0.0;
    }
  }

  // ---- Concurrent readers and writers ----

  /** The value the database held at some point of an instant. */
  datatype Observation = Observation(at: real, value: string)

  /** A read in progress: when it began (clock and step number) and what it has fetched. */
  datatype Reader =
    | Fetching(start: real, born: nat)
    | Fetched(start: real, born: nat, value: string)

  /** A finished read. */
  datatype Output = Output(value: string, began: real, ended: real, born: nat)

  /** A failed query: its instant and step number. */
  datatype Failure = Failure(at: real, step: nat)

  datatype State = State(
    clock: real, db: string, value: string, loadedAt: real,
    readers: map<int, Reader>, outputs: seq<Output>, steps: nat,
    held: set<Observation>,  // everything the database has held, with its instants
    failures: set<Failure>   // every failed query
  )

  datatype Action =
    | Tick(seconds: real)
    | Begin(r: int)               // look the cache up; a miss starts a fetch
    | Fetch(r: int, ok: bool)     // query the database
    | Install(r: int)             // store the fetched value with the read's start time, and return it
    | Upsert(mode: string)        // first half of a mode change
    | Invalidate                  // second half

  function Next(st: State, a: Action, fallback: string): State {
    match a
    case Tick(seconds) => if seconds < 0.0 then st else st.(clock := st.clock + seconds)
    case Begin(r) =>
      if r in st.readers then st
      else
        var hit := Hit(st.value, st.loadedAt, st.clock);
        if hit.Some?
        then st.(outputs := st.outputs + [Output(hit.value, st.clock, st.clock, st.steps)])
        else st.(readers := st.readers[r := Fetching(st.clock, st.steps)])
    case Fetch(r, ok) =>
      if r !in st.readers || !st.readers[r].Fetching? then st
      else
        var rd := st.readers[r];
        if ok then st.(readers := st.readers[r := Fetched(rd.start, rd.born, st.db)])
        else
          st.(readers := st.readers[r := Fetched(rd.start, rd.born, fallback)],
              failures := st.failures + {Failure(st.clock, st.steps)})
    case Install(r) =>
      if r !in st.readers || !st.readers[r].Fetched? then st
      else
        var rd := st.readers[r];
        st.(value := rd.value, loadedAt := rd.start, readers := st.readers - {r},
            outputs := st.outputs + [Output(rd.value, rd.start, st.clock, rd.born)])
    case Upsert(mode) => st.(db := mode)
    case Invalidate => st.(loadedAt := 0.0)
  }

  /** One step, recording what the database holds after it. */
  function Step(st: State, a: Action, fallback: string): State {
    var s := Next(st, a, fallback);
    s.(held := s.held + {Observation(s.clock, s.db)}, steps := s.steps + 1)
  }

  function RunFrom(st: State, actions: seq<Action>, fallback: string): State {
    if actions == [] then st
    else Step(RunFrom(st, actions[..|actions| - 1], fallback), actions[|actions| - 1], fallback)
  }

  function Initial(clock: real, db: string): State {
    State(clock, db, "", 0.0, map[], [], 0, {Observation(clock, db)}, {})
  }

  /** Without interleaving, the three steps of a read do what `Cache.GetMode` does. */
  lemma UninterruptedRead(st: State, r: int, ok: bool, fallback: string)
    requires r !in st.readers
    ensures var s := RunFrom(st, [Begin(r), Fetch(r, ok), Install(r)], fallback);
            var hit, loaded := Hit(st.value, st.loadedAt, st.clock), if ok then st.db else fallback;
            var mode := if hit.Some? then hit.value else loaded;
            && s.outputs == st.outputs + [Output(mode, st.clock, st.clock, st.steps)]
            && s.value == (if hit.Some? then st.value else loaded)
            && s.loadedAt == (if hit.Some? then st.loadedAt else st.clock)
            && s.readers == st.readers && s.db == st.db && s.clock == st.clock
  {
    var actions := [Begin(r), Fetch(r, ok), Install(r)];
    assert actions[..2] == [Begin(r), Fetch(r, ok)] && actions[..2][..1] == [Begin(r)] && [Begin(r)][..0] == [];
    var one := Step(st, Begin(r), fallback);
    var two := Step(one, Fetch(r, ok), fallback);
    assert RunFrom(st, [Begin(r)], fallback) == Step(RunFrom(st, [], fallback), Begin(r), fallback) == one;
    assert RunFrom(st, actions[..2], fallback) == two;
    assert RunFrom(st, actions, fallback) == Step(two, Install(r), fallback);
  }

  /** The value was the database's, or the fallback of a failed read, at an instant in [from, to]. */
  ghost predicate Witnessed(st: State, v: string, from: real, to: real, fallback: string) {
    exists t: real :: from <= t <= to && HeldAt(st, v, t, fallback)
  }

  ghost predicate HeldAt(st: State, v: string, t: real, fallback: string) {
    Observation(t, v) in st.held || (v == fallback && FailedAt(st, t))
  }

  ghost predicate FailedAt(st: State, t: real) { exists step: nat :: Failure(t, step) in st.failures }

  ghost predicate ReaderOk(st: State, rd: Reader, fallback: string) {
    && 0.0 <= rd.start <= st.clock && rd.born < st.steps
    && (rd.Fetched? ==> Witnessed(st, rd.value, rd.start, st.clock, fallback))
  }

  /** A read that began at `began` returned a value current less than 30 seconds before, or later. */
  ghost predicate OutputOk(st: State, o: Output, fallback: string) {
    && o.began <= o.ended <= st.clock && o.born < st.steps
    && exists t: real :: o.began - 30.0 < t <= o.ended && HeldAt(st, o.value, t, fallback)
  }

  ghost predicate Invariant(st: State, fallback: string) {
    && 0.0 <= st.loadedAt && 0.0 <= st.clock
    && Observation(st.clock, st.db) in st.held
    && (forall f :: f in st.failures ==> f.at <= st.clock && f.step < st.steps)
    && (st.value != "" ==> Witnessed(st, st.value, st.loadedAt, st.clock, fallback))
    && (forall r :: r in st.readers ==> ReaderOk(st, st.readers[r], fallback))
    && (forall i :: 0 <= i < |st.outputs| ==> OutputOk(st, st.outputs[i], fallback))
  }

  lemma HeldPersists(st: State, s: State, v: string, t: real, fallback: string)
    requires HeldAt(st, v, t, fallback) && st.held <= s.held && st.failures <= s.failures
    ensures HeldAt(s, v, t, fallback)
  {
    if Observation(t, v) !in st.held {
      var step: nat :| Failure(t, step) in st.failures;
      assert Failure(t, step) in s.failures;
    }
  }

  lemma WitnessPersists(st: State, s: State, v: string, from: real, to: real, from': real, to': real, fallback: string)
    requires Witnessed(st, v, from, to, fallback) && from' <= from && to <= to'
    requires st.held <= s.held && st.failures <= s.failures
    ensures Witnessed(s, v, from', to', fallback)
  {
    var t :| from <= t <= to && HeldAt(st, v, t, fallback);
    HeldPersists(st, s, v, t, fallback);
  }

  lemma OutputPersists(st: State, s: State, o: Output, fallback: string)
    requires OutputOk(st, o, fallback) && st.clock <= s.clock && st.steps <= s.steps
    requires st.held <= s.held && st.failures <= s.failures
    ensures OutputOk(s, o, fallback)
  {
    var t :| o.began - 30.0 < t <= o.ended && HeldAt(st, o.value, t, fallback);
    HeldPersists(st, s, o.value, t, fallback);
  }

  /** Everything already there stays justified when time passes and history grows. */
  lemma InvariantCarries(st: State, s: State, fallback: string)
    requires Invariant(st, fallback)
    requires st.clock <= s.clock && st.held <= s.held && st.failures <= s.failures && st.steps <= s.steps
    ensures st.value != "" ==> Witnessed(s, st.value, st.loadedAt, s.clock, fallback)
    ensures st.value != "" ==> Witnessed(s, st.value, 0.0, s.clock, fallback)
    ensures forall r :: r in st.readers ==> ReaderOk(s, st.readers[r], fallback)
    ensures forall i :: 0 <= i < |st.outputs| ==> OutputOk(s, st.outputs[i], fallback)
  {
    if st.value != "" {
      WitnessPersists(st, s, st.value, st.loadedAt, st.clock, st.loadedAt, s.clock, fallback);
      WitnessPersists(st, s, st.value, st.loadedAt, st.clock, 0.0, s.clock, fallback);
    }
    forall r | r in st.readers ensures ReaderOk(s, st.readers[r], fallback) {
      var rd := st.readers[r];
      if rd.Fetched? { WitnessPersists(st, s, rd.value, rd.start, st.clock, rd.start, s.clock, fallback); }
    }
    forall i | 0 <= i < |st.outputs| ensures OutputOk(s, st.outputs[i], fallback) {
      OutputPersists(st, s, st.outputs[i], fallback);
    }
  }

  lemma InvariantStep(st: State, a: Action, fallback: string)
    requires Invariant(st, fallback)
    ensures Invariant(Step(st, a, fallback), fallback)
  {
    var s := Step(st, a, fallback);
    InvariantCarries(st, s, fallback);
    match a
    case Begin(r) =>
      if r !in st.readers && Hit(st.value, st.loadedAt, st.clock).Some? {
        var t :| st.loadedAt <= t <= st.clock && HeldAt(st, st.value, t, fallback);
        HeldPersists(st, s, st.value, t, fallback);
      }
    case Fetch(r, ok) =>
      if r in st.readers && st.readers[r].Fetching? {
        assert !ok ==> Failure(st.clock, st.steps) in s.failures;
        assert HeldAt(s, s.readers[r].value, st.clock, fallback);
      }
    case Install(r) =>
      if r in st.readers && st.readers[r].Fetched? {
        var rd := st.readers[r];
        var t :| rd.start <= t <= st.clock && HeldAt(st, rd.value, t, fallback);
        HeldPersists(st, s, rd.value, t, fallback);
      }
    case _ =>
  }

  /** Freshness over all interleavings: every mode returned was in force, or was the fallback of a failed
      read, at an instant less than 30 seconds before the read began, or during it. */
  lemma {:induction false} EveryReadFresh(clock: real, db: string, actions: seq<Action>, fallback: string)
    requires clock >= 0.0
    ensures Invariant(RunFrom(Initial(clock, db), actions, fallback), fallback)
  {
    if actions != [] {
      EveryReadFresh(clock, db, actions[..|actions| - 1], fallback);
      InvariantStep(RunFrom(Initial(clock, db), actions[..|actions| - 1], fallback), actions[|actions| - 1], fallback);
    }
  }

  // ---- Reads after a mode change ----

  /** A read still in flight that fetched something else than `m`, recently enough to be served once stored. */
  ghost predicate Dangerous(st: State, rd: Reader, m: string) {
    rd.Fetched? && rd.value != m && rd.value != "" && st.clock - rd.start < 30.0
  }

  /** Anything but another mode change: reads whose queries succeed or fail, time, and repeated invalidation. */
  ghost predicate Unchanging(actions: seq<Action>) { forall i :: 0 <= i < |actions| ==> !actions[i].Upsert? }

  /** The mode change to `m` is complete: both its halves are done. */
  ghost predicate JustChanged(st: State, m: string) {
    st.db == m && m != "" && st.loadedAt == 0.0 && st.clock >= 30.0
  }

  /** A query failed after step `since`, at an instant in [from, to]. */
  ghost predicate FailedSince(st: State, since: nat, from: real, to: real) {
    exists f :: f in st.failures && f.step >= since && from <= f.at <= to
  }

  /** The value is the new mode, or the fallback of a query that failed after the change, not before `from`. */
  ghost predicate Fine(st: State, v: string, m: string, since: nat, from: real, fallback: string) {
    v == m || (v == fallback && FailedSince(st, since, from, st.clock))
  }

  /** A read returned the new mode, or the fallback because a query after the change failed less than 30 seconds before
      the read began, or during it. */
  ghost predicate Explained(st: State, o: Output, m: string, since: nat, fallback: string) {
    o.value == m
    || (o.value == fallback
        && exists f :: f in st.failures && f.step >= since && o.began - 30.0 < f.at <= o.ended)
  }

  /** That holds of every read begun after step `since`. */
  ghost predicate NewReadsExplained(st: State, m: string, since: nat, fallback: string) {
    forall i :: 0 <= i < |st.outputs| && st.outputs[i].born >= since ==>
      Explained(st, st.outputs[i], m, since, fallback)
  }

  ghost predicate ReaderFine(st: State, rd: Reader, m: string, since: nat, fallback: string) {
    && rd.start <= st.clock
    && (rd.Fetched? && (rd.born >= since || (rd.value != "" && st.clock - rd.start < 30.0)) ==>
          Fine(st, rd.value, m, since, rd.start, fallback))
  }

  /** After the change only fine values can be hit, and only fine ones can still be stored or returned. */
  ghost predicate Settled(st: State, m: string, since: nat, fallback: string) {
    && st.db == m && since <= st.steps && st.clock >= 30.0
    && NewReadsExplained(st, m, since, fallback)
    && (Hit(st.value, st.loadedAt, st.clock).Some? ==> Fine(st, st.value, m, since, st.loadedAt, fallback))
    && forall r :: r in st.readers ==> ReaderFine(st, st.readers[r], m, since, fallback)
  }

  lemma FinePersists(st: State, s: State, v: string, m: string, since: nat, from: real, fallback: string)
    requires Fine(st, v, m, since, from, fallback) && st.failures <= s.failures && st.clock <= s.clock
    ensures Fine(s, v, m, since, from, fallback)
  {
    if v != m {
      var f :| f in st.failures && f.step >= since && from <= f.at <= st.clock;
      assert f in s.failures;
    }
  }

  /** Everything already there stays fine when time passes and failures are added. */
  lemma SettledCarries(st: State, s: State, m: string, since: nat, fallback: string)
    requires Settled(st, m, since, fallback) && st.failures <= s.failures && st.clock <= s.clock
    ensures forall i :: 0 <= i < |st.outputs| && st.outputs[i].born >= since ==>
              Explained(s, st.outputs[i], m, since, fallback)
    ensures Hit(st.value, st.loadedAt, s.clock).Some? ==> Fine(s, st.value, m, since, st.loadedAt, fallback)
    ensures forall r :: r in st.readers ==> ReaderFine(s, st.readers[r], m, since, fallback)
  {
    forall i | 0 <= i < |st.outputs| && st.outputs[i].born >= since
      ensures Explained(s, st.outputs[i], m, since, fallback)
    {
      assert Explained(st, st.outputs[i], m, since, fallback);
    }
    if Hit(st.value, st.loadedAt, s.clock).Some? { FinePersists(st, s, st.value, m, since, st.loadedAt, fallback); }
    forall r | r in st.readers ensures ReaderFine(s, st.readers[r], m, since, fallback) {
      var rd := st.readers[r];
      assert ReaderFine(st, rd, m, since, fallback);
      if rd.Fetched? && (rd.born >= since || (rd.value != "" && s.clock - rd.start < 30.0)) {
        FinePersists(st, s, rd.value, m, since, rd.start, fallback);
      }
    }
  }

  /** A fine value returned by a read that began less than 30 seconds after `from` is explained. */
  lemma FineIsExplained(s: State, o: Output, m: string, since: nat, from: real, fallback: string)
    requires Fine(s, o.value, m, since, from, fallback) && o.began - 30.0 < from && o.ended == s.clock
    ensures Explained(s, o, m, since, fallback)
  {
    if o.value != m {
      var f :| f in s.failures && f.step >= since && from <= f.at <= s.clock;
      assert o.began - 30.0 < f.at <= o.ended;
    }
  }

  lemma BeginSettled(st: State, r: int, m: string, since: nat, fallback: string)
    requires Settled(st, m, since, fallback)
    ensures Settled(Step(st, Begin(r), fallback), m, since, fallback)
  {
    var s := Step(st, Begin(r), fallback);
    SettledCarries(st, s, m, since, fallback);
    var hit := Hit(st.value, st.loadedAt, st.clock);
    if r !in st.readers && hit.Some? {
      FineIsExplained(s, Output(hit.value, st.clock, st.clock, st.steps), m, since, st.loadedAt, fallback);
    }
  }

  lemma FetchSettled(st: State, r: int, ok: bool, m: string, since: nat, fallback: string)
    requires Settled(st, m, since, fallback)
    ensures Settled(Step(st, Fetch(r, ok), fallback), m, since, fallback)
  {
    var s := Step(st, Fetch(r, ok), fallback);
    SettledCarries(st, s, m, since, fallback);
    if r in st.readers && st.readers[r].Fetching? {
      assert ReaderFine(st, st.readers[r], m, since, fallback);
      if !ok { assert Failure(st.clock, st.steps) in s.failures; }
      assert ReaderFine(s, s.readers[r], m, since, fallback);
    }
  }

  lemma InstallSettled(st: State, r: int, m: string, since: nat, fallback: string)
    requires Settled(st, m, since, fallback)
    ensures Settled(Step(st, Install(r), fallback), m, since, fallback)
  {
    var s := Step(st, Install(r), fallback);
    SettledCarries(st, s, m, since, fallback);
    if r in st.readers && st.readers[r].Fetched? {
      var rd := st.readers[r];
      assert ReaderFine(s, rd, m, since, fallback);
      if rd.born >= since {
        FineIsExplained(s, Output(rd.value, rd.start, st.clock, rd.born), m, since, rd.start, fallback);
      }
    }
  }

  lemma SettledStep(st: State, a: Action, m: string, since: nat, fallback: string)
    requires Settled(st, m, since, fallback) && !a.Upsert?
    ensures Settled(Step(st, a, fallback), m, since, fallback)
  {
    match a
    case Begin(r) => BeginSettled(st, r, m, since, fallback);
    case Fetch(r, ok) => FetchSettled(st, r, ok, m, since, fallback);
    case Install(r) => InstallSettled(st, r, m, since, fallback);
    case _ => SettledCarries(st, Step(st, a, fallback), m, since, fallback);
  }

  /** Once settled, always settled, whatever reads and failures follow. */
  lemma {:induction false} SettledRun(st: State, actions: seq<Action>, m: string, since: nat, fallback: string)
    requires Settled(st, m, since, fallback) && Unchanging(actions)
    ensures Settled(RunFrom(st, actions, fallback), m, since, fallback)
  {
    if actions != [] {
      var init := actions[..|actions| - 1];
      SettledRun(st, init, m, since, fallback);
      SettledStep(RunFrom(st, init, fallback), actions[|actions| - 1], m, since, fallback);
    }
  }

  lemma {:induction false} RunSnoc(st: State, actions: seq<Action>, a: Action, fallback: string)
    ensures RunFrom(st, actions + [a], fallback) == Step(RunFrom(st, actions, fallback), a, fallback)
  {
    assert (actions + [a])[..|actions|] == actions;
  }

  /** A dangerous read in flight spoils the next read: it stores its old value, which is then served. */
  lemma DangerousIsServed(st: State, r: int, r': int, m: string, fallback: string)
    requires Invariant(st, fallback) && JustChanged(st, m)
    requires r in st.readers && Dangerous(st, st.readers[r], m) && r' !in st.readers
    ensures !NewReadsExplained(RunFrom(st, [Install(r), Begin(r')], fallback), m, st.steps, fallback)
  {
    var one := Step(st, Install(r), fallback);
    var two := Step(one, Begin(r'), fallback);
    RunSnoc(st, [], Install(r), fallback);
    RunSnoc(st, [Install(r)], Begin(r'), fallback);
    assert [] + [Install(r)] == [Install(r)] && [Install(r)] + [Begin(r')] == [Install(r), Begin(r')];
    var last := |two.outputs| - 1;
    assert two.outputs[last] == Output(st.readers[r].value, st.clock, st.clock, one.steps);
    assert two.failures == st.failures;
  }

  /** After a completed mode change every later read returns the new mode, or the fallback of a query that failed
      after the change and less than 30 seconds before, in every interleaving, exactly when no read that overlaps
      the change still holds another recently fetched value. */
  lemma ReadsAfterChangeIff(st: State, m: string, fallback: string)
    requires Invariant(st, fallback) && JustChanged(st, m)
    ensures (forall actions :: Unchanging(actions) ==>
               NewReadsExplained(RunFrom(st, actions, fallback), m, st.steps, fallback)) <==>
            (forall r :: r in st.readers ==> !Dangerous(st, st.readers[r], m))
  {
    if forall r :: r in st.readers ==> !Dangerous(st, st.readers[r], m) {
      assert Settled(st, m, st.steps, fallback) by {
        forall r | r in st.readers ensures ReaderFine(st, st.readers[r], m, st.steps, fallback) {
          assert ReaderOk(st, st.readers[r], fallback);
        }
        assert forall i :: 0 <= i < |st.outputs| ==> OutputOk(st, st.outputs[i], fallback);
      }
      forall actions | Unchanging(actions)
        ensures NewReadsExplained(RunFrom(st, actions, fallback), m, st.steps, fallback)
      {
        SettledRun(st, actions, m, st.steps, fallback);
      }
    } else {
      var r :| r in st.readers && Dangerous(st, st.readers[r], m);
      var r' := FreeName(st.readers.Keys);
      DangerousIsServed(st, r, r', m, fallback);
      assert Unchanging([Install(r), Begin(r')]);
    }
  }

  /** In particular, while no query fails every later read returns the new mode. */
  lemma ReadsReturnNewMode(st: State, actions: seq<Action>, m: string, fallback: string)
    requires Invariant(st, fallback) && JustChanged(st, m) && Unchanging(actions)
    requires forall r :: r in st.readers ==> !Dangerous(st, st.readers[r], m)
    requires forall f :: f in RunFrom(st, actions, fallback).failures ==> f.step < st.steps
    ensures var s := RunFrom(st, actions, fallback);
            forall i :: 0 <= i < |s.outputs| && s.outputs[i].born >= st.steps ==> s.outputs[i].value == m
  {
    ReadsAfterChangeIff(st, m, fallback);
    var s := RunFrom(st, actions, fallback);
    forall i | 0 <= i < |s.outputs| && s.outputs[i].born >= st.steps ensures s.outputs[i].value == m {
      assert Explained(s, s.outputs[i], m, st.steps, fallback);
    }
  }

  /** A failed query is remembered like a successful one: a single failure hides the change from every read in
      the following 30 seconds, although the database would have answered. */
  lemma FailedReadIsServed(st: State, r: int, wait: real, m: string, fallback: string)
    requires JustChanged(st, m) && r !in st.readers && fallback != m && fallback != "" && 0.0 <= wait < 30.0
    ensures var s := RunFrom(st, [Begin(r), Fetch(r, false), Install(r), Tick(wait), Begin(r)], fallback);
            && s.db == m && s.readers == st.readers
            && s.outputs == st.outputs + [Output(fallback, st.clock, st.clock, st.steps),
                                          Output(fallback, st.clock + wait, st.clock + wait, st.steps + 4)]
  {
    UninterruptedRead(st, r, false, fallback);
    var read := [Begin(r), Fetch(r, false), Install(r)];
    var three := RunFrom(st, read, fallback);
    ThreeSteps(st, Begin(r), Fetch(r, false), Install(r), fallback);
    RunSnoc(st, read, Tick(wait), fallback);
    RunSnoc(st, read + [Tick(wait)], Begin(r), fallback);
    assert read + [Tick(wait)] + [Begin(r)] == [Begin(r), Fetch(r, false), Install(r), Tick(wait), Begin(r)];
  }

  lemma ThreeSteps(st: State, a: Action, b: Action, c: Action, fallback: string)
    ensures RunFrom(st, [a, b, c], fallback).steps == st.steps + 3
  {
    RunSnoc(st, [], a, fallback);
    RunSnoc(st, [a], b, fallback);
    RunSnoc(st, [a, b], c, fallback);
    assert [] + [a] == [a] && [a] + [b] == [a, b] && [a, b] + [c] == [a, b, c];
  }
}
