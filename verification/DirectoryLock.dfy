/**
 The global directory lock of `lazy_coord.py`, as a state machine over the file-system calls its
 users make: `mkdir` takes the lock, an owner record is written into the directory, a waiter that
 finds a dead owner renames the directory away, and a release unlinks the record and removes the
 directory.  Any process may die between two calls.

 Each successful `mkdir` starts a new generation of the lock; the code itself never sees the number.
 */
module DirectoryLock {
  import opened Prelude

  /** A pid can be reused; together with the kernel start time it names one process. */
  datatype Process = Process(pid: int, start: int)

  datatype Owner = Owner(pid: int, start: Option<int>)

  datatype Dir = Dir(gen: nat, owner: Option<Owner>, mtime: real)

  datatype Phase =
    | Waiting
    | Made(gen: nat)       // mkdir done, owner record not yet written
    | Inside(gen: nat)
    | Leaving(gen: nat)    // owner record unlinked, rmdir to come
    | Condemned(gen: nat)  // found this generation stale, rename to come

  /** `evicted`: the generations renamed away so far. */
  datatype State = State(lock: Option<Dir>, nextGen: nat, phase: map<Process, Phase>,
                         alive: set<Process>, now: real, evicted: seq<nat>)

  // ---- the staleness test ----

  datatype PidStatus = Alive | Dead | Unknown

  /** What the operating system answers about a pid; an unreadable start time is None. */
  datatype Probe = Probe(status: PidStatus, start: Option<int>)

  /** `_confirmed_dead_owner`: ambiguity is never death. */
  predicate ConfirmedDead(owner: Owner, probe: Probe) {
    match probe.status
    case Dead => true
    case Unknown => false
    case Alive => owner.start.Some? && probe.start.Some? && probe.start.value != owner.start.value
  }

  /** The test in `_maybe_reclaim_stale_lock`; without an owner record the directory's age decides. */
  predicate Stale(d: Dir, now: real, grace: real, probe: Probe) {
    match d.owner
    case None => now - d.mtime > grace
    case Some(o) => ConfirmedDead(o, probe)
  }

  /** The probe may know nothing, but what it says about the pid is true. */
  ghost predicate Truthful(alive: set<Process>, pid: int, probe: Probe) {
    && (probe.status.Dead? ==> forall p :: p in alive ==> p.pid != pid)
    && (probe.status.Alive? && probe.start.Some? ==> Process(pid, probe.start.value) in alive)
  }

  // ---- steps ----

  datatype Step =
    | Spawn(p: Process)
    | MakeDir(p: Process)
    | WriteOwner(p: Process, startKnown: bool)
    | FailToWriteOwner(p: Process)
    | Observe(p: Process, probe: Probe)
    | TakeOver(p: Process)
    | Unlink(p: Process)
    | RemoveDir(p: Process)
    | Crash(p: Process)
    | Tick(now: real)

  /** No lock yet, and the processes `ps` waiting for it. */
  function Start(ps: set<Process>): State {
    State(None, 0, map p | p in ps :: Waiting, ps, 0.0, [])
  }

  predicate Knows(s: State, p: Process) {
    p in s.alive && p in s.phase
  }

  /** A step the program can take next. */
  ghost predicate Enabled(s: State, step: Step, grace: real) {
    match step
    case Spawn(p) => p !in s.phase && forall q :: q in s.alive ==> q.pid != p.pid
    case Tick(now) => now >= s.now
    case Crash(p) => Knows(s, p)
    case MakeDir(p) => Knows(s, p) && s.phase[p].Waiting? && s.lock.None?
    case WriteOwner(p, _) => Knows(s, p) && s.phase[p].Made?
    case FailToWriteOwner(p) => Knows(s, p) && s.phase[p].Made?
    case Observe(p, probe) =>
      && Knows(s, p) && s.phase[p].Waiting? && s.lock.Some?
      && (s.lock.value.owner.Some? ==> Truthful(s.alive, s.lock.value.owner.value.pid, probe))
      && Stale(s.lock.value, s.now, grace, probe)
    case TakeOver(p) => Knows(s, p) && s.phase[p].Condemned?
    case Unlink(p) => Knows(s, p) && s.phase[p].Inside?
    case RemoveDir(p) => Knows(s, p) && s.phase[p].Leaving?
  }

  function GenOf(s: State, p: Process): nat {
    if p in s.phase && !s.phase[p].Waiting? then s.phase[p].gen else 0
  }

  /** The file-system calls name the lock by its path, so they act on whatever directory is there. */
  function Apply(s: State, step: Step): State {
    match step
    case Spawn(p) => s.(phase := s.phase[p := Waiting], alive := s.alive + {p})
    case Tick(now) => s.(now := now)
    case Crash(p) => s.(alive := s.alive - {p})
    case MakeDir(p) =>
      if s.lock.Some? then s else
      s.(lock := Some(Dir(s.nextGen, None, s.now)), nextGen := s.nextGen + 1,
         phase := s.phase[p := Made(s.nextGen)])
    case WriteOwner(p, startKnown) =>
      var record := Owner(p.pid, if startKnown then Some(p.start) else None);
      s.(lock := if s.lock.Some? then Some(s.lock.value.(owner := Some(record), mtime := s.now)) else None,
         phase := s.phase[p := Inside(GenOf(s, p))])
    case FailToWriteOwner(p) => s.(phase := s.phase[p := Inside(GenOf(s, p))])
    case Observe(p, _) =>
      if s.lock.None? then s else s.(phase := s.phase[p := Condemned(s.lock.value.gen)])
    case TakeOver(p) =>
      var left := s.(phase := s.phase[p := Waiting]);
      if s.lock.None? then left else left.(lock := None, evicted := s.evicted + [s.lock.value.gen])
    case Unlink(p) =>
      var left := s.(phase := s.phase[p := Leaving(GenOf(s, p))]);
      if s.lock.Some? && s.lock.value.owner.Some?
      then left.(lock := Some(s.lock.value.(owner := None, mtime := s.now))) else left
    case RemoveDir(p) =>
      var left := s.(phase := s.phase[p := Waiting]);
      if s.lock.Some? && s.lock.value.owner.Some? then left else left.(lock := None)
  }

  function Run(s: State, steps: seq<Step>): State
    decreases |steps|
  {
    if steps == [] then s else Run(Apply(s, steps[0]), steps[1..])
  }

  ghost predicate Possible(s: State, steps: seq<Step>, grace: real)
    decreases |steps|
  {
    steps != [] ==> Enabled(s, steps[0], grace) && Possible(Apply(s, steps[0]), steps[1..], grace)
  }

  // ---- mutual exclusion ----

  predicate Holds(ph: Phase) {
    ph.Made? || ph.Inside? || ph.Leaving?
  }

  /** `p` is alive and between its `mkdir` and the end of its release, in generation `g`. */
  predicate Holding(s: State, p: Process, g: nat) {
    p in s.alive && p in s.phase && Holds(s.phase[p]) && s.phase[p].gen == g
  }

  ghost predicate AtMostOneHolder(s: State) {
    forall p, q, g, h :: Holding(s, p, g) && Holding(s, q, h) ==> p == q
  }

  /** A live holder leaves the directory without an owner record only within the grace time. */
  ghost predicate Timely(s: State, grace: real) {
    forall p, g :: Holding(s, p, g) && s.lock.Some? && s.lock.value.gen == g && s.lock.value.owner.None?
                   ==> s.now - s.lock.value.mtime <= grace
  }

  /** A rename hits the generation that was observed, or nothing. */
  predicate HitsObserved(s: State, step: Step) {
    step.TakeOver? && step.p in s.phase && s.phase[step.p].Condemned? && s.lock.Some?
    ==> s.lock.value.gen == s.phase[step.p].gen
  }

  /** A rename hits no directory whose holder is alive. */
  ghost predicate HitsNoHolder(s: State, step: Step) {
    step.TakeOver? && s.lock.Some? ==> forall q :: !Holding(s, q, s.lock.value.gen)
  }

  ghost predicate AllTimely(s: State, steps: seq<Step>, grace: real)
    decreases |steps|
  {
    Timely(s, grace) && (steps != [] ==> AllTimely(Apply(s, steps[0]), steps[1..], grace))
  }

  predicate AllHitObserved(s: State, steps: seq<Step>)
    decreases |steps|
  {
    steps != [] ==> HitsObserved(s, steps[0]) && AllHitObserved(Apply(s, steps[0]), steps[1..])
  }

  ghost predicate AllHitNoHolder(s: State, steps: seq<Step>)
    decreases |steps|
  {
    steps != [] ==> HitsNoHolder(s, steps[0]) && AllHitNoHolder(Apply(s, steps[0]), steps[1..])
  }

  ghost predicate PidsUnique(s: State) {
    && (forall p :: p in s.alive ==> p in s.phase)
    && (forall p, q :: p in s.alive && q in s.alive && p.pid == q.pid ==> p == q)
  }

  ghost predicate GensBounded(s: State) {
    && (forall p :: p in s.phase && !s.phase[p].Waiting? ==> s.phase[p].gen < s.nextGen)
    && (s.lock.Some? ==> s.lock.value.gen < s.nextGen)
  }

  ghost predicate GensUnique(s: State) {
    forall p, q | p in s.phase && q in s.phase && Holds(s.phase[p]) && Holds(s.phase[q])
                  && s.phase[p].gen == s.phase[q].gen :: p == q
  }

  /** Whoever is alive and holds a generation finds that generation's directory in place. */
  ghost predicate HoldersHaveLock(s: State) {
    forall p, g :: Holding(s, p, g) ==> s.lock.Some? && s.lock.value.gen == g
  }

  ghost predicate OwnerIsHolder(s: State) {
    s.lock.Some? && s.lock.value.owner.Some? ==>
      var o := s.lock.value.owner.value;
      forall p :: p in s.phase && Holds(s.phase[p]) && s.phase[p].gen == s.lock.value.gen
                  ==> o.pid == p.pid && (o.start.Some? ==> o.start.value == p.start)
  }

  ghost predicate CondemnedAreDead(s: State) {
    forall q, p, g :: q in s.phase && s.phase[q] == Condemned(g) ==> !Holding(s, p, g)
  }

  ghost predicate EvictedOnce(s: State) {
    && Distinct(s.evicted)
    && (forall g :: g in s.evicted ==> g < s.nextGen)
    && (s.lock.Some? ==> s.lock.value.gen !in s.evicted)
  }

  /** What exclusion rests on. */
  ghost predicate Sound(s: State) {
    PidsUnique(s) && GensBounded(s) && GensUnique(s) && HoldersHaveLock(s) && EvictedOnce(s)
  }

  /** What makes renames harmless, besides. */
  ghost predicate Inv(s: State) {
    Sound(s) && OwnerIsHolder(s) && CondemnedAreDead(s)
  }

  /** A process that may have written the record: its pid, and its start time if the record has one. */
  predicate MayBeOwner(p: Process, record: Owner) {
    p.pid == record.pid && (record.start.Some? ==> p.start == record.start.value)
  }

  /** The answer tells the processes with the pid apart: there is none, or the one there is started then. */
  predicate Conclusive(probe: Probe) {
    probe.status.Dead? || (probe.status.Alive? && probe.start.Some?)
  }

  /** On processes: an owner is found dead exactly when the answer is conclusive and no live process may
      have written the record - its pid is free, or reused by a process that started at another time. */
  lemma ConfirmedDeadIff(s: State, record: Owner, probe: Probe)
    requires PidsUnique(s) && Truthful(s.alive, record.pid, probe)
    ensures ConfirmedDead(record, probe) <==>
            Conclusive(probe) && forall p :: p in s.alive ==> !MayBeOwner(p, record)
  {
    if probe.status.Alive? && probe.start.Some? {
      var there := Process(record.pid, probe.start.value);
      assert there in s.alive;
      if record.start.None? || there.start == record.start.value {
        assert MayBeOwner(there, record);
      } else {
        assert forall p :: p in s.alive && p.pid == record.pid ==> p == there;
      }
    }
  }

  /** A live owner whose start time matches its record is never taken for dead. */
  lemma LiveOwnerIsNeverConfirmedDead(s: State, p: Process, record: Owner, probe: Probe)
    requires PidsUnique(s) && p in s.alive
    requires record.pid == p.pid && (record.start.Some? ==> record.start.value == p.start)
    requires Truthful(s.alive, p.pid, probe)
    ensures !ConfirmedDead(record, probe)
  {
    ConfirmedDeadIff(s, record, probe);
    assert MayBeOwner(p, record);
  }

  /** So a generation found stale has no live holder. */
  lemma StaleMeansAbandoned(s: State, grace: real, probe: Probe, p: Process)
    requires Inv(s) && Timely(s, grace) && s.lock.Some?
    requires s.lock.value.owner.Some? ==> Truthful(s.alive, s.lock.value.owner.value.pid, probe)
    requires Stale(s.lock.value, s.now, grace, probe)
    ensures !Holding(s, p, s.lock.value.gen)
  {
    if Holding(s, p, s.lock.value.gen) && s.lock.value.owner.Some? {
      LiveOwnerIsNeverConfirmedDead(s, p, s.lock.value.owner.value, probe);
    }
  }

  /** Who holds a generation after a step held it before, or has just made it. */
  lemma HoldingBefore(s: State, step: Step, grace: real, p: Process, g: nat)
    requires PidsUnique(s) && Enabled(s, step, grace) && Holding(Apply(s, step), p, g)
    ensures Holding(s, p, g) || (step == MakeDir(p) && g == s.nextGen)
  {
  }

  lemma StepKeepsPids(s: State, step: Step, grace: real)
    requires PidsUnique(s) && Enabled(s, step, grace)
    ensures PidsUnique(Apply(s, step))
  {
  }

  lemma StepKeepsBounds(s: State, step: Step, grace: real)
    requires GensBounded(s) && Enabled(s, step, grace)
    ensures GensBounded(Apply(s, step))
  {
  }

  lemma StepKeepsGens(s: State, step: Step, grace: real)
    requires GensBounded(s) && GensUnique(s) && Enabled(s, step, grace)
    ensures GensUnique(Apply(s, step))
  {
  }

  lemma StepKeepsEvicted(s: State, step: Step, grace: real)
    requires GensBounded(s) && EvictedOnce(s) && Enabled(s, step, grace)
    ensures EvictedOnce(Apply(s, step))
  {
  }

  lemma StepKeepsLock(s: State, step: Step, grace: real)
    requires Sound(s) && Enabled(s, step, grace) && HitsNoHolder(s, step)
    ensures HoldersHaveLock(Apply(s, step))
  {
    var s' := Apply(s, step);
    forall p, g | Holding(s', p, g) ensures s'.lock.Some? && s'.lock.value.gen == g {
      HoldingBefore(s, step, grace, p, g);
      if step.RemoveDir? {
        assert Holding(s, step.p, s.phase[step.p].gen);
      }
    }
  }

  lemma StepKeepsOwner(s: State, step: Step, grace: real)
    requires Inv(s) && Enabled(s, step, grace)
    ensures OwnerIsHolder(Apply(s, step))
  {
    if step.WriteOwner? {
      assert Holding(s, step.p, s.phase[step.p].gen);
    }
  }

  lemma StepKeepsCondemned(s: State, step: Step, grace: real)
    requires Inv(s) && Timely(s, grace) && Enabled(s, step, grace)
    ensures CondemnedAreDead(Apply(s, step))
  {
    var s' := Apply(s, step);
    if step.Observe? {
      forall p { StaleMeansAbandoned(s, grace, step.probe, p); }
    }
    forall q, p, g | q in s'.phase && s'.phase[q] == Condemned(g) ensures !Holding(s', p, g) {
      if Holding(s', p, g) {
        HoldingBefore(s, step, grace, p, g);
      }
    }
  }

  lemma StepKeepsSound(s: State, step: Step, grace: real)
    requires Sound(s) && Enabled(s, step, grace) && HitsNoHolder(s, step)
    ensures Sound(Apply(s, step))
  {
    StepKeepsPids(s, step, grace);
    StepKeepsBounds(s, step, grace);
    StepKeepsGens(s, step, grace);
    StepKeepsEvicted(s, step, grace);
    StepKeepsLock(s, step, grace);
  }

  lemma RenameLosesHolder(s: State, step: Step, grace: real)
    requires Sound(s) && Enabled(s, step, grace) && !HitsNoHolder(s, step)
    ensures !HoldersHaveLock(Apply(s, step))
  {
    var q :| Holding(s, q, s.lock.value.gen);
    assert Holding(Apply(s, step), q, s.lock.value.gen);
  }

  /** From a timely state that satisfies the invariant, a step keeps it exactly when it is no rename of
      a live holder's directory. */
  lemma StepKeepsInvIff(s: State, step: Step, grace: real)
    requires Inv(s) && Timely(s, grace) && Enabled(s, step, grace)
    ensures Inv(Apply(s, step)) <==> HitsNoHolder(s, step)
  {
    if HitsNoHolder(s, step) {
      StepKeepsInv(s, step, grace);
    } else {
      RenameLosesHolder(s, step, grace);
    }
  }

  /** A rename of the generation that was observed is harmless. */
  lemma ObservedIsHolderless(s: State, step: Step, grace: real)
    requires Inv(s) && Enabled(s, step, grace) && HitsObserved(s, step)
    ensures HitsNoHolder(s, step)
  {
    if step.TakeOver? && s.lock.Some? {
      assert s.phase[step.p] == Condemned(s.lock.value.gen);
    }
  }

  lemma StepKeepsInv(s: State, step: Step, grace: real)
    requires Inv(s) && Timely(s, grace) && Enabled(s, step, grace) && HitsNoHolder(s, step)
    ensures Inv(Apply(s, step))
  {
    StepKeepsSound(s, step, grace);
    StepKeepsOwner(s, step, grace);
    StepKeepsCondemned(s, step, grace);
  }

  /** A fresh start with distinct pids satisfies the invariant. */
  lemma StartIsSafe(ps: set<Process>)
    requires forall p, q :: p in ps && q in ps && p.pid == q.pid ==> p == q
    ensures Inv(Start(ps))
  {
  }

  /** Every live holder finds its directory in place, in every state of the run. */
  ghost predicate AllHaveLock(s: State, steps: seq<Step>)
    decreases |steps|
  {
    HoldersHaveLock(s) && (steps != [] ==> AllHaveLock(Apply(s, steps[0]), steps[1..]))
  }

  /** In every possible run, however slow its holders: no live holder ever loses its directory exactly
      when no rename hits one. */
  lemma {:induction false} HoldersKeepLockIff(s: State, steps: seq<Step>, grace: real)
    requires Sound(s) && Possible(s, steps, grace)
    ensures AllHaveLock(s, steps) <==> AllHitNoHolder(s, steps)
    decreases |steps|
  {
    if steps != [] {
      if HitsNoHolder(s, steps[0]) {
        StepKeepsSound(s, steps[0], grace);
        HoldersKeepLockIff(Apply(s, steps[0]), steps[1..], grace);
      } else {
        RenameLosesHolder(s, steps[0], grace);
      }
    }
  }

  lemma {:induction false} RunKeepsSound(s: State, steps: seq<Step>, grace: real)
    requires Sound(s) && Possible(s, steps, grace) && AllHitNoHolder(s, steps)
    ensures Sound(Run(s, steps))
    decreases |steps|
  {
    if steps != [] {
      StepKeepsSound(s, steps[0], grace);
      RunKeepsSound(Apply(s, steps[0]), steps[1..], grace);
    }
  }

  /** In every run of waiting processes with distinct pids in which no rename hits a live holder's
      directory, at most one live process is ever inside, every generation is taken over at most once,
      and no generation with a live holder has been evicted. */
  lemma RunsExclude(ps: set<Process>, steps: seq<Step>, grace: real)
    requires forall p, q :: p in ps && q in ps && p.pid == q.pid ==> p == q
    requires Possible(Start(ps), steps, grace) && AllHitNoHolder(Start(ps), steps)
    ensures var s := Run(Start(ps), steps);
            && AtMostOneHolder(s) && Distinct(s.evicted)
            && forall p, g :: Holding(s, p, g) ==> g !in s.evicted
  {
    StartIsSafe(ps);
    RunKeepsSound(Start(ps), steps, grace);
  }

  /** So exclusion holds, in particular, in the runs in which holders write their owner record in time and
      every rename hits the generation its waiter observed. */
  lemma TimelyRunsExclude(ps: set<Process>, steps: seq<Step>, grace: real)
    requires forall p, q :: p in ps && q in ps && p.pid == q.pid ==> p == q
    requires Possible(Start(ps), steps, grace)
    requires AllTimely(Start(ps), steps, grace) && AllHitObserved(Start(ps), steps)
    ensures var s := Run(Start(ps), steps);
            && AtMostOneHolder(s) && Distinct(s.evicted)
            && forall p, g :: Holding(s, p, g) ==> g !in s.evicted
  {
    StartIsSafe(ps);
    ObservedRunsHitNoHolder(Start(ps), steps, grace);
    RunsExclude(ps, steps, grace);
  }

  /** In timely runs, renames that hit the generation their waiter observed hit no live holder. */
  lemma {:induction false} ObservedRunsHitNoHolder(s: State, steps: seq<Step>, grace: real)
    requires Inv(s) && Possible(s, steps, grace)
    requires AllTimely(s, steps, grace) && AllHitObserved(s, steps)
    ensures AllHitNoHolder(s, steps)
    decreases |steps|
  {
    if steps != [] {
      ObservedIsHolderless(s, steps[0], grace);
      StepKeepsInv(s, steps[0], grace);
      ObservedRunsHitNoHolder(Apply(s, steps[0]), steps[1..], grace);
    }
  }

  /** A takeover followed by the winner's `mkdir` leaves at most one holder exactly when the directory it
      hits has no live holder by then. */
  lemma TakeOverExcludesIff(s: State, p: Process)
    requires Sound(s) && p in s.alive && s.phase[p].Condemned?
    ensures AtMostOneHolder(Apply(Apply(s, TakeOver(p)), MakeDir(p))) <==>
            s.lock.None? || forall q :: !Holding(s, q, s.lock.value.gen)
  {
    var after := Apply(Apply(s, TakeOver(p)), MakeDir(p));
    assert Holding(after, p, s.nextGen);
    if s.lock.Some? && exists q :: Holding(s, q, s.lock.value.gen) {
      var q :| Holding(s, q, s.lock.value.gen);
      TwoHolders(after, p, q, s.nextGen, s.lock.value.gen);
    } else {
      forall q, g | Holding(after, q, g) ensures q == p {
        if q != p {
          assert Holding(s, q, g);
        }
      }
    }
  }

  lemma TwoHolders(s: State, p: Process, q: Process, g: nat, h: nat)
    requires p != q && Holding(s, p, g) && Holding(s, q, h)
    ensures !AtMostOneHolder(s)
  {
  }

  // ---- the lock is never lost ----

  /** The directory is given up: its recorded owner is no live process, or it has no record and is older
      than the grace time. */
  ghost predicate GivenUp(s: State, grace: real)
    requires s.lock.Some?
  {
    match s.lock.value.owner
    case None => s.now - s.lock.value.mtime > grace
    case Some(record) => forall p :: p in s.alive ==> !MayBeOwner(p, record)
  }

  /** What the system can say about a pid: that it is free, or when its process started. */
  function BestProbe(there: Option<Process>): Probe {
    match there
    case None => Probe(Dead, None)
    case Some(p) => Probe(Alive, Some(p.start))
  }

  lemma TruthIsPossible(s: State, pid: int)
    requires PidsUnique(s)
    ensures exists probe :: Conclusive(probe) && Truthful(s.alive, pid, probe)
  {
    if p :| p in s.alive && p.pid == pid {
      assert Process(pid, p.start) == p;
      assert Conclusive(BestProbe(Some(p))) && Truthful(s.alive, pid, BestProbe(Some(p)));
    } else {
      assert Conclusive(BestProbe(None)) && Truthful(s.alive, pid, BestProbe(None));
    }
  }

  /** A waiter can find the directory stale exactly when it is given up. */
  lemma ObservableIff(s: State, p: Process, grace: real)
    requires PidsUnique(s) && Knows(s, p) && s.phase[p].Waiting? && s.lock.Some?
    ensures (exists probe :: Enabled(s, Observe(p, probe), grace)) <==> GivenUp(s, grace)
  {
    match s.lock.value.owner
    case None =>
      assert GivenUp(s, grace) ==> Enabled(s, Observe(p, BestProbe(None)), grace);
    case Some(record) =>
      if GivenUp(s, grace) {
        TruthIsPossible(s, record.pid);
        var probe :| Conclusive(probe) && Truthful(s.alive, record.pid, probe);
        ConfirmedDeadIff(s, record, probe);
        assert Enabled(s, Observe(p, probe), grace);
      }
      if probe :| Enabled(s, Observe(p, probe), grace) {
        ConfirmedDeadIff(s, record, probe);
      }
  }

  /** The way of a waiter past a directory that is given up. */
  function Replace(p: Process, probe: Probe): seq<Step> {
    [Observe(p, probe), TakeOver(p), MakeDir(p)]
  }

  lemma ThreeSteps(s: State, a: Step, b: Step, c: Step, grace: real)
    requires Enabled(s, a, grace) && Enabled(Apply(s, a), b, grace)
    requires Enabled(Apply(Apply(s, a), b), c, grace)
    ensures Possible(s, [a, b, c], grace) && Run(s, [a, b, c]) == Apply(Apply(Apply(s, a), b), c)
  {
    hide Enabled, Apply;
    var s1, s2 := Apply(s, a), Apply(Apply(s, a), b);
    var s3 := Apply(s2, c);
    assert [c][1..] == [] && [b, c][1..] == [c] && [a, b, c][1..] == [b, c];
    assert Possible(s3, [], grace) && Run(s3, []) == s3;
    assert Possible(s2, [c], grace) && Run(s2, [c]) == s3;
    assert Possible(s1, [b, c], grace) && Run(s1, [b, c]) == s3;
  }

  /** Any waiter can take over a directory that is given up: on every conclusive answer it finds it stale,
      renames it away, and makes its own. */
  lemma GivenUpIsTakenOver(s: State, p: Process, probe: Probe, grace: real)
    requires PidsUnique(s) && Knows(s, p) && s.phase[p].Waiting? && s.lock.Some? && GivenUp(s, grace)
    requires s.lock.value.owner.Some? ==>
               Conclusive(probe) && Truthful(s.alive, s.lock.value.owner.value.pid, probe)
    ensures Possible(s, Replace(p, probe), grace)
    ensures var s' := Run(s, Replace(p, probe));
            && s'.lock == Some(Dir(s.nextGen, None, s.now)) && Holding(s', p, s.nextGen)
            && s'.evicted == s.evicted + [s.lock.value.gen]
  {
    if s.lock.value.owner.Some? {
      ConfirmedDeadIff(s, s.lock.value.owner.value, probe);
    }
    ThreeSteps(s, Observe(p, probe), TakeOver(p), MakeDir(p), grace);
  }

  /** A holder that dies inside, its record written, blocks nobody: right after, any waiter whom the system
      gives a conclusive answer takes the lock over. */
  lemma CrashedHolderIsReplaced(s: State, q: Process, p: Process, probe: Probe, grace: real)
    requires Inv(s) && s.lock.Some? && s.lock.value.owner.Some? && Holding(s, q, s.lock.value.gen)
    requires p != q && Knows(s, p) && s.phase[p].Waiting?
    requires Conclusive(probe) && Truthful(s.alive - {q}, q.pid, probe)
    ensures Enabled(s, Crash(q), grace)
    ensures var s' := Apply(s, Crash(q));
            && Possible(s', Replace(p, probe), grace)
            && Holding(Run(s', Replace(p, probe)), p, s.nextGen)
  {
    var s' := Apply(s, Crash(q));
    StepKeepsPids(s, Crash(q), grace);
    assert s.phase[q].gen == s.lock.value.gen;
    forall r | r in s'.alive ensures !MayBeOwner(r, s.lock.value.owner.value) {
      assert r in s.alive && r != q;
    }
    GivenUpIsTakenOver(s', p, probe, grace);
  }

  /** A holder that dies before its record is written blocks the others for the grace time only. */
  lemma UnrecordedHolderIsReplaced(s: State, p: Process, probe: Probe, later: real, grace: real)
    requires PidsUnique(s) && Knows(s, p) && s.phase[p].Waiting? && s.lock.Some? && s.lock.value.owner.None?
    requires later >= s.now && later > s.lock.value.mtime + grace
    ensures Enabled(s, Tick(later), grace)
    ensures var s' := Apply(s, Tick(later));
            && Possible(s', Replace(p, probe), grace)
            && Holding(Run(s', Replace(p, probe)), p, s.nextGen)
  {
    GivenUpIsTakenOver(Apply(s, Tick(later)), p, probe, grace);
  }

  /** The undisturbed life of a lock: a free one is made and recorded under the maker's pid and start, and
      given back by its holder it is free again. */
  lemma TakenAndGivenBack(s: State, p: Process, startKnown: bool, grace: real)
    requires Knows(s, p) && s.phase[p].Waiting? && s.lock.None?
    ensures var inside := Run(s, [MakeDir(p), WriteOwner(p, startKnown)]);
            && Possible(s, [MakeDir(p), WriteOwner(p, startKnown)], grace)
            && Holding(inside, p, s.nextGen) && inside.lock.Some?
            && inside.lock.value.owner == Some(Owner(p.pid, if startKnown then Some(p.start) else None))
            && Possible(inside, [Unlink(p), RemoveDir(p)], grace)
            && var free := Run(inside, [Unlink(p), RemoveDir(p)]);
               free.lock.None? && free.phase == s.phase && free.alive == s.alive
  {
    var made := Apply(s, MakeDir(p));
    var inside := Apply(made, WriteOwner(p, startKnown));
    TwoSteps(s, MakeDir(p), WriteOwner(p, startKnown), grace);
    TwoSteps(inside, Unlink(p), RemoveDir(p), grace);
  }

  /** A directory with an owner record is only ever removed by a rename, and one without by a rename or a
      release; whatever else happens, it stays in its generation. */
  lemma DirectoryGoesOnlyBy(s: State, step: Step, grace: real)
    requires s.lock.Some? && Enabled(s, step, grace)
    ensures var lock := Apply(s, step).lock;
            && (lock.None? <==> step.TakeOver? || (step.RemoveDir? && s.lock.value.owner.None?))
            && (lock.Some? ==> lock.value.gen == s.lock.value.gen)
  {
  }

  lemma TwoSteps(s: State, a: Step, b: Step, grace: real)
    requires Enabled(s, a, grace) && Enabled(Apply(s, a), b, grace)
    ensures Possible(s, [a, b], grace) && Run(s, [a, b]) == Apply(Apply(s, a), b)
  {
    hide Enabled, Apply;
    var s1, s2 := Apply(s, a), Apply(Apply(s, a), b);
    assert [b][1..] == [] && [a, b][1..] == [b];
    assert Possible(s2, [], grace) && Run(s2, []) == s2;
    assert Possible(s1, [b], grace) && Run(s1, [b]) == s2;
  }

  // ---- the assumptions are needed ----

  const A := Process(1, 10)
  const B := Process(2, 20)
  const C := Process(3, 30)
  const DEAD := Probe(Dead, None)

  /** A possible run through timely states. */
  ghost predicate TimelyRun(s: State, steps: seq<Step>, s': State) {
    Possible(s, steps, 2.0) && AllTimely(s, steps, 2.0) && Run(s, steps) == s'
  }

  lemma NoStep(s: State)
    requires Timely(s, 2.0)
    ensures TimelyRun(s, [], s)
  {
  }

  lemma OneStep(s: State, step: Step, next: State, rest: seq<Step>, s': State)
    requires Enabled(s, step, 2.0) && Timely(s, 2.0) && Apply(s, step) == next && TimelyRun(next, rest, s')
    ensures TimelyRun(s, [step] + rest, s')
  {
    assert ([step] + rest)[1..] == rest;
  }

  const WAITING := Start({A, B, C})
  const MADE :=
    State(Some(Dir(0, None, 0.0)), 1, map[A := Waiting, B := Waiting, C := Made(0)], {A, B, C}, 0.0, [])
  const CRASHED := MADE.(alive := {A, B})
  const ABANDONED := CRASHED.(now := 3.0)
  const SEEN_BY_A := ABANDONED.(phase := map[A := Condemned(0), B := Waiting, C := Made(0)])
  const SEEN_BY_BOTH := ABANDONED.(phase := map[A := Condemned(0), B := Condemned(0), C := Made(0)])
  const TAKEN_BY_A := State(None, 1, map[A := Waiting, B := Condemned(0), C := Made(0)], {A, B}, 3.0, [0])
  const A_INSIDE :=
    State(Some(Dir(1, None, 3.0)), 2, map[A := Made(1), B := Condemned(0), C := Made(0)], {A, B}, 3.0, [0])
  const TAKEN_BY_B := State(None, 2, map[A := Made(1), B := Waiting, C := Made(0)], {A, B}, 3.0, [0, 1])
  const BOTH_INSIDE :=
    State(Some(Dir(2, None, 3.0)), 3, map[A := Made(1), B := Made(2), C := Made(0)], {A, B}, 3.0, [0, 1])

  /** `C` takes the lock and dies; `A` and `B` both find the directory stale; `A` renames it away and
      makes its own, and the rename of `B` hits that one. */
  function LateRename(): seq<Step> {
    [MakeDir(C)] + ([Crash(C)] + ([Tick(3.0)] + ([Observe(A, DEAD)] + ([Observe(B, DEAD)]
    + ([TakeOver(A)] + ([MakeDir(A)] + ([TakeOver(B)] + ([MakeDir(B)] + []))))))))
  }

  lemma LateRenameLast()
    ensures TimelyRun(A_INSIDE, [TakeOver(B)] + ([MakeDir(B)] + []), BOTH_INSIDE)
  {
    hide TimelyRun;
    NoStep(BOTH_INSIDE);
    OneStep(TAKEN_BY_B, MakeDir(B), BOTH_INSIDE, [], BOTH_INSIDE);
    OneStep(A_INSIDE, TakeOver(B), TAKEN_BY_B, [MakeDir(B)] + [], BOTH_INSIDE);
  }

  lemma LateRenameEnd()
    ensures TimelyRun(TAKEN_BY_A, [MakeDir(A)] + ([TakeOver(B)] + ([MakeDir(B)] + [])), BOTH_INSIDE)
  {
    hide TimelyRun;
    LateRenameLast();
    OneStep(TAKEN_BY_A, MakeDir(A), A_INSIDE, [TakeOver(B)] + ([MakeDir(B)] + []), BOTH_INSIDE);
  }

  lemma LateRenameTake(rest: seq<Step>)
    requires TimelyRun(TAKEN_BY_A, rest, BOTH_INSIDE)
    ensures TimelyRun(SEEN_BY_BOTH, [TakeOver(A)] + rest, BOTH_INSIDE)
  {
    hide TimelyRun;
    OneStep(SEEN_BY_BOTH, TakeOver(A), TAKEN_BY_A, rest, BOTH_INSIDE);
  }

  lemma LateRenameSecond(rest: seq<Step>)
    requires TimelyRun(SEEN_BY_BOTH, rest, BOTH_INSIDE)
    ensures TimelyRun(SEEN_BY_A, [Observe(B, DEAD)] + rest, BOTH_INSIDE)
  {
    hide TimelyRun;
    OneStep(SEEN_BY_A, Observe(B, DEAD), SEEN_BY_BOTH, rest, BOTH_INSIDE);
  }

  lemma LateRenameObserve(rest: seq<Step>)
    requires TimelyRun(SEEN_BY_BOTH, rest, BOTH_INSIDE)
    ensures TimelyRun(ABANDONED, [Observe(A, DEAD)] + ([Observe(B, DEAD)] + rest), BOTH_INSIDE)
  {
    hide TimelyRun;
    LateRenameSecond(rest);
    OneStep(ABANDONED, Observe(A, DEAD), SEEN_BY_A, [Observe(B, DEAD)] + rest, BOTH_INSIDE);
  }

  lemma LateRenameStart(rest: seq<Step>)
    requires TimelyRun(ABANDONED, rest, BOTH_INSIDE)
    ensures TimelyRun(WAITING, [MakeDir(C)] + ([Crash(C)] + ([Tick(3.0)] + rest)), BOTH_INSIDE)
  {
    hide TimelyRun;
    assert WAITING.phase == map[A := Waiting, B := Waiting, C := Waiting];
    OneStep(CRASHED, Tick(3.0), ABANDONED, rest, BOTH_INSIDE);
    OneStep(MADE, Crash(C), CRASHED, [Tick(3.0)] + rest, BOTH_INSIDE);
    OneStep(WAITING, MakeDir(C), MADE, [Crash(C)] + ([Tick(3.0)] + rest), BOTH_INSIDE);
  }

  /** The mutual exclusion the code promises fails when a rename lands late: a run from the start in
      which every live holder is quick, and two processes end up inside. */
  lemma LateRenameAdmitsTwo()
    ensures Possible(Start({A, B, C}), LateRename(), 2.0) && AllTimely(Start({A, B, C}), LateRename(), 2.0)
    ensures var s := Run(Start({A, B, C}), LateRename());
            Holding(s, A, 1) && Holding(s, B, 2) && !AtMostOneHolder(s)
  {
    LateRenameEnd();
    LateRenameTake([MakeDir(A)] + ([TakeOver(B)] + ([MakeDir(B)] + [])));
    LateRenameObserve([TakeOver(A)] + ([MakeDir(A)] + ([TakeOver(B)] + ([MakeDir(B)] + []))));
    LateRenameStart([Observe(A, DEAD)] + ([Observe(B, DEAD)] + ([TakeOver(A)]
                    + ([MakeDir(A)] + ([TakeOver(B)] + ([MakeDir(B)] + []))))));
    TwoHolders(BOTH_INSIDE, A, B, 1, 2);
  }

  /** Two possible steps in a row. */
  ghost predicate Leads(s: State, one: Step, two: Step, s': State) {
    Enabled(s, one, 2.0) && Enabled(Apply(s, one), two, 2.0) && Apply(Apply(s, one), two) == s'
  }

  const SLOW_HOLDER := State(Some(Dir(0, None, 0.0)), 1, map[A := Made(0), B := Waiting], {A, B}, 3.0, [])
  const EVICTED := State(None, 1, map[A := Made(0), B := Waiting], {A, B}, 3.0, [0])

  /** It also fails when a live holder is slow to write its owner record, although the rename hits
      the directory that was observed. */
  lemma SlowOwnerAdmitsTwo()
    ensures Leads(Start({A, B}), MakeDir(A), Tick(3.0), SLOW_HOLDER)
    ensures Leads(SLOW_HOLDER, Observe(B, DEAD), TakeOver(B), EVICTED)
    ensures HitsObserved(Apply(SLOW_HOLDER, Observe(B, DEAD)), TakeOver(B))
    ensures Enabled(EVICTED, MakeDir(B), 2.0)
    ensures var s := Apply(EVICTED, MakeDir(B));
            Holding(s, A, 0) && Holding(s, B, 1) && !AtMostOneHolder(s)
  {
    assert Start({A, B}).phase == map[A := Waiting, B := Waiting];
    TwoHolders(Apply(EVICTED, MakeDir(B)), A, B, 0, 1);
  }
}
