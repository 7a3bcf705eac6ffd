/**
 The intervention evaluator `efficacy-eval.py`: each shipped change has a record naming the signal it
 should move; once enough runs have followed, the record is reviewed against the telemetry log, until
 a review reaches a conclusion.
 */
module Efficacy {
  import opened Prelude

  // ---- order on strings, as Python compares them ----

  predicate Less(a: string, b: string) {
    b != "" && (a == "" || a[0] < b[0] || (a[0] == b[0] && Less(a[1..], b[1..])))
  }

  lemma {:induction false} LessIsTotal(a: string, b: string)
    ensures Less(a, b) || a == b || Less(b, a)
    ensures !(Less(a, b) && Less(b, a)) && !Less(a, a)
  {
    if a != "" {
      LessIsTotal(a[1..], a[1..]);
    }
    if a != "" && b != "" {
      LessIsTotal(a[1..], b[1..]);
      assert a == [a[0]] + a[1..] && b == [b[0]] + b[1..];
    }
  }

  // ---- targets ----

  datatype Kind = Event(name: string) | Kpi | Undeclared | Invalid

  function BeforeSlash(s: string): string {
    if s == "" || s[0] == '/' then "" else [s[0]] + BeforeSlash(s[1..])
  }

  function AfterSlash(s: string): Option<string> {
    if s == "" then None else if s[0] == '/' then Some(s[1..]) else AfterSlash(s[1..])
  }

  const EVENT_PREFIX := "event:"

  /** `_resolve_target_signal` */
  function Resolve(target: Option<string>): Kind {
    if target.None? || target.value == "" then Invalid
    else if target.value == "undeclared" then Undeclared
    else if EVENT_PREFIX <= target.value then
      var name := BeforeSlash(target.value[6..]);
      if name == "" then Invalid else Event(name)
    else if "kpi:" <= target.value then Kpi
    else Invalid
  }

  /** `_target_signature` */
  function Signature(target: Option<string>): Option<string> {
    if target.None? || !(EVENT_PREFIX <= target.value) then None
    else
      var rest := AfterSlash(target.value[6..]);
      if rest == Some("") then None else rest
  }

  /** `_same_signal` */
  predicate SameSignal(a: Option<string>, b: Option<string>) {
    || a == b
    || (&& Resolve(a).Event? && Resolve(a) == Resolve(b)
        && (Signature(a).None? || Signature(b).None? || Signature(a) == Signature(b)))
  }

  /** One telemetry line; `gate` is `data.gate`. */
  datatype Telemetry = Telemetry(run: Option<string>, event: string, gate: Option<string>)

  /** Does this line count towards the target? */
  predicate Counts(e: Telemetry, target: Option<string>) {
    && Resolve(target) == Event(e.event)
    && (Signature(target).None? || Signature(target) == e.gate)
  }

  lemma {:induction false} SlashSplits(name: string, rest: string)
    requires '/' !in name
    ensures BeforeSlash(name + rest) == name + BeforeSlash(rest)
    ensures AfterSlash(name + rest) == AfterSlash(rest)
  {
    if name == "" {
      assert name + rest == rest;
    } else {
      assert (name + rest)[1..] == name[1..] + rest;
      SlashSplits(name[1..], rest);
    }
  }

  /** A target is written as an event type, alone or with a gate behind a slash: the first form counts every
      line of the type, the second those of the gate. */
  lemma TargetIsRead(name: string, gate: string, e: Telemetry)
    requires name != "" && '/' !in name && gate != ""
    ensures Counts(e, Some(EVENT_PREFIX + name)) <==> e.event == name
    ensures Counts(e, Some(EVENT_PREFIX + name + "/" + gate)) <==> e.event == name && e.gate == Some(gate)
  {
    var plain, gated := EVENT_PREFIX + name, EVENT_PREFIX + name + "/" + gate;
    assert plain[6..] == name == name + "" && gated[6..] == name + ("/" + gate);
    SlashSplits(name, "");
    SlashSplits(name, "/" + gate);
    assert ("/" + gate)[1..] == gate;
    assert EVENT_PREFIX <= plain && EVENT_PREFIX <= gated;
    assert plain[0] == 'e' && gated[0] == 'e';
  }

  /** Two event targets are the same signal exactly when some telemetry line counts towards both. */
  lemma SameSignalIffSharedEvent(a: Option<string>, b: Option<string>)
    requires Resolve(a).Event? && Resolve(b).Event?
    ensures SameSignal(a, b) <==> exists e: Telemetry :: Counts(e, a) && Counts(e, b)
    ensures SameSignal(a, b) <==> SameSignal(b, a)
  {
    if SameSignal(a, b) {
      var gate := if Signature(a).Some? then Signature(a) else Signature(b);
      var e := Telemetry(None, Resolve(a).name, gate);
      assert Counts(e, a) && Counts(e, b);
    }
  }

  // ---- records ----

  datatype Status = Open | Inconclusive | Confirmed | Refuted

  datatype Direction = Decrease | Increase | Other

  /** `lastRun` is the frozen boundary: later runs are post-ship. */
  datatype Baseline = Baseline(frozen: bool, lastRun: Option<string>, events: int, value: real)

  type Positive = n: int | 0 < n witness 1

  datatype Record = Record(shipped: string, target: Option<string>, direction: Direction, baseline: Baseline,
                           reviewAfter: Positive, minSample: int, band: int,
                           reviews: nat, status: Status, escalated: bool)

  /** Records by intervention id, one file each. */
  type Records = map<string, Record>

  predicate Unresolved(r: Record) {
    r.status.Open? || r.status.Inconclusive?
  }

  /** What a record keeps for ever. */
  predicate SameDeclaration(r: Record, r': Record) {
    r' == r.(reviews := r'.reviews, status := r'.status, escalated := r'.escalated)
  }

  // ---- windows ----

  function After(ids: seq<string>, boundary: string): seq<string> {
    if ids == [] then []
    else (if Less(boundary, ids[0]) then [ids[0]] else []) + After(ids[1..], boundary)
  }

  /** `_post_runs` */
  function PostRuns(r: Record, runIds: seq<string>): seq<string> {
    match r.baseline.lastRun
    case None => runIds
    case Some(boundary) => After(runIds, boundary)
  }

  predicate Due(r: Record, runIds: seq<string>) {
    Unresolved(r) && |PostRuns(r, runIds)| >= (r.reviews + 1) * r.reviewAfter
  }

  /** Run `k * size` up to `(k + 1) * size` of the list. */
  function Chunk(s: seq<string>, k: nat, size: Positive): (c: seq<string>)
    requires (k + 1) * size <= |s|
    ensures |c| == size
  {
    assert (k + 1) * size == k * size + size && 0 <= k * size;
    s[k * size..(k + 1) * size]
  }

  function Window(r: Record, runIds: seq<string>): seq<string>
    requires Due(r, runIds)
  {
    Chunk(PostRuns(r, runIds), r.reviews, r.reviewAfter)
  }

  // ---- verdicts ----

  function CountIn(events: seq<Telemetry>, target: Option<string>, window: seq<string>): nat {
    if events == [] then 0
    else (if events[0].run.Some? && events[0].run.value in window && Counts(events[0], target) then 1 else 0)
         + CountIn(events[1..], target, window)
  }

  function Judge(direction: Direction, movement: real, band: int): Status {
    match direction
    case Decrease =>
      if movement <= -(band as real) then Confirmed else if movement >= band as real then Refuted else Inconclusive
    case Increase =>
      if movement >= band as real then Confirmed else if movement <= -(band as real) then Refuted else Inconclusive
    case Other => Inconclusive
  }

  /** `_compute_verdict`, in exact arithmetic */
  function RawVerdict(r: Record, events: seq<Telemetry>, window: seq<string>): Status
    requires window != []
  {
    if !Resolve(r.target).Event? || r.direction.Other? || !r.baseline.frozen then Inconclusive
    else
      var count := CountIn(events, r.target, window);
      var value := count as real / |window| as real;
      if r.baseline.events + count < r.minSample then Inconclusive
      else if r.baseline.value == 0.0 then
        if count == 0 then Inconclusive else Judge(r.direction, 100.0, r.band)
      else Judge(r.direction, (value - r.baseline.value) / r.baseline.value * 100.0, r.band)
  }

  /** The two directions are mirror images for every movement exactly when the band is positive. */
  lemma DirectionsMirrorIff(band: int)
    ensures band > 0 <==> forall movement: real ::
              && (Judge(Decrease, movement, band).Confirmed? <==> Judge(Increase, movement, band).Refuted?)
              && (Judge(Decrease, movement, band).Refuted? <==> Judge(Increase, movement, band).Confirmed?)
  {
    if band <= 0 {
      assert Judge(Decrease, 0.0, band).Confirmed? && Judge(Increase, 0.0, band).Confirmed?;
    }
  }

  /** What the sum ranges over: the lines of the log, by position, whose run is one of the window's and which
      count towards the target. */
  ghost function Tallied(events: seq<Telemetry>, target: Option<string>, window: seq<string>): set<nat> {
    set i: nat | i < |events| && events[i].run.Some? && events[i].run.value in window && Counts(events[i], target)
  }

  predicate IsTallied(e: Telemetry, target: Option<string>, window: seq<string>) {
    e.run.Some? && e.run.value in window && Counts(e, target)
  }

  lemma TallyStep(events: seq<Telemetry>, target: Option<string>, window: seq<string>, later: set<nat>)
    requires events != [] && later == set i | i in Tallied(events[1..], target, window) :: i + 1
    ensures Tallied(events, target, window) == (if IsTallied(events[0], target, window) then {0} else {}) + later
  {
    hide Counts;
    var rest, all := Tallied(events[1..], target, window), Tallied(events, target, window);
    forall i: nat
      ensures i in all <==> i in (if IsTallied(events[0], target, window) then {0} else {}) + later
    {
      if i > 0 {
        assert i in later <==> i - 1 in rest;
        assert i < |events| ==> events[1..][i - 1] == events[i];
      }
    }
  }

  lemma {:induction false} CountIsTally(events: seq<Telemetry>, target: Option<string>, window: seq<string>)
    ensures CountIn(events, target, window) == |Tallied(events, target, window)|
  {
    hide Counts, Tallied;
    if events != [] {
      var later: set<nat> := set i | i in Tallied(events[1..], target, window) :: i + 1;
      CountIsTally(events[1..], target, window);
      Shifted(Tallied(events[1..], target, window), later);
      TallyStep(events, target, window, later);
      assert 0 !in later;
    } else {
      NoTally(target, window);
    }
  }

  lemma NoTally(target: Option<string>, window: seq<string>)
    ensures Tallied([], target, window) == {}
  {
  }

  lemma {:induction false} Shifted(s: set<nat>, later: set<nat>)
    requires later == set i | i in s :: i + 1
    ensures |later| == |s|
    decreases |s|
  {
    if s != {} {
      var i :| i in s;
      Shifted(s - {i}, set j | j in s - {i} :: j + 1);
      var fewer := set j | j in s - {i} :: j + 1;
      forall k: nat ensures k in later <==> k in fewer + {i + 1} {
        assert k > 0 ==> (k in later <==> k - 1 in s) && (k in fewer <==> k - 1 in s - {i});
      }
      assert later == fewer + {i + 1};
    } else {
      assert later == {};
    }
  }

  /** The lines of the window's runs. */
  function Only(events: seq<Telemetry>, window: seq<string>): seq<Telemetry> {
    if events == [] then []
    else (if events[0].run.Some? && events[0].run.value in window then [events[0]] else []) + Only(events[1..], window)
  }

  lemma {:induction false} CountIgnoresOthers(events: seq<Telemetry>, target: Option<string>, window: seq<string>)
    ensures CountIn(events, target, window) == CountIn(Only(events, window), target, window)
  {
    hide Counts;
    if events != [] {
      CountIgnoresOthers(events[1..], target, window);
      var rest := Only(events[1..], window);
      if events[0].run.Some? && events[0].run.value in window {
        assert Only(events, window) == [events[0]] + rest && ([events[0]] + rest)[1..] == rest;
      } else {
        assert Only(events, window) == [] + rest == rest;
      }
    }
  }

  /** Lines of other runs, or of none, never change a verdict: logs with the same lines of the window's runs
      give the same one. */
  lemma OtherRunsChangeNothing(r: Record, events: seq<Telemetry>, others: seq<Telemetry>, window: seq<string>)
    requires window != [] && Only(events, window) == Only(others, window)
    ensures RawVerdict(r, events, window) == RawVerdict(r, others, window)
  {
    hide Resolve, Counts, CountIn, Only, Judge;
    CountIgnoresOthers(events, r.target, window);
    CountIgnoresOthers(others, r.target, window);
  }

  /** Whether the window can be judged at all: an event target with a declared direction, a frozen baseline,
      and enough events in baseline and window together. */
  ghost predicate Judged(r: Record, events: seq<Telemetry>, window: seq<string>) {
    && Resolve(r.target).Event? && !r.direction.Other? && r.baseline.frozen
    && r.baseline.events + |Tallied(events, r.target, window)| >= r.minSample
  }

  /** `count` is at most the band below what `rate` would give; from a rate of zero any event is a
      movement of a hundred percent up. */
  predicate Fell(count: nat, size: nat, rate: real, band: int) {
    if rate == 0.0 then count > 0 && 100 <= -band
    else count as real * 100.0 <= rate * size as real * (100 - band) as real
  }

  /** `count` is at least the band above what `rate` would give. */
  predicate Rose(count: nat, size: nat, rate: real, band: int) {
    if rate == 0.0 then count > 0 && 100 >= band
    else count as real * 100.0 >= rate * size as real * (100 + band) as real
  }

  /** The movement in the direction the record asked for, and the one against it. */
  ghost predicate Moved(direction: Direction, along: bool, count: nat, size: nat, rate: real, band: int) {
    if direction.Decrease? == along then Fell(count, size, rate, band) else Rose(count, size, rate, band)
  }

  /** A window that confirms the record. */
  ghost predicate Confirms(r: Record, events: seq<Telemetry>, window: seq<string>) {
    && Judged(r, events, window)
    && Moved(r.direction, true, |Tallied(events, r.target, window)|, |window|, r.baseline.value, r.band)
  }

  /** A window that refutes it; where the band is so small that both tests pass, it counts as confirmed. */
  ghost predicate Refutes(r: Record, events: seq<Telemetry>, window: seq<string>) {
    && Judged(r, events, window) && !Confirms(r, events, window)
    && Moved(r.direction, false, |Tallied(events, r.target, window)|, |window|, r.baseline.value, r.band)
  }

  /** The whole verdict by the number of tallied lines, without division: when it confirms, when it refutes,
      and inconclusive otherwise, for both directions and a baseline of zero too. */
  lemma VerdictIff(r: Record, events: seq<Telemetry>, window: seq<string>)
    requires window != [] && r.baseline.value >= 0.0
    ensures RawVerdict(r, events, window)
            == if Confirms(r, events, window) then Confirmed
               else if Refutes(r, events, window) then Refuted else Inconclusive
    ensures !(Confirms(r, events, window) && Refutes(r, events, window))
  {
    CountIsTally(events, r.target, window);
    var n := |Tallied(events, r.target, window)|;
    if Judged(r, events, window) {
      if r.baseline.value == 0.0 {
        VerdictFromZero(r, events, window, n);
      } else {
        VerdictFromRate(r, events, window, n);
      }
    }
  }

  lemma VerdictFromZero(r: Record, events: seq<Telemetry>, window: seq<string>, n: nat)
    requires window != [] && r.baseline.value == 0.0 && n == CountIn(events, r.target, window)
    requires Resolve(r.target).Event? && !r.direction.Other? && r.baseline.frozen
    requires r.baseline.events + n >= r.minSample
    ensures RawVerdict(r, events, window)
            == if Moved(r.direction, true, n, |window|, r.baseline.value, r.band) then Confirmed
               else if Moved(r.direction, false, n, |window|, r.baseline.value, r.band) then Refuted else Inconclusive
  {
    hide Resolve, Counts, CountIn;
  }

  lemma VerdictFromRate(r: Record, events: seq<Telemetry>, window: seq<string>, n: nat)
    requires window != [] && r.baseline.value > 0.0 && n == CountIn(events, r.target, window)
    requires Resolve(r.target).Event? && !r.direction.Other? && r.baseline.frozen
    requires r.baseline.events + n >= r.minSample
    ensures RawVerdict(r, events, window)
            == if Moved(r.direction, true, n, |window|, r.baseline.value, r.band) then Confirmed
               else if Moved(r.direction, false, n, |window|, r.baseline.value, r.band) then Refuted else Inconclusive
  {
    hide Resolve, Counts, CountIn, Fell, Rose, Movement;
    var movement := Movement(n as real, |window| as real, r.baseline.value);
    assert RawVerdict(r, events, window) == Judge(r.direction, movement, r.band) by {
      MovementOf(n as real, |window| as real, r.baseline.value);
    }
    MovementScales(n, |window|, r.baseline.value, r.band);
  }

  /** The movement in percent of the baseline rate. */
  function Movement(count: real, size: real, rate: real): real
    requires size > 0.0 && rate > 0.0
  {
    (count / size - rate) / rate * 100.0
  }

  lemma MovementOf(count: real, size: real, rate: real)
    requires size > 0.0 && rate > 0.0
    ensures Movement(count, size, rate) == (count / size - rate) / rate * 100.0
  {
  }

  lemma MovementScales(count: nat, size: nat, rate: real, band: int)
    requires size > 0 && rate > 0.0
    ensures var movement := Movement(count as real, size as real, rate);
            && (movement <= -(band as real) <==> Fell(count, size, rate, band))
            && (movement >= band as real <==> Rose(count, size, rate, band))
  {
    hide Movement, Fell, Rose;
    var m := Movement(count as real, size as real, rate);
    MovementAsCount(count as real, size as real, rate);
    FellIff(count, size, rate, band, m);
    RoseIff(count, size, rate, band, m);
  }

  lemma FellIff(count: nat, size: nat, rate: real, band: int, movement: real)
    requires rate > 0.0 && rate * size as real > 0.0
    requires count as real * 100.0 == (rate * size as real) * (movement + 100.0)
    ensures movement <= -(band as real) <==> Fell(count, size, rate, band)
  {
    Scale(rate * size as real, movement + 100.0, (100 - band) as real);
  }

  lemma RoseIff(count: nat, size: nat, rate: real, band: int, movement: real)
    requires rate > 0.0 && rate * size as real > 0.0
    requires count as real * 100.0 == (rate * size as real) * (movement + 100.0)
    ensures movement >= band as real <==> Rose(count, size, rate, band)
  {
    Scale(rate * size as real, (100 + band) as real, movement + 100.0);
  }

  lemma MovementAsCount(count: real, size: real, rate: real)
    requires size > 0.0 && rate > 0.0
    ensures rate * size > 0.0 && count * 100.0 == (rate * size) * (Movement(count, size, rate) + 100.0)
  {
    var q := count / size;
    assert count == q * size;
    var p := (q - rate) / rate;
    assert p * rate == q - rate;
    assert count * 100.0 == (p * rate + rate) * size * 100.0 == (rate * size) * (p * 100.0 + 100.0);
  }

  lemma Scale(m: real, x: real, y: real)
    requires m > 0.0
    ensures x <= y <==> m * x <= m * y
  {
    assert m * y - m * x == m * (y - x);
  }

  /** Against a positive baseline rate, "decrease" is confirmed exactly when the tallied lines are at most
      the band below what that rate would give; and "increase" exactly when they are at least as far above. */
  lemma ConfirmedIff(r: Record, events: seq<Telemetry>, window: seq<string>)
    requires window != [] && r.baseline.value > 0.0
    ensures var n := |Tallied(events, r.target, window)|;
            RawVerdict(r, events, window).Confirmed? <==>
            && Resolve(r.target).Event? && r.baseline.frozen && r.baseline.events + n >= r.minSample
            && match r.direction
               case Decrease => n as real * 100.0 <= r.baseline.value * |window| as real * (100 - r.band) as real
               case Increase => n as real * 100.0 >= r.baseline.value * |window| as real * (100 + r.band) as real
               case Other => false
  {
    hide RawVerdict, Tallied, Resolve;
    VerdictIff(r, events, window);
  }

  // ---- the confounder cap ----

  /** `_confounders_for`: the other record's window overlaps. */
  predicate Overlaps(mine: Record, other: Record) {
    || (other.shipped != "" && mine.shipped != "" && !Less(other.shipped, mine.shipped))
    || Unresolved(other)
  }

  predicate Confounds(rs: Records, id: string, other: string)
    requires id in rs
  {
    && other in rs && other != id && Overlaps(rs[id], rs[other])
    && rs[id].target != None && rs[id].target != Some("undeclared")
    && SameSignal(rs[id].target, rs[other].target)
  }

  predicate Confounded(rs: Records, id: string)
    requires id in rs
  {
    exists other :: other in rs && Confounds(rs, id, other)
  }

  /** Who stands in the way of a conclusion: another record of the signal that is undecided, or that
      shipped, both ship dates being known, on the same day or later. */
  lemma ConfoundedIff(rs: Records, id: string)
    requires id in rs
    ensures Confounded(rs, id) <==>
            && rs[id].target != None && rs[id].target != Some("undeclared")
            && exists other :: other in rs && other != id && SameSignal(rs[id].target, rs[other].target)
                 && var (mine, its) := (rs[id].shipped, rs[other].shipped);
                    || rs[other].status in {Open, Inconclusive}
                    || (mine != "" && its != "" && (its == mine || Less(mine, its)))
  {
    hide SameSignal, Less;
    forall other | other in rs
      ensures Overlaps(rs[id], rs[other]) <==>
              || rs[other].status in {Open, Inconclusive}
              || (rs[id].shipped != "" && rs[other].shipped != ""
                  && (rs[other].shipped == rs[id].shipped || Less(rs[id].shipped, rs[other].shipped)))
    {
      LessIsTotal(rs[id].shipped, rs[other].shipped);
    }
    if Confounded(rs, id) {
      var other :| other in rs && Confounds(rs, id, other);
    }
    if other :| other in rs && other != id && Overlaps(rs[id], rs[other])
                && SameSignal(rs[id].target, rs[other].target)
                && rs[id].target != None && rs[id].target != Some("undeclared") {
      assert Confounds(rs, id, other);
    }
  }

  function Capped(raw: Status, confounded: bool): Status {
    if confounded then Inconclusive else raw
  }

  function WithVerdict(r: Record, verdict: Status): Record {
    r.(reviews := r.reviews + 1, status := verdict,
       escalated := r.escalated || (verdict.Inconclusive? && r.reviews + 1 >= 2))
  }

  // ---- steps ----

  datatype Step =
    | Capture(id: string, record: Record)
    | Review(id: string, events: seq<Telemetry>, runIds: seq<string>)

  /** A capture never overwrites a record; a review that is not due changes nothing. */
  function Apply(rs: Records, step: Step): Records {
    match step
    case Capture(id, record) =>
      if id in rs then rs else rs[id := record.(reviews := 0, status := Open, escalated := false)]
    case Review(id, events, runIds) =>
      if id !in rs || !Due(rs[id], runIds) then rs
      else
        var raw := RawVerdict(rs[id], events, Window(rs[id], runIds));
        rs[id := WithVerdict(rs[id], Capped(raw, Confounded(rs, id)))]
  }

  function Run(rs: Records, steps: seq<Step>): Records {
    if steps == [] then rs else Apply(Run(rs, steps[..|steps| - 1]), steps[|steps| - 1])
  }

  /** A step keeps every record, its declaration, and any conclusion. */
  lemma StepKeeps(rs: Records, step: Step, id: string)
    requires id in rs
    ensures var rs' := Apply(rs, step);
            && id in rs' && SameDeclaration(rs[id], rs'[id])
            && (!Unresolved(rs[id]) ==> rs'[id] == rs[id])
  {
  }

  lemma {:induction false} RunKeeps(rs: Records, steps: seq<Step>, id: string)
    requires id in rs
    ensures var rs' := Run(rs, steps);
            && id in rs' && SameDeclaration(rs[id], rs'[id])
            && (!Unresolved(rs[id]) ==> rs'[id] == rs[id])
  {
    hide RawVerdict, Confounded, Due, SameSignal;
    if steps != [] {
      RunKeeps(rs, steps[..|steps| - 1], id);
      StepKeeps(Run(rs, steps[..|steps| - 1]), steps[|steps| - 1], id);
    }
  }

  /** A review that concludes is of an event target, and no other record of the same signal is
      unresolved or, where both are dated, shipped on or after its ship date. */
  lemma ConcludesUnconfounded(rs: Records, step: Step, id: string, other: string)
    requires id in rs && Unresolved(rs[id]) && !Unresolved(Apply(rs, step)[id])
    requires other in rs && other != id && SameSignal(rs[id].target, rs[other].target)
    ensures step.Review? && step.id == id && !Overlaps(rs[id], rs[other])
  {
    assert Resolve(rs[id].target).Event? && !Confounded(rs, id);
    assert !Confounds(rs, id, other);
  }

  /** What one review decides: nothing unless the record is due, and then exactly what its window shows,
      unless another record of the same signal overlaps. */
  lemma ReviewConcludesIff(rs: Records, id: string, events: seq<Telemetry>, runIds: seq<string>)
    requires id in rs && Unresolved(rs[id]) && rs[id].baseline.value >= 0.0
    ensures var r, r' := rs[id], Apply(rs, Review(id, events, runIds))[id];
            if !Due(r, runIds) then r' == r
            else
              && r'.reviews == r.reviews + 1
              && (r'.status.Confirmed? <==> !Confounded(rs, id) && Confirms(r, events, Window(r, runIds)))
              && (r'.status.Refuted? <==> !Confounded(rs, id) && Refutes(r, events, Window(r, runIds)))
              && (!r'.status.Confirmed? && !r'.status.Refuted? ==> r'.status.Inconclusive?)
  {
    hide RawVerdict, Confounded, Due, Confirms, Refutes;
    if Due(rs[id], runIds) {
      VerdictIff(rs[id], events, Window(rs[id], runIds));
    }
  }

  lemma SameSignalIsSymmetric(a: Option<string>, b: Option<string>)
    requires SameSignal(a, b)
    ensures SameSignal(b, a)
  {
  }

  /** Two records of the same signal that are unresolved at the same time never conclude. */
  lemma {:induction false} UnresolvedPairNeverConcludes(rs: Records, steps: seq<Step>, x: string, y: string)
    requires x != y && x in rs && y in rs && Unresolved(rs[x]) && Unresolved(rs[y])
    requires SameSignal(rs[x].target, rs[y].target)
    ensures var rs' := Run(rs, steps);
            x in rs' && y in rs' && Unresolved(rs'[x]) && Unresolved(rs'[y])
  {
    hide RawVerdict, Confounded, Due, SameSignal;
    if steps != [] {
      var before, step := Run(rs, steps[..|steps| - 1]), steps[|steps| - 1];
      UnresolvedPairNeverConcludes(rs, steps[..|steps| - 1], x, y);
      RunKeeps(rs, steps[..|steps| - 1], x);
      RunKeeps(rs, steps[..|steps| - 1], y);
      SameSignalIsSymmetric(rs[x].target, rs[y].target);
      if !Unresolved(Apply(before, step)[x]) {
        ConcludesUnconfounded(before, step, x, y);
      }
      if !Unresolved(Apply(before, step)[y]) {
        ConcludesUnconfounded(before, step, y, x);
      }
    }
  }

  /** At some moment of the run `x` had concluded and `y` was not captured yet. */
  ghost predicate ConcludedBefore(steps: seq<Step>, x: string, y: string) {
    exists k | 0 <= k <= |steps| :: ConcludedWithout(Run(map[], steps[..k]), x, y)
  }

  predicate ConcludedWithout(rs: Records, x: string, y: string) {
    x in rs && !Unresolved(rs[x]) && y !in rs
  }

  lemma ConcludedBeforeExtends(steps: seq<Step>, n: nat, x: string, y: string)
    requires n <= |steps| && ConcludedBefore(steps[..n], x, y)
    ensures ConcludedBefore(steps, x, y)
  {
    var k :| 0 <= k <= n && ConcludedWithout(Run(map[], steps[..n][..k]), x, y);
    assert steps[..n][..k] == steps[..k];
  }

  /** Once a record has concluded, every other record of its signal either came later or had
      concluded before it came. */
  lemma {:induction false} ConclusionsAreOrdered(steps: seq<Step>, x: string, y: string)
    requires var rs := Run(map[], steps);
             && x != y && x in rs && y in rs && !Unresolved(rs[x])
             && SameSignal(rs[x].target, rs[y].target)
    ensures ConcludedBefore(steps, x, y)
            || (!Unresolved(Run(map[], steps)[y]) && ConcludedBefore(steps, y, x))
  {
    hide RawVerdict, Confounded, Due, SameSignal;
    var n := |steps| - 1;
    var before, step := Run(map[], steps[..n]), steps[n];
    assert x in before;
    if y !in before {
      assert ConcludedWithout(Run(map[], steps[..n]), x, y);
    } else {
      StepKeeps(before, step, x);
      StepKeeps(before, step, y);
      if Unresolved(before[x]) {
        ConcludesUnconfounded(before, step, x, y);
        SameSignalIsSymmetric(before[x].target, before[y].target);
        ConclusionsAreOrdered(steps[..n], y, x);
        ConcludedBeforeExtends(steps, n, y, x);
      } else {
        ConclusionsAreOrdered(steps[..n], x, y);
        if ConcludedBefore(steps[..n], x, y) {
          ConcludedBeforeExtends(steps, n, x, y);
        } else {
          ConcludedBeforeExtends(steps, n, y, x);
        }
      }
    }
  }

  /** Of two concluded records of the same signal, both dated, the one captured after the other's
      conclusion shipped strictly later. */
  lemma {:induction false} LaterConclusionShippedLater(steps: seq<Step>, x: string, y: string)
    requires var rs := Run(map[], steps);
             && x in rs && y in rs && !Unresolved(rs[x]) && !Unresolved(rs[y])
             && SameSignal(rs[x].target, rs[y].target)
             && rs[x].shipped != "" && rs[y].shipped != ""
    requires ConcludedBefore(steps, x, y)
    ensures Less(Run(map[], steps)[x].shipped, Run(map[], steps)[y].shipped)
  {
    hide RawVerdict, Confounded, Due, SameSignal;
    var n := |steps| - 1;
    var k :| 0 <= k <= |steps| && ConcludedWithout(Run(map[], steps[..k]), x, y);
    assert steps[..|steps|] == steps;
    assert k <= n;
    assert steps[..n][..k] == steps[..k];
    var before, step := Run(map[], steps[..n]), steps[n];
    KeptFrom(steps, k, n, x);
    assert y in before by {
      assert !Unresolved(Apply(before, step)[y]);
    }
    StepKeeps(before, step, x);
    StepKeeps(before, step, y);
    if Unresolved(before[y]) {
      SameSignalIsSymmetric(before[x].target, before[y].target);
      ConcludesUnconfounded(before, step, y, x);
    } else {
      assert ConcludedBefore(steps[..n], x, y);
      LaterConclusionShippedLater(steps[..n], x, y);
    }
  }

  lemma {:induction false} KeptFrom(steps: seq<Step>, k: nat, n: nat, x: string)
    requires k <= n <= |steps| && x in Run(map[], steps[..k]) && !Unresolved(Run(map[], steps[..k])[x])
    ensures x in Run(map[], steps[..n]) && Run(map[], steps[..n])[x] == Run(map[], steps[..k])[x]
  {
    hide RawVerdict, Confounded, Due, SameSignal;
    if k < n {
      KeptFrom(steps, k, n - 1, x);
      assert steps[..n][..n - 1] == steps[..n - 1];
      StepKeeps(Run(map[], steps[..n - 1]), steps[n - 1], x);
    }
  }

  /** Escalated are exactly the records with two inconclusive reviews behind them. */
  lemma {:induction false} EscalatedIffTwiceInconclusive(steps: seq<Step>, id: string)
    requires id in Run(map[], steps)
    ensures var r := Run(map[], steps)[id];
            && (Unresolved(r) ==> (r.escalated <==> r.reviews >= 2))
            && (!Unresolved(r) ==> r.reviews >= 1 && (r.escalated <==> r.reviews >= 3))
  {
    if steps != [] && id in Run(map[], steps[..|steps| - 1]) {
      EscalatedIffTwiceInconclusive(steps[..|steps| - 1], id);
    }
  }

  // ---- each run is scored once ----

  lemma {:induction false} AfterAppends(a: seq<string>, b: seq<string>, boundary: string)
    ensures After(a + b, boundary) == After(a, boundary) + After(b, boundary)
  {
    if a == [] {
      assert a + b == b;
    } else {
      AfterAppends(a[1..], b, boundary);
      assert (a + b)[0] == a[0] && (a + b)[1..] == a[1..] + b;
      var kept := if Less(boundary, a[0]) then [a[0]] else [];
      assert kept + (After(a[1..], boundary) + After(b, boundary)) == kept + After(a[1..], boundary) + After(b, boundary);
    }
  }

  lemma PostRunsGrowAtTheEnd(r: Record, ids: seq<string>, ids': seq<string>)
    requires ids <= ids'
    ensures PostRuns(r, ids) <= PostRuns(r, ids')
  {
    if r.baseline.lastRun.Some? {
      AfterAppends(ids, ids'[|ids|..], r.baseline.lastRun.value);
      assert ids' == ids + ids'[|ids|..];
    }
  }

  /** The window a step scores for `id`, if any. */
  function Scored(rs: Records, step: Step, id: string): seq<seq<string>> {
    if step.Review? && step.id == id && id in rs && Due(rs[id], step.runIds)
    then [Window(rs[id], step.runIds)]
    else []
  }

  /** The windows scored for `id`, in order. */
  function Windows(steps: seq<Step>, id: string): seq<seq<string>> {
    if steps == [] then []
    else
      var n := |steps| - 1;
      Windows(steps[..n], id) + Scored(Run(map[], steps[..n]), steps[n], id)
  }

  /** Every review so far saw a prefix of `runIds`. */
  ghost predicate LogOnlyGrows(steps: seq<Step>, runIds: seq<string>) {
    forall i :: 0 <= i < |steps| && steps[i].Review? ==> steps[i].runIds <= runIds
  }

  /** `windows` are the first `n` blocks of `post`. */
  ghost predicate Blocks(windows: seq<seq<string>>, post: seq<string>, n: nat, size: Positive) {
    && |windows| == n && n * size <= |post|
    && forall k :: 0 <= k < n ==> (k + 1) * size <= |post| && windows[k] == Chunk(post, k, size)
  }

  lemma OneMoreBlock(windows: seq<seq<string>>, seen: seq<string>, post: seq<string>, n: nat, size: Positive)
    requires Blocks(windows, post, n, size) && seen <= post && (n + 1) * size <= |seen|
    ensures Blocks(windows + [Chunk(seen, n, size)], post, n + 1, size)
  {
    assert (n + 1) * size == n * size + size;
    assert Chunk(seen, n, size) == Chunk(post, n, size);
  }

  lemma StepScoresTheNextBlock(rs: Records, step: Step, id: string, windows: seq<seq<string>>, runIds: seq<string>)
    requires id in rs && (step.Review? ==> step.runIds <= runIds)
    requires Blocks(windows, PostRuns(rs[id], runIds), rs[id].reviews, rs[id].reviewAfter)
    ensures var r := Apply(rs, step)[id];
            Blocks(windows + Scored(rs, step, id), PostRuns(r, runIds), r.reviews, r.reviewAfter)
  {
    var r := rs[id];
    if step.Review? && step.id == id && Due(r, step.runIds) {
      PostRunsGrowAtTheEnd(r, step.runIds, runIds);
      OneMoreBlock(windows, PostRuns(r, step.runIds), PostRuns(r, runIds), r.reviews, r.reviewAfter);
    } else {
      assert windows + Scored(rs, step, id) == windows;
    }
  }

  /** Review `k` of a record scored exactly its `k`-th block of post-ship runs. */
  lemma {:induction false} ReviewScoresItsBlock(steps: seq<Step>, runIds: seq<string>, id: string)
    requires LogOnlyGrows(steps, runIds) && id in Run(map[], steps)
    ensures var r := Run(map[], steps)[id];
            Blocks(Windows(steps, id), PostRuns(r, runIds), r.reviews, r.reviewAfter)
  {
    var n := |steps| - 1;
    var before := Run(map[], steps[..n]);
    if id in before {
      ReviewScoresItsBlock(steps[..n], runIds, id);
      StepScoresTheNextBlock(before, steps[n], id, Windows(steps[..n], id), runIds);
    } else {
      NoWindowBeforeCapture(steps[..n], id);
    }
  }

  lemma {:induction false} NoWindowBeforeCapture(steps: seq<Step>, id: string)
    requires id !in Run(map[], steps)
    ensures Windows(steps, id) == []
  {
    if steps != [] {
      NoWindowBeforeCapture(steps[..|steps| - 1], id);
    }
  }

  function Join(ws: seq<seq<string>>): seq<string> {
    if ws == [] then [] else Join(ws[..|ws| - 1]) + ws[|ws| - 1]
  }

  lemma ChunkFollows(s: seq<string>, n: nat, size: Positive)
    requires 0 <= n * size && (n + 1) * size <= |s|
    ensures n * size <= |s| && s[..n * size] + Chunk(s, n, size) == s[..(n + 1) * size]
  {
    assert (n + 1) * size == n * size + size;
  }

  lemma {:induction false} ChunksJoin(ws: seq<seq<string>>, s: seq<string>, size: Positive)
    requires Blocks(ws, s, |ws|, size)
    ensures Join(ws) == s[..|ws| * size]
  {
    if ws != [] {
      var n := |ws| - 1;
      ChunksJoin(ws[..n], s, size);
      ChunkFollows(s, n, size);
    }
  }

  /** After `n` reviews, the windows together are the first `n * reviewAfter` post-ship runs, each once. */
  lemma ReviewsScoreEachRunOnce(steps: seq<Step>, runIds: seq<string>, id: string)
    requires LogOnlyGrows(steps, runIds) && Distinct(runIds) && id in Run(map[], steps)
    ensures var r := Run(map[], steps)[id];
            && r.reviews * r.reviewAfter <= |PostRuns(r, runIds)|
            && Join(Windows(steps, id)) == PostRuns(r, runIds)[..r.reviews * r.reviewAfter]
            && Distinct(Join(Windows(steps, id)))
  {
    ReviewScoresItsBlock(steps, runIds, id);
    JoinedBlocks(Windows(steps, id), Run(map[], steps)[id], runIds);
  }

  lemma JoinedBlocks(windows: seq<seq<string>>, r: Record, runIds: seq<string>)
    requires Blocks(windows, PostRuns(r, runIds), r.reviews, r.reviewAfter) && Distinct(runIds)
    ensures Join(windows) == PostRuns(r, runIds)[..r.reviews * r.reviewAfter] && Distinct(Join(windows))
  {
    var post := PostRuns(r, runIds);
    ChunksJoin(windows, post, r.reviewAfter);
    assert Distinct(post) by {
      PostRunsDistinct(r, runIds);
    }
    TakeKeepsDistinct(post, r.reviews * r.reviewAfter);
  }

  lemma TakeKeepsDistinct(s: seq<string>, n: nat)
    requires Distinct(s) && n <= |s|
    ensures Distinct(s[..n])
  {
  }

  lemma PostRunsDistinct(r: Record, runIds: seq<string>)
    requires Distinct(runIds)
    ensures Distinct(PostRuns(r, runIds))
  {
    if r.baseline.lastRun.Some? {
      AfterKeepsDistinct(runIds, r.baseline.lastRun.value);
    }
  }

  /** The post-ship runs are exactly those later than the boundary, each once. */
  lemma {:induction false} AfterKeepsDistinct(ids: seq<string>, boundary: string)
    requires Distinct(ids)
    ensures Distinct(After(ids, boundary))
    ensures forall id :: id in After(ids, boundary) <==> id in ids && Less(boundary, id)
  {
    if ids != [] {
      AfterKeepsDistinct(ids[1..], boundary);
      assert ids == [ids[0]] + ids[1..];
      assert ids[0] !in ids[1..];
    }
  }

  // ---- rotation of the log ----

  /** The windows of a review before and after rotation has dropped the first `dropped` runs of the log
      are the same exactly when no post-ship run was dropped. */
  lemma RotationKeepsWindowIff(r: Record, log: seq<string>, dropped: nat)
    requires dropped <= |log| && Distinct(log) && Due(r, log[dropped..])
    ensures Due(r, log)
    ensures Window(r, log[dropped..]) == Window(r, log)
            <==> |PostRuns(r, log)| == |PostRuns(r, log[dropped..])|
  {
    var all, rest := PostRuns(r, log), PostRuns(r, log[dropped..]);
    PostRunsDrop(r, log, dropped);
    PostRunsDistinct(r, log);
    ShiftedChunk(all, |all| - |rest|, r.reviews, r.reviewAfter);
  }

  /** Rotation drops as many runs from the front of the post-ship list as it drops post-ship runs. */
  lemma PostRunsDrop(r: Record, log: seq<string>, dropped: nat)
    requires dropped <= |log|
    ensures var all, rest := PostRuns(r, log), PostRuns(r, log[dropped..]);
            |rest| <= |all| && rest == all[|all| - |rest|..]
  {
    if r.baseline.lastRun.Some? {
      assert log == log[..dropped] + log[dropped..];
      AfterAppends(log[..dropped], log[dropped..], r.baseline.lastRun.value);
    }
  }

  lemma ShiftedChunk(all: seq<string>, shift: nat, k: nat, size: Positive)
    requires Distinct(all) && shift <= |all| && (k + 1) * size <= |all| - shift
    ensures Chunk(all[shift..], k, size) == Chunk(all, k, size) <==> shift == 0
  {
    assert (k + 1) * size == k * size + size && 0 <= k * size;
    assert Chunk(all[shift..], k, size)[0] == all[k * size + shift];
    assert Chunk(all, k, size)[0] == all[k * size];
    if shift == 0 {
      assert all[0..] == all;
    }
  }

  /** A run is lost for good when rotation drops an already scored one between two reviews: for a record
      whose target is no event (an undeclared one, say), of the post-ship runs `a`, `b`, `c` the second
      is in no window, although it is in the log at both reviews. */
  lemma RotationLosesARun(r: Record, a: string, b: string, c: string)
    requires !Resolve(r.target).Event? && r.baseline.lastRun.None? && r.reviewAfter == 1
    ensures var steps := [Capture("x", r), Review("x", [], [a, b]), Review("x", [], [b, c])];
            Windows(steps, "x") == [[a], [c]] && "x" in Run(map[], steps) && Run(map[], steps)["x"].reviews == 2
  {
    var first := [Capture("x", r)];
    var second := first + [Review("x", [], [a, b])];
    var third := second + [Review("x", [], [b, c])];
    var start := r.(reviews := 0, status := Open, escalated := false);
    assert first[..0] == [] && second[..1] == first && third[..2] == second;
    assert Run(map[], first) == map["x" := start] && Windows(first, "x") == [];
    assert Due(start, [a, b]) && Window(start, [a, b]) == [a];
    var once := Run(map[], second)["x"];
    assert once == WithVerdict(start, Inconclusive) && Windows(second, "x") == [[a]];
    assert Due(once, [b, c]) && Window(once, [b, c]) == [c];
    assert third == [Capture("x", r), Review("x", [], [a, b]), Review("x", [], [b, c])];
  }

  lemma ConcludedScoresNothing(steps: seq<Step>, id: string)
    requires steps != []
    requires var rs := Run(map[], steps[..|steps| - 1]); id in rs && !Unresolved(rs[id])
    ensures Windows(steps, id) == Windows(steps[..|steps| - 1], id)
  {
  }

  /** After its conclusion a record is never scored again. */
  lemma {:induction false} ConcludedIsNeverReviewed(steps: seq<Step>, n: nat, id: string)
    requires n <= |steps| && id in Run(map[], steps[..n]) && !Unresolved(Run(map[], steps[..n])[id])
    ensures Windows(steps, id) == Windows(steps[..n], id)
    decreases |steps|
  {
    hide Run, Windows, Apply, Scored;
    if n == |steps| {
      assert steps[..n] == steps;
    } else {
      var last := |steps| - 1;
      assert steps[..last][..n] == steps[..n];
      ConcludedIsNeverReviewed(steps[..last], n, id);
      KeptFrom(steps, n, last, id);
      ConcludedScoresNothing(steps, id);
    }
  }

  // ---- the run ids of a log ----

  ghost predicate Increasing(ids: seq<string>) {
    forall i, j :: 0 <= i < j < |ids| ==> Less(ids[i], ids[j])
  }

  predicate InLog(events: seq<Telemetry>, id: string) {
    id != "" && exists i :: 0 <= i < |events| && events[i].run == Some(id)
  }

  /** `sorted({run ids})` */
  ghost predicate RunIdsOf(events: seq<Telemetry>, ids: seq<string>) {
    Increasing(ids) && forall id :: id in ids <==> InLog(events, id)
  }

  /** If no run leaves the log and every new run is later than all known ones, the sorted list of run
      ids only grows at its end. Telemetry may still arrive for a known run. */
  lemma RunIdsGrowAtTheEnd(events: seq<Telemetry>, events': seq<Telemetry>, ids: seq<string>, ids': seq<string>)
    requires RunIdsOf(events, ids) && RunIdsOf(events', ids')
    requires forall id :: InLog(events, id) ==> InLog(events', id)
    requires forall id, prior :: InLog(events', id) && !InLog(events, id) && InLog(events, prior) ==> Less(prior, id)
    ensures ids <= ids'
  {
    IncreasingPrefix(ids, ids');
  }

  lemma {:induction false} IncreasingPrefix(a: seq<string>, b: seq<string>)
    requires Increasing(a) && Increasing(b) && forall id :: id in a ==> id in b
    requires forall id, prior :: id in b && id !in a && prior in a ==> Less(prior, id)
    ensures a <= b
  {
    if a != [] {
      var n := |a| - 1;
      IncreasingPrefix(a[..n], b) by {
        forall id, prior | id in b && id !in a[..n] && prior in a[..n] ensures Less(prior, id) {
          if id in a { assert id == a[n]; }
        }
      }
      assert a[n] in a;
      var j :| 0 <= j < |b| && b[j] == a[n];
      forall i | 0 <= i < n ensures b[i] == a[i] && a[i] != a[n] {
        assert b[i] == a[..n][i];
        LessIsTotal(a[i], a[n]);
      }
      forall i | 0 <= i < n ensures a[i] != b[n] {
        LessIsTotal(b[i], b[n]);
      }
      LessIsTotal(b[n], a[n]);
      assert j == n;
      assert a == a[..n] + [a[n]];
    }
  }

  // ---- the evaluator ----

  /** The ids of the other records whose window overlaps, in file order. */
  function OverlapIds(rs: Records, id: string, order: seq<string>): seq<string>
    requires id in rs && forall other :: other in order ==> other in rs
  {
    if order == [] then []
    else
      var last := order[|order| - 1];
      OverlapIds(rs, id, order[..|order| - 1])
      + if last != id && Overlaps(rs[id], rs[last]) then [last] else []
  }

  function Reviews(order: seq<string>, events: seq<Telemetry>, runIds: seq<string>): seq<Step> {
    seq(|order|, i requires 0 <= i < |order| => Review(order[i], events, runIds))
  }

  lemma RunOneMore(rs: Records, order: seq<string>, events: seq<Telemetry>, runIds: seq<string>)
    requires order != []
    ensures var n := |order| - 1;
            Run(rs, Reviews(order, events, runIds))
            == Apply(Run(rs, Reviews(order[..n], events, runIds)), Review(order[n], events, runIds))
  {
    assert Reviews(order, events, runIds)[..|order| - 1] == Reviews(order[..|order| - 1], events, runIds);
  }

  /** The verdicts a pass over `order` gives. */
  function Verdicts(rs: Records, order: seq<string>, events: seq<Telemetry>, runIds: seq<string>): map<string, Status> {
    if order == [] then map[]
    else
      var n := |order| - 1;
      var id := order[n];
      var before := Run(rs, Reviews(order[..n], events, runIds));
      var verdicts := Verdicts(rs, order[..n], events, runIds);
      if id in before && Due(before[id], runIds)
      then verdicts[id := Apply(before, Review(id, events, runIds))[id].status]
      else verdicts
  }

  /** One pass reviews exactly the records that were due when it began, and its verdicts are the
      statuses it leaves. */
  lemma {:induction false} PassReviewsTheDue(rs: Records, order: seq<string>, events: seq<Telemetry>, runIds: seq<string>, id: string)
    requires Distinct(order) && id in rs
    ensures var rs', verdicts := Run(rs, Reviews(order, events, runIds)), Verdicts(rs, order, events, runIds);
            && id in rs'
            && (id in verdicts <==> id in order && Due(rs[id], runIds))
            && (if id in verdicts then verdicts[id] == rs'[id].status else rs'[id] == rs[id])
  {
    hide RawVerdict, Confounded, Due;
    if order != [] {
      var n := |order| - 1;
      PassReviewsTheDue(rs, order[..n], events, runIds, id);
      RunOneMore(rs, order, events, runIds);
      assert order == order[..n] + [order[n]];
    }
  }

  datatype Outcome =
    | Terminal
    | NotDue(postRuns: nat, needed: nat)
    | Reviewed(verdict: Status, confounders: seq<string>)

  class Evaluator {
    var records: Records

    constructor ()
      ensures records == map[]
    {
      records := map[];
    }

    /** `record_intervention`, as far as the evaluator's fields go */
    method RecordIntervention(id: string, record: Record) returns (recorded: bool)
      modifies this
      ensures records == Apply(old(records), Capture(id, record)) && recorded == (id !in old(records))
      ensures recorded ==> id in records && SameDeclaration(record, records[id])
                           && records[id].reviews == 0 && records[id].status.Open? && !records[id].escalated
      ensures forall other :: other in old(records) ==> other in records && records[other] == old(records)[other]
    {
      if id in records { return false; }
      records := records[id := record.(reviews := 0, status := Open, escalated := false)];
      return true;
    }

    method ConfoundersFor(id: string, order: seq<string>) returns (confounders: seq<string>)
      requires id in records && forall other :: other in order <==> other in records
      ensures confounders == OverlapIds(records, id, order)
      ensures forall other :: other in confounders <==>
                other in records && other != id && Overlaps(records[id], records[other])
    {
      confounders := [];
      for i := 0 to |order|
        invariant forall other :: other in order[..i] ==> other in records
        invariant confounders == OverlapIds(records, id, order[..i])
        invariant forall other :: other in confounders <==>
                    other in order[..i] && other != id && Overlaps(records[id], records[other])
      {
        assert order[..i + 1][..i] == order[..i];
        if order[i] != id && Overlaps(records[id], records[order[i]]) {
          confounders := confounders + [order[i]];
        }
      }
      assert order[..|order|] == order;
    }

    /** `_review_record` */
    method ReviewRecord(id: string, order: seq<string>, events: seq<Telemetry>, runIds: seq<string>)
      returns (outcome: Outcome)
      requires id in records && forall other :: other in order <==> other in records
      modifies this
      ensures records == Apply(old(records), Review(id, events, runIds))
      ensures records.Keys == old(records).Keys
      ensures outcome.Terminal? <==> !Unresolved(old(records)[id])
      ensures outcome.Reviewed? <==> Due(old(records)[id], runIds)
      ensures outcome.NotDue? ==> outcome.postRuns < outcome.needed
      ensures outcome.Reviewed? ==> outcome.verdict == records[id].status
                                    && outcome.confounders == OverlapIds(old(records), id, order)
      // the verdict by what the window shows
      ensures outcome.Reviewed? && old(records)[id].baseline.value >= 0.0 ==>
                var r := old(records)[id];
                && (outcome.verdict.Confirmed? <==>
                      !Confounded(old(records), id) && Confirms(r, events, Window(r, runIds)))
                && (outcome.verdict.Refuted? <==>
                      !Confounded(old(records), id) && Refutes(r, events, Window(r, runIds)))
    {
      hide RawVerdict, Overlaps, PostRuns, SameSignal, Confirms, Refutes;
      var r := records[id];
      if !Unresolved(r) { return Terminal; }
      if r.baseline.value >= 0.0 {
        ReviewConcludesIff(records, id, events, runIds);
      }
      var k, post := r.reviews, PostRuns(r, runIds);
      if |post| < (k + 1) * r.reviewAfter {
        assert (k + 1) * r.reviewAfter == k * r.reviewAfter + r.reviewAfter;
        var seen := |post| - k * r.reviewAfter;
        return NotDue(if seen < 0 then 0 else seen, r.reviewAfter);
      }
      var verdict := RawVerdict(r, events, Window(r, runIds));
      var confounders := ConfoundersFor(id, order);
      var sameSignal := exists other :: other in confounders && r.target != None && r.target != Some("undeclared")
                                        && SameSignal(r.target, records[other].target);
      assert sameSignal <==> Confounded(records, id) by {
        if Confounded(records, id) {
          var other :| other in records && Confounds(records, id, other);
          assert other in confounders;
        }
        if sameSignal {
          var other :| other in confounders && r.target != None && r.target != Some("undeclared")
                       && SameSignal(r.target, records[other].target);
          assert Confounds(records, id, other);
        }
      }
      if sameSignal && !verdict.Inconclusive? {
        verdict := Inconclusive;
      }
      var escalated := r.escalated || (verdict.Inconclusive? && k + 1 >= 2);
      records := records[id := r.(reviews := k + 1, status := verdict, escalated := escalated)];
      return Reviewed(verdict, confounders);
    }

    /** A full pass: the records are loaded once and reviewed in file order, each review seeing what
        the earlier ones of the same pass concluded. */
    method Evaluate(order: seq<string>, events: seq<Telemetry>, runIds: seq<string>)
      returns (verdicts: map<string, Status>)
      requires forall id :: id in order <==> id in records
      modifies this
      ensures records == Run(old(records), Reviews(order, events, runIds))
      ensures verdicts == Verdicts(old(records), order, events, runIds)
    {
      hide Apply, Confirms, Refutes, Confounded, Due, Unresolved, OverlapIds;
      verdicts := map[];
      for i := 0 to |order|
        invariant records.Keys == old(records).Keys
        invariant records == Run(old(records), Reviews(order[..i], events, runIds))
        invariant verdicts == Verdicts(old(records), order[..i], events, runIds)
      {
        RunOneMore(old(records), order[..i + 1], events, runIds);
        assert order[..i + 1][..i] == order[..i];
        var outcome := ReviewRecord(order[i], order, events, runIds);
        if outcome.Reviewed? {
          verdicts := verdicts[order[i] := outcome.verdict];
        }
      }
      assert order[..|order|] == order;
    }

    /** The records listed for triage after a pass. */
    method NeedsTriage(order: seq<string>) returns (ids: seq<string>)
      requires forall id :: id in order <==> id in records
      ensures forall id :: id in ids <==> id in records && records[id].escalated && Unresolved(records[id])
    {
      ids := [];
      for i := 0 to |order|
        invariant forall id :: id in ids <==> id in order[..i] && records[id].escalated && Unresolved(records[id])
      {
        if records[order[i]].escalated && Unresolved(records[order[i]]) {
          ids := ids + [order[i]];
        }
      }
    }
  }
}
