/**
 The worktree slots behind the leases.  An operation that finds expired entries removes the slot
 directories they name and only then rewrites the two files, so an entry can outlive its directory.

 An acquire looks for those directories beside `leases.json`, a sweep in the pool it is given; the two
 places may differ.
 */
module LeaseSlots {
  import opened Prelude
  import opened Leases
  import opened LeaseSafety

  /** `gone`: the slot directories removed and not provided again. */
  datatype Pool = Pool(world: World, gone: set<Dir>)

  /** `reached`: the entries whose directories an operation gets to remove before it dies, if it dies
      before its first write.  `pool` is what a sweep is given. */
  datatype PoolEvent =
    | Store(e: Event, pool: string, reached: set<string>)
    | Provide(dir: Dir)

  /** The expired entries an operation comes upon. */
  function Expired(w: World, op: Op): Table {
    if op.Acquire? || op.ReclaimExpired? then Retired(w.disk.table, op.now) else map[]
  }

  /** Those whose directories it removes. */
  function Swept(w: World, e: Event, reached: set<string>): Table {
    map id | id in Expired(w, e.op) && (e.landed > 0 || id in reached) :: Expired(w, e.op)[id]
  }

  /** Where it removes them; `home` is the directory of `leases.json`. */
  function PlaceOf(home: string, op: Op, pool: string): string {
    if op.Acquire? then home else pool
  }

  function Step(home: string, p: Pool, ev: PoolEvent): Pool {
    match ev
    case Store(e, pool, reached) =>
      Pool(Next(p.world, e), p.gone + DirsOf(PlaceOf(home, e.op, pool), Swept(p.world, e, reached)))
    case Provide(dir) => p.(gone := p.gone - {dir})
  }

  function RunPool(home: string, p: Pool, evs: seq<PoolEvent>): Pool {
    if evs == [] then p else Step(home, RunPool(home, p, evs[..|evs| - 1]), evs[|evs| - 1])
  }

  /** The operation ends without rewriting `leases.json`: a refused acquire, or a crash. */
  predicate StopsShort(w: World, e: Event) {
    || (e.op.Acquire? && !Granted(w.disk, e.op))
    || e.landed < |Writes(w.disk, e.op)|
  }

  /** The event takes the directory that the lease of `id` has in `place`: it sweeps there, and another
      expired entry names the same slot, or the lease itself has expired and the operation stops short
      after removing its directory. */
  ghost predicate TakesSlot(home: string, p: Pool, ev: PoolEvent, id: string, place: string)
    requires id in p.world.disk.table
  {
    && ev.Store? && PlaceOf(home, ev.e.op, ev.pool) == place && p.world.disk.table[id].slot != ""
    && var swept := Swept(p.world, ev.e, ev.reached);
       || (exists o :: o in swept && o != id && swept[o].slot == p.world.disk.table[id].slot)
       || (id in swept && StopsShort(p.world, ev.e))
  }

  /** A completed sweep or granted acquire leaves no expired entry behind. */
  lemma SweptIsUnlisted(w: World, e: Event, reached: set<string>, id: string, token: nat)
    requires Inv(w) && id in Swept(w, e, reached) && !StopsShort(w, e) && w.disk.table[id].token == token
    ensures !Fenced(Next(w, e).disk.table, id, token)
  {
    LeaseLostExactly(w, e, id, token);
  }

  /** A lease that passes fencing before and after a step is the same lease, and loses its directory in
      `place` exactly when the step takes it. */
  lemma StepTakesSlotIff(home: string, p: Pool, ev: PoolEvent, id: string, token: nat, place: string)
    requires Inv(p.world) && Fenced(p.world.disk.table, id, token)
    requires Fenced(Step(home, p, ev).world.disk.table, id, token)
    ensures var slot := p.world.disk.table[id].slot;
            && Step(home, p, ev).world.disk.table[id].slot == slot
            && (Dir(place, slot) in Step(home, p, ev).gone <==>
                TakesSlot(home, p, ev, id, place) || (Dir(place, slot) in p.gone && ev != Provide(Dir(place, slot))))
  {
    if ev.Store? {
      var swept := Swept(p.world, ev.e, ev.reached);
      SameLeaseSameSlot(p.world, ev.e, id, token);
      if id in swept && !StopsShort(p.world, ev.e) {
        SweptIsUnlisted(p.world, ev.e, ev.reached, id, token);
      }
      DirsOfIff(PlaceOf(home, ev.e.op, ev.pool), swept, Dir(place, p.world.disk.table[id].slot));
    }
  }

  lemma DirsOfIff(place: string, t: Table, dir: Dir)
    ensures dir in DirsOf(place, t) <==>
            dir.place == place && dir.slot != "" && exists o :: o in t && t[o].slot == dir.slot
  {
  }

  lemma SameLeaseSameSlot(w: World, e: Event, id: string, token: nat)
    requires Inv(w) && Fenced(w.disk.table, id, token) && Fenced(Next(w, e).disk.table, id, token)
    ensures Next(w, e).disk.table[id].slot == w.disk.table[id].slot
  {
    assert Agrees(w, id);
    if Granted(w.disk, e.op) && e.op.id == id {
      NewTokenIsFresh(w, e.op);
    }
  }

  lemma {:induction false} PoolKeepsInv(home: string, p: Pool, evs: seq<PoolEvent>)
    requires Inv(p.world)
    ensures Inv(RunPool(home, p, evs).world)
  {
    if evs != [] {
      var before, ev := RunPool(home, p, evs[..|evs| - 1]), evs[|evs| - 1];
      PoolKeepsInv(home, p, evs[..|evs| - 1]);
      if ev.Store? {
        StepKeepsInv(before.world, ev.e);
      }
    }
  }

  /** A lease that passes fencing at both ends of a run passed all the time. */
  lemma {:induction false} FencedThroughout(home: string, p: Pool, evs: seq<PoolEvent>, n: nat, id: string, token: nat)
    requires Inv(p.world) && n <= |evs| && token <= Last(RunPool(home, p, evs[..n]).world.minted, id)
    requires Fenced(RunPool(home, p, evs).world.disk.table, id, token)
    ensures Fenced(RunPool(home, p, evs[..n]).world.disk.table, id, token)
    decreases |evs| - n
  {
    if n == |evs| {
      assert evs[..n] == evs;
    } else {
      var before, ev := RunPool(home, p, evs[..n]), evs[n];
      assert evs[..n + 1][..n] == evs[..n];
      PoolKeepsInv(home, p, evs[..n]);
      if ev.Store? {
        LastGrows(before.world, ev.e, id);
        if !Fenced(before.world.disk.table, id, token) {
          StepKeepsDead(before.world, ev.e, id, token);
        }
      }
      FencedThroughout(home, p, evs, n + 1, id, token);
    }
  }

  /** Some event of the run takes the directory that the lease has in `dir.place`, and it is not provided
      again after it. */
  ghost predicate TakenForGood(home: string, p: Pool, evs: seq<PoolEvent>, id: string, dir: Dir) {
    exists k | 0 <= k < |evs| ::
      TakenAt(home, RunPool(home, p, evs[..k]), evs[k], id, dir.place) && Provide(dir) !in evs[k + 1..]
  }

  ghost predicate TakenAt(home: string, p: Pool, ev: PoolEvent, id: string, place: string) {
    id in p.world.disk.table && TakesSlot(home, p, ev, id, place)
  }

  lemma TakenNext(home: string, p: Pool, evs: seq<PoolEvent>, id: string, dir: Dir)
    requires evs != []
    ensures var n := |evs| - 1;
            TakenForGood(home, p, evs, id, dir) <==>
            || TakenAt(home, RunPool(home, p, evs[..n]), evs[n], id, dir.place)
            || (TakenForGood(home, p, evs[..n], id, dir) && evs[n] != Provide(dir))
  {
    hide TakenAt, RunPool;
    var n := |evs| - 1;
    assert evs[n + 1..] == [];
    if TakenForGood(home, p, evs, id, dir) && !TakenAt(home, RunPool(home, p, evs[..n]), evs[n], id, dir.place) {
      var k :| 0 <= k < |evs| && TakenAt(home, RunPool(home, p, evs[..k]), evs[k], id, dir.place)
               && Provide(dir) !in evs[k + 1..];
      TakenPrefix(evs, k);
      assert TakenAt(home, RunPool(home, p, evs[..n][..k]), evs[..n][k], id, dir.place)
             && Provide(dir) !in evs[..n][k + 1..];
    }
    if TakenForGood(home, p, evs[..n], id, dir) && evs[n] != Provide(dir) {
      var k :| 0 <= k < n && TakenAt(home, RunPool(home, p, evs[..n][..k]), evs[..n][k], id, dir.place)
               && Provide(dir) !in evs[..n][k + 1..];
      TakenPrefix(evs, k);
      assert TakenAt(home, RunPool(home, p, evs[..k]), evs[k], id, dir.place) && Provide(dir) !in evs[k + 1..];
    }
  }

  lemma TakenPrefix(evs: seq<PoolEvent>, k: nat)
    requires k < |evs| - 1
    ensures evs[..|evs| - 1][..k] == evs[..k]
    ensures evs[k + 1..] == evs[..|evs| - 1][k + 1..] + [evs[|evs| - 1]]
  {
  }

  /** Over any run, a lease that had its directory in `place` and still passes fencing has lost it
      exactly when some event took it for good. */
  lemma {:induction false} FencedWithoutSlotIff(home: string, p: Pool, evs: seq<PoolEvent>, id: string, token: nat,
                                                place: string)
    requires Inv(p.world) && Fenced(p.world.disk.table, id, token)
    requires Dir(place, p.world.disk.table[id].slot) !in p.gone
    requires Fenced(RunPool(home, p, evs).world.disk.table, id, token)
    ensures var dir := Dir(place, p.world.disk.table[id].slot);
            && RunPool(home, p, evs).world.disk.table[id].slot == dir.slot
            && (dir in RunPool(home, p, evs).gone <==> TakenForGood(home, p, evs, id, dir))
  {
    if evs != [] {
      var n := |evs| - 1;
      assert Agrees(p.world, id);
      MintedStays(home, p, evs[..n], id);
      FencedThroughout(home, p, evs, n, id, token);
      FencedWithoutSlotIff(home, p, evs[..n], id, token, place);
      PoolKeepsInv(home, p, evs[..n]);
      StepTakesSlotIff(home, RunPool(home, p, evs[..n]), evs[n], id, token, place);
      TakenNext(home, p, evs, id, Dir(place, p.world.disk.table[id].slot));
    }
  }

  lemma {:induction false} MintedStays(home: string, p: Pool, evs: seq<PoolEvent>, id: string)
    requires Inv(p.world)
    ensures Last(p.world.minted, id) <= Last(RunPool(home, p, evs).world.minted, id)
  {
    if evs != [] {
      var n := |evs| - 1;
      MintedStays(home, p, evs[..n], id);
      PoolKeepsInv(home, p, evs[..n]);
      if evs[n].Store? {
        LastGrows(RunPool(home, p, evs[..n]).world, evs[n].e, id);
      }
    }
  }

  lemma TwoEvents(home: string, p: Pool, one: PoolEvent, two: PoolEvent)
    ensures RunPool(home, p, [one, two]) == Step(home, Step(home, p, one), two)
  {
    var evs := [one, two];
    assert evs[..1] == [one] && [one][..0] == [];
    assert RunPool(home, p, [one]) == Step(home, RunPool(home, p, []), one);
  }

  /** No crash is needed where the pool is the directory of `leases.json`: an acquire refused for one item
      removes the directory of another's expired entry and leaves the entry, which a heartbeat then brings
      back to life. */
  lemma RefusalThenHeartbeat(home: string, p: Pool, id: string, token: nat, refused: Op, later: real, pool: string)
    requires pool == home && Inv(p.world) && Fenced(p.world.disk.table, id, token)
    requires p.world.disk.table[id].slot != "" && p.world.disk.table[id].ttl >= 1
    requires refused.Acquire? && refused.id != id && !Granted(p.world.disk, refused)
    requires !Live(p.world.disk.table[id], refused.now)
    ensures var p' := RunPool(home, p, [Store(Event(refused, 1), "", {}),
                                        Store(Event(Heartbeat(id, token, later), 1), "", {})]);
            && Fenced(p'.world.disk.table, id, token) && HasLive(p'.world.disk.table, id, later)
            && Dir(pool, p'.world.disk.table[id].slot) in p'.gone
  {
    var e := Event(refused, 1);
    var mid := Step(home, p, Store(e, "", {}));
    TwoEvents(home, p, Store(e, "", {}), Store(Event(Heartbeat(id, token, later), 1), "", {}));
    RefusalsChangeNothing(p.world, e, id);
    assert id in Swept(p.world, e, {});
    HeartbeatRevives(mid.world.disk, id, token, later);
  }

  /** Nor is another item: a sweep of the pool that dies before its first write does the same, wherever
      the pool is. */
  lemma CrashThenHeartbeat(home: string, p: Pool, id: string, token: nat, now: real, later: real, pool: string)
    requires Inv(p.world) && Fenced(p.world.disk.table, id, token)
    requires p.world.disk.table[id].slot != "" && p.world.disk.table[id].ttl >= 1
    requires !Live(p.world.disk.table[id], now)
    ensures var p' := RunPool(home, p, [Store(Event(ReclaimExpired(now), 0), pool, {id}),
                                        Store(Event(Heartbeat(id, token, later), 1), pool, {})]);
            && Fenced(p'.world.disk.table, id, token) && HasLive(p'.world.disk.table, id, later)
            && Dir(pool, p'.world.disk.table[id].slot) in p'.gone
  {
    var e := Event(ReclaimExpired(now), 0);
    var mid := Step(home, p, Store(e, pool, {id}));
    TwoEvents(home, p, Store(e, pool, {id}), Store(Event(Heartbeat(id, token, later), 1), pool, {}));
    assert id in Swept(p.world, e, {id});
    HeartbeatRevives(mid.world.disk, id, token, later);
  }

  // ---- a pool apart from `leases.json` ----

  /** No entry names the slot, and no acquire of the run asks for it. */
  ghost predicate Unnamed(t: Table, evs: seq<PoolEvent>, slot: string) {
    && (forall o :: o in t ==> t[o].slot != slot)
    && (forall ev :: ev in evs && ev.Store? && ev.e.op.Acquire? ==> ev.e.op.slot != slot)
  }

  lemma StepStaysUnnamed(w: World, e: Event, slot: string)
    requires forall o :: o in w.disk.table ==> w.disk.table[o].slot != slot
    requires e.op.Acquire? ==> e.op.slot != slot
    ensures forall o :: o in Next(w, e).disk.table ==> Next(w, e).disk.table[o].slot != slot
  {
  }

  lemma {:induction false} UnnamedStays(home: string, p: Pool, evs: seq<PoolEvent>, dir: Dir)
    requires Unnamed(p.world.disk.table, evs, dir.slot) && dir !in p.gone
    ensures Unnamed(RunPool(home, p, evs).world.disk.table, [], dir.slot) && dir !in RunPool(home, p, evs).gone
  {
    if evs != [] {
      var n := |evs| - 1;
      var before := RunPool(home, p, evs[..n]);
      UnnamedStays(home, p, evs[..n], dir);
      if evs[n].Store? {
        assert evs[n] in evs;
        StepStaysUnnamed(before.world, evs[n].e, dir.slot);
        DirsOfIff(PlaceOf(home, evs[n].e.op, evs[n].pool), Swept(before.world, evs[n].e, evs[n].reached), dir);
      }
    }
  }

  /** Where the pool is another directory than that of `leases.json`, a granted acquire drops an expired
      entry and leaves its directory in the pool; nothing removes that directory afterwards, in any run,
      until the slot is leased again. */
  lemma AcquireOrphansSlot(home: string, p: Pool, op: Op, id: string, dir: Dir, evs: seq<PoolEvent>)
    requires dir.place != home && dir !in p.gone
    requires op.Acquire? && Granted(p.world.disk, op)
    requires id in p.world.disk.table && p.world.disk.table[id].slot == dir.slot && !Live(p.world.disk.table[id], op.now)
    requires forall o :: o in p.world.disk.table && o != id ==> p.world.disk.table[o].slot != dir.slot
    requires op.slot != dir.slot
    requires forall ev :: ev in evs && ev.Store? && ev.e.op.Acquire? ==> ev.e.op.slot != dir.slot
    ensures var e := Event(op, |Writes(p.world.disk, op)|);
            var dropped := Step(home, p, Store(e, "", {}));
            && (forall o :: o in dropped.world.disk.table ==> dropped.world.disk.table[o].slot != dir.slot)
            && dir !in RunPool(home, dropped, evs).gone
  {
    var e := Event(op, |Writes(p.world.disk, op)|);
    var dropped := Step(home, p, Store(e, "", {}));
    DirsOfIff(home, Swept(p.world, e, {}), dir);
    assert id in Retired(p.world.disk.table, op.now);
    UnnamedStays(home, dropped, evs, dir);
  }
}
