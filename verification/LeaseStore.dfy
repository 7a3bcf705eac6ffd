/** The two lease files and the functions of `lazy_coord.py` that rewrite them. */
module LeaseStore {
  import opened Prelude
  import opened Leases
  import opened LeaseSafety

  datatype Outcome = Done | FencingError

  lemma RaisedByNothing(m: Marks)
    ensures Raised(m, map[]) == m
  {
  }

  /** Raising one more entry, after those of `retired` outside `todo`. */
  lemma RaisedByOne(m: Marks, retired: Table, todo: set<string>, id: string)
    requires id in todo && todo <= retired.Keys
    ensures var before, after := Raised(m, retired - todo), Raised(m, retired - (todo - {id}));
            after == if retired[id].token > Mark(before, id) then before[id := retired[id].token] else before
  {
    assert id !in retired - todo;
  }

  /** All expired entries but those of `todo` have been moved from `left` to `retired`. */
  ghost predicate SweptTo(data: Table, now: real, todo: set<string>, left: Table, retired: Table) {
    && (forall id :: id in todo ==> id in data && !Live(data[id], now))
    && left == (map id | id in data && (Live(data[id], now) || id in todo) :: data[id])
    && retired == (map id | id in data && !Live(data[id], now) && id !in todo :: data[id])
  }

  lemma SweptNothing(data: Table, now: real)
    ensures SweptTo(data, now, (set id | id in data && !Live(data[id], now)), data, map[])
  {
  }

  lemma SweptOne(data: Table, now: real, todo: set<string>, left: Table, retired: Table, id: string)
    requires SweptTo(data, now, todo, left, retired) && id in todo
    ensures id in left && SweptTo(data, now, todo - {id}, left - {id}, retired[id := left[id]])
    ensures forall place :: DirsOf(place, retired[id := left[id]]) == DirsOf(place, retired) + DirsOf(place, map[id := left[id]])
  {
    forall place
      ensures DirsOf(place, retired[id := left[id]]) == DirsOf(place, retired) + DirsOf(place, map[id := left[id]])
    {
      DirsAdd(place, retired, id, left[id]);
    }
  }

  lemma DirsAdd(place: string, t: Table, id: string, e: Lease)
    requires id !in t
    ensures DirsOf(place, t[id := e]) == DirsOf(place, t) + DirsOf(place, map[id := e])
  {
    var one, both := map[id := e], t[id := e];
    forall d | d in DirsOf(place, t) + DirsOf(place, one) ensures d in DirsOf(place, both) {
      if d in DirsOf(place, t) {
        var i :| i in t && t[i].slot != "" && Dir(place, t[i].slot) == d;
        assert both[i] == t[i];
      } else {
        assert one[id] == both[id];
      }
    }
    forall d | d in DirsOf(place, both) ensures d in DirsOf(place, t) + DirsOf(place, one) {
      var i :| i in both && both[i].slot != "" && Dir(place, both[i].slot) == d;
      assert if i == id then one[i] == e else t[i] == both[i];
    }
  }

  lemma SweptAll(data: Table, now: real, left: Table, retired: Table)
    requires SweptTo(data, now, {}, left, retired)
    ensures left == Survivors(data, now) && retired == Retired(data, now)
  {
  }

  /** The shard set so far, completed by the verdicts on the candidates from `i` on. */
  ghost predicate ShardedTo(cs: seq<Candidate>, i: nat, t: Table, now: real, claimed: seq<string>, held: seq<Held>)
    requires i <= |cs|
  {
    && claimed + Claimed(cs[i..], t, now) == Claimed(cs, t, now)
    && held + HeldBack(cs[i..], t, now) == HeldBack(cs, t, now)
  }

  lemma ShardStep(cs: seq<Candidate>, i: nat, t: Table, now: real, claimed: seq<string>, held: seq<Held>)
    requires i < |cs| && ShardedTo(cs, i, t, now, claimed, held)
    ensures match HoldFor(cs[i], t, now)
            case None => ShardedTo(cs, i + 1, t, now, claimed + [cs[i].id], held)
            case Some(r) => ShardedTo(cs, i + 1, t, now, claimed, held + [Held(cs[i].id, r)])
  {
    assert cs[i..][0] == cs[i] && cs[i..][1..] == cs[i + 1..];
    var rest, back := Claimed(cs[i + 1..], t, now), HeldBack(cs[i + 1..], t, now);
    assert claimed + ([cs[i].id] + rest) == (claimed + [cs[i].id]) + rest;
    match HoldFor(cs[i], t, now)
    case Some(r) => assert held + ([Held(cs[i].id, r)] + back) == (held + [Held(cs[i].id, r)]) + back;
    case None =>
  }

  function TokenOf(t: Table, id: string): nat {
    if id in t then t[id].token else 0
  }

  /** A sweep forgets no token: what it drops is in the watermark. */
  lemma SweepRemembers(t: Table, m: Marks, id: string, now: real)
    ensures var kept := TokenOf(Survivors(t, now), id);
            var marked := Mark(Raised(m, Retired(t, now)), id);
            marked >= Mark(m, id) && (kept >= TokenOf(t, id) || marked >= TokenOf(t, id))
  {
  }

  /** The writes of an acquire, in the terms of the method. */
  lemma AcquireWrites(d: Disk, op: Op)
    requires op.Acquire?
    ensures var left, raised := Survivors(d.table, op.now), Raised(d.marks, Retired(d.table, op.now));
            var marked := MarkWrites(d, Retired(d.table, op.now));
            && (Granted(d, op) <==> op.id !in left)
            && if Granted(d, op)
               then
                 && NewLease(d, op) == Lease(op.pid, op.slot, Mark(raised, op.id) + 1, op.now.Floor, op.ttl)
                 && Writes(d, op) == marked + [Disk(left[op.id := NewLease(d, op)], raised)]
                 && Leases.Done(d, op) == Disk(left[op.id := NewLease(d, op)], raised)
               else
                 && Writes(d, op) == marked && Leases.Done(d, op) == Disk(d.table, raised)
  {
    RaisedByNothing(d.marks);
  }

  function Pow2(n: nat): nat {
    if n == 0 then 1 else 2 * Pow2(n - 1)
  }

  /** Doubled once per attempt, `delay` reaches one second by attempt `doublings`. */
  ghost predicate Enough(delay: real, attempts: nat, doublings: nat) {
    && delay > 0.0
    && (delay >= 1.0 || (attempts < doublings && delay * Pow2(doublings - attempts) as real >= 1.0))
  }

  lemma DoubleOnce(delay: real, attempts: nat, doublings: nat)
    requires attempts > 0 && Enough(delay, attempts - 1, doublings)
    ensures Enough(Min(delay * 2.0, 1.0), attempts, doublings)
  {
    if delay < 1.0 {
      var n := doublings - attempts;
      assert Pow2(n + 1) == 2 * Pow2(n);
      assert delay * Pow2(n + 1) as real == (delay * 2.0) * Pow2(n) as real;
    }
  }

  function Min(a: real, b: real): real {
    if a <= b then a else b
  }

  /** `leases.json` and the watermark file beside it.  Every method runs under the global lock. */
  class LeaseStore {
    /** The directory `leases.json` lies in. */
    const home: string
    var table: Table
    var marks: Marks
    /** The slot directories removed so far. */
    var gone: set<Dir>
    /** The disk after each file replacement made so far. */
    ghost var writes: seq<Disk>

    constructor (home: string)
      ensures this.home == home && Files() == INIT.disk && writes == [] && gone == {}
    {
      this.home := home;
      table, marks, gone, writes := map[], map[], {}, [];
    }

    ghost function Files(): Disk
      reads this`table, this`marks
    {
      Disk(table, marks)
    }

    /** Persist the tokens of retired entries as high-water marks. */
    method RecordWatermarks(retired: Table)
      modifies this`marks, this`writes
      ensures marks == Raised(old(marks), retired)
      ensures writes == old(writes) + MarkWrites(old(Files()), retired)
    {
      RaisedByNothing(marks);
      if retired == map[] {
        return;
      }
      var raised := marks;
      var todo := retired.Keys;
      assert retired - todo == map[];
      while todo != {}
        invariant marks == old(marks) && writes == old(writes)
        invariant todo <= retired.Keys
        invariant raised == Raised(marks, retired - todo)
        decreases todo
      {
        var id :| id in todo;
        RaisedByOne(marks, retired, todo, id);
        if retired[id].token > Mark(raised, id) {
          raised := raised[id := retired[id].token];
        }
        todo := todo - {id};
      }
      assert retired - todo == retired;
      marks := raised;
      writes := writes + [Files()];
    }

    /** Drop the expired entries of `data` (not yet of the file), with the slot directories they name in
        `place`, recording their watermarks. */
    method Reclaim(data: Table, place: string, now: real) returns (left: Table)
      modifies this`marks, this`writes, this`gone
      ensures left == Survivors(data, now)
      ensures gone == old(gone) + DirsOf(place, Retired(data, now))
      ensures marks == Raised(old(marks), Retired(data, now))
      ensures writes == old(writes) + MarkWrites(old(Files()), Retired(data, now))
    {
      hide Raised, MarkWrites;
      left := data;
      var retired: Table := map[];
      var expired := set id | id in data && !Live(data[id], now);
      var todo := expired;
      SweptNothing(data, now);
      while todo != {}
        invariant todo <= expired && marks == old(marks) && writes == old(writes)
        invariant SweptTo(data, now, todo, left, retired)
        invariant gone == old(gone) + DirsOf(place, retired)
        decreases todo
      {
        var id :| id in todo;
        SweptOne(data, now, todo, left, retired, id);
        gone := gone + DirsOf(place, map[id := left[id]]);
        retired := retired[id := left[id]];
        left := left - {id};
        todo := todo - {id};
      }
      SweptAll(data, now, left, retired);
      RecordWatermarks(retired);
    }

    /** `acquire_lease`: sweeps the directory its own file lies in, then gives the new entry, or None while a live lease exists. */
    method Acquire(id: string, pid: int, slot: string, ttl: int, now: real) returns (r: Option<Lease>)
      modifies this
      ensures var op := Op.Acquire(id, pid, slot, ttl, now);
              && writes == old(writes) + Writes(old(Files()), op)
              && Files() == Leases.Done(old(Files()), op)
              && (r.Some? <==> Granted(old(Files()), op))
              && (r.Some? ==> r.value == NewLease(old(Files()), op) && id in table && table[id] == r.value)
      ensures r.Some? ==> r.value.pid == pid && r.value.slot == slot && r.value.ttl == ttl && r.value.stamp == now.Floor
      ensures r.Some? ==> r.value.token > Mark(old(marks), id) && r.value.token > TokenOf(old(table), id)
      ensures gone == old(gone) + DirsOf(home, Retired(old(table), now))
    {
      hide Raised, DirsOf, Writes, Leases.Done, NewLease, Granted, MarkWrites, Retired;
      AcquireWrites(Files(), Op.Acquire(id, pid, slot, ttl, now));
      SweepRemembers(table, marks, id, now);
      var data := Reclaim(table, home, now);
      if id in data && Live(data[id], now) {
        return None;
      }
      var previous := TokenOf(data, id);
      var floor := Mark(marks, id);
      var token := (if previous >= floor then previous else floor) + 1;
      var entry := Lease(pid, slot, token, Stamp(now), ttl);
      table := data[id := entry];
      writes := writes + [Files()];
      r := Some(entry);
    }

    /** `heartbeat`: refresh the entry if the token still matches. */
    method Heartbeat(id: string, token: int, now: real) returns (r: Outcome)
      modifies this`table, this`writes
      ensures var op := Op.Heartbeat(id, token, now);
              && writes == old(writes) + Writes(old(Files()), op)
              && Files() == Leases.Done(old(Files()), op)
      ensures r.Done? <==> Fenced(old(table), id, token)
      ensures table == if r.Done? then old(table)[id := old(table)[id].(stamp := now.Floor)] else old(table)
    {
      if id !in table || table[id].token != token {
        return FencingError;
      }
      table := table[id := table[id].(stamp := Stamp(now))];
      writes := writes + [Files()];
      r := Done;
    }

    /** `verify_fencing`: the check a holder makes before it acts. */
    method VerifyFencing(id: string, token: int) returns (r: Outcome)
      ensures r.Done? <==> Fenced(table, id, token)
    {
      r := if id !in table || table[id].token != token then FencingError else Done;
    }

    /** `reclaim_expired`: the sweep of the pool it is given.  It rewrites `leases.json` even when nothing expired. */
    method ReclaimExpired(pool: string, now: real) returns (reclaimed: set<string>)
      modifies this
      ensures var op := Op.ReclaimExpired(now);
              && writes == old(writes) + Writes(old(Files()), op)
              && Files() == Leases.Done(old(Files()), op)
      ensures reclaimed == old(table).Keys - table.Keys
      ensures forall id :: id in old(table) ==> (id in reclaimed <==> !Live(old(table)[id], now))
      ensures gone == old(gone) + DirsOf(pool, Retired(old(table), now))
    {
      hide Raised, DirsOf;
      RaisedByNothing(marks);
      var data := Reclaim(table, pool, now);
      reclaimed := table.Keys - data.Keys;
      table := data;
      writes := writes + [Files()];
    }

    /** `release_lease`: watermark first, then the entry goes. */
    method Release(id: string, token: int) returns (r: Outcome)
      modifies this`table, this`marks, this`writes
      ensures var op := Op.Release(id, token);
              && writes == old(writes) + Writes(old(Files()), op)
              && Files() == Leases.Done(old(Files()), op)
      ensures r.Done? <==> Fenced(old(table), id, token)
    {
      if id !in table || table[id].token != token {
        return FencingError;
      }
      var retired := map[id := table[id]];
      assert id in retired;
      RecordWatermarks(retired);
      table := table - {id};
      writes := writes + [Files()];
      r := Done;
    }

    /** `has_live_lease`: the liveness test of the shard set, on its own. */
    method HasLiveLease(id: string, now: real) returns (r: bool)
      ensures r <==> HasLive(table, id, now)
    {
      if id !in table {
        return false;
      }
      r := table[id].stamp as real + table[id].ttl as real >= now;
    }

    /** `claim_shardable`: the conservative shard set over the queue's candidates. */
    method ClaimShardable(cs: seq<Candidate>, now: real) returns (claimed: seq<string>, held: seq<Held>)
      ensures claimed == Claimed(cs, table, now) && held == HeldBack(cs, table, now)
    {
      claimed, held := [], [];
      for i := 0 to |cs|
        invariant ShardedTo(cs, i, table, now, claimed, held)
      {
        ShardStep(cs, i, table, now, claimed, held);
        if !cs[i].depReady {
          held := held + [Held(cs[i].id, DepUnready)];
          continue;
        }
        if !cs[i].independent {
          held := held + [Held(cs[i].id, NoIndependentMarker)];
          continue;
        }
        var live := HasLiveLease(cs[i].id, now);
        if live {
          held := held + [Held(cs[i].id, LiveLease)];
          continue;
        }
        claimed := claimed + [cs[i].id];
      }
    }

    /**
     `acquire_item_lock`: poll `acquire_lease` with exponential backoff until granted or out of time.

     Other workers may rewrite the files between attempts: attempt `i` finds the disk `seen(i)`.
     The clock advances by at least what is slept: its reading number `i` is the time slept so far
     plus `lag(i)`.  `doublings` bounds how often the delay doubles before it reaches one second.
     */
    method AcquireItemLock(id: string, pid: int, slot: string, ttl: int, timeout: real, poll: real,
                           seen: nat -> Disk, times: nat -> real, lag: nat -> real, ghost doublings: nat)
      returns (r: Option<Lease>, attempts: nat, slept: real)
      requires poll > 0.0 && poll * Pow2(doublings) as real >= 1.0
      requires forall i: nat, j: nat :: i <= j ==> lag(i) <= lag(j)
      modifies this
      // granted: the table now holds the returned entry, and attempt by attempt it was refused before
      ensures r.Some? ==> id in table && table[id] == r.value
      ensures attempts >= 1
      ensures forall i :: 0 <= i < attempts ==>
                (HasLive(seen(i).table, id, times(i)) <==> i < attempts - 1 || r.None?)
      // timed out: not before the budget was spent
      ensures r.None? ==> slept + lag(attempts) - lag(0) >= timeout
      // and the budget bounds both the sleep asked for and the number of attempts
      ensures 0.0 <= slept && (slept > 0.0 ==> slept <= timeout)
      ensures attempts as real <= (if timeout > 0.0 then timeout else 0.0) + doublings as real + 2.0
    {
      hide Writes, Leases.Done, NewLease, HasLive, Retired, DirsOf;
      var start := lag(0);
      var delay := poll;
      attempts, slept := 0, 0.0;
      ghost var elapsedAtLeast := 0.0;
      while true
        invariant 0.0 <= slept && Enough(delay, attempts, doublings)
        invariant slept <= elapsedAtLeast
        invariant slept > 0.0 ==> slept <= timeout
        invariant slept + lag(attempts) - lag(0) >= elapsedAtLeast
        invariant elapsedAtLeast >= attempts as real - doublings as real || (elapsedAtLeast >= timeout && timeout >= 0.0)
        invariant attempts as real <= (if timeout > 0.0 then timeout else 0.0) + doublings as real + 1.0
        invariant forall i :: 0 <= i < attempts ==> HasLive(seen(i).table, id, times(i))
        decreases ((if timeout > 0.0 then timeout else 0.0) + doublings as real + 1.0).Floor - attempts
      {
        table, marks := seen(attempts).table, seen(attempts).marks;
        r := Acquire(id, pid, slot, ttl, times(attempts));
        attempts := attempts + 1;
        if r.Some? {
          return;
        }
        var elapsed := slept + lag(attempts) - start;
        if elapsed >= timeout {
          return;
        }
        var nap := Min(delay, timeout - elapsed);
        slept := slept + nap;
        elapsedAtLeast := elapsed + nap;
        DoubleOnce(delay, attempts, doublings);
        delay := Min(delay * 2.0, 1.0);
      }
    }
  }
}
