/** What the lease protocol guarantees over whole runs. */
module LeaseSafety {
  import opened Prelude
  import opened Leases

  // ---- fencing ----

  /** Every token ever minted for an item is at most what the two files still remember, a watermark
      never passes a listed token, and the tokens of one item strictly increase. */
  lemma TokensRemembered(events: seq<Event>, id: string)
    ensures var w := Run(INIT, events);
            && (forall m :: m in w.minted && m.id == id ==>
                  m.token <= Mark(w.disk.marks, id)
                  || (id in w.disk.table && m.token <= w.disk.table[id].token))
            && (id in w.disk.table ==> Mark(w.disk.marks, id) <= w.disk.table[id].token)
            && Increasing(w.minted)
  {
    RunKeepsInv(INIT, events);
    assert Agrees(Run(INIT, events), id);
  }

  /** A token passes fencing exactly when its entry is listed and it is the last one minted. */
  lemma FencedIffLastMinted(events: seq<Event>, id: string, token: int)
    ensures var w := Run(INIT, events);
            Fenced(w.disk.table, id, token) <==> id in w.disk.table && token == Last(w.minted, id)
  {
    RunKeepsInv(INIT, events);
    assert Agrees(Run(INIT, events), id);
  }

  /** A new token lies above every token minted before for its item. */
  lemma NewTokenIsFresh(w: World, op: Op)
    requires Inv(w) && Granted(w.disk, op)
    ensures NewLease(w.disk, op).token > Last(w.minted, op.id)
  {
    assert Agrees(w, op.id);
    MintIsFresh(w, op);
  }

  /** A listed token was listed before the step, or the step minted it. */
  lemma ListedBeforeOrMinted(w: World, e: Event, id: string, token: nat)
    requires Fenced(Next(w, e).disk.table, id, token)
    ensures || Fenced(w.disk.table, id, token)
            || (Granted(w.disk, e.op) && e.op.id == id && NewLease(w.disk, e.op).token == token)
  {
  }

  lemma LastGrows(w: World, e: Event, id: string)
    requires Inv(w)
    ensures Last(w.minted, id) <= Last(Next(w, e).minted, id)
  {
    if Next(w, e).minted != w.minted {
      NewTokenIsFresh(w, e.op);
      LastAfter(w.minted, Mint(e.op.id, NewLease(w.disk, e.op).token), id);
    }
  }

  lemma StepKeepsDead(w: World, e: Event, id: string, token: nat)
    requires Inv(w) && token <= Last(w.minted, id) && !Fenced(w.disk.table, id, token)
    ensures token <= Last(Next(w, e).minted, id) && !Fenced(Next(w, e).disk.table, id, token)
  {
    LastGrows(w, e, id);
    if Fenced(Next(w, e).disk.table, id, token) {
      ListedBeforeOrMinted(w, e, id, token);
      NewTokenIsFresh(w, e.op);
    }
  }

  /** Once a minted token stops passing - its entry removed or superseded - it never passes again,
      whatever the operations, clocks and crashes that follow. */
  lemma {:induction false} DeadTokenStaysDead(w: World, events: seq<Event>, id: string, token: nat)
    requires Inv(w) && token <= Last(w.minted, id) && !Fenced(w.disk.table, id, token)
    ensures !Fenced(Run(w, events).disk.table, id, token)
    decreases |events|
  {
    if events != [] {
      StepKeepsDead(w, events[0], id, token);
      StepKeepsInv(w, events[0]);
      DeadTokenStaysDead(Next(w, events[0]), events[1..], id, token);
    }
  }

  /** The mistake the write order prevents: were a release to delete the entry before recording the
      watermark, a crash in between would let the next acquire mint the released token again. */
  lemma ReversedWritesReuseToken(pid: int, slot: string, ttl: int, now: real)
    ensures var acquire := Acquire("a", pid, slot, ttl, now);
            var held := Run(INIT, [Event(acquire, 1)]);
            var entryGone := held.disk.(table := held.disk.table - {"a"});
            && held.minted == [Mint("a", 1)]
            && !Inv(held.(disk := entryGone))
            && Fenced(Done(entryGone, acquire).table, "a", 1)
  {
    var acquire := Acquire("a", pid, slot, ttl, now);
    var held := Next(INIT, Event(acquire, 1));
    assert held == Run(INIT, [Event(acquire, 1)]) by {
      assert [Event(acquire, 1)][1..] == [];
    }
    assert Raised(map[], Retired(map[], now)) == map[];
    var gone := held.(disk := held.disk.(table := held.disk.table - {"a"}));
    assert !Agrees(gone, "a");
    assert Retired(gone.disk.table, now) == map[];
  }

  // ---- refusals ----

  /** A refused operation never touches `leases.json`.  A refused heartbeat or release writes nothing
      at all; a refused acquire may raise watermarks, but only to the token of an entry still listed. */
  lemma RefusalsChangeNothing(w: World, e: Event, id: string)
    requires Inv(w)
    requires match e.op
             case Acquire(_, _, _, _, _) => !Granted(w.disk, e.op)
             case Heartbeat(i, t, _) => !Fenced(w.disk.table, i, t)
             case ReclaimExpired(_) => false
             case Release(i, t) => !Fenced(w.disk.table, i, t)
    ensures Next(w, e).disk.table == w.disk.table && Next(w, e).minted == w.minted
    ensures !e.op.Acquire? ==> Next(w, e) == w
    ensures var mark := Mark(Next(w, e).disk.marks, id);
            mark == Mark(w.disk.marks, id) || (id in w.disk.table && mark == w.disk.table[id].token)
  {
    assert Agrees(w, id);
  }

  // ---- the time to live ----

  /** A lease of `id` with token `token` is listed, stamped no earlier than `stamp`. */
  predicate Protected(t: Table, id: string, token: nat, stamp: int, ttl: int) {
    Fenced(t, id, token) && t[id].stamp >= stamp && t[id].ttl == ttl
  }

  /** Operations inside the lease's time that neither release it nor set its heartbeat back. */
  predicate Within(op: Op, id: string, token: nat, stamp: int, ttl: int) {
    match op
    case Acquire(_, _, _, _, now) => now <= stamp as real + ttl as real
    case ReclaimExpired(now) => now <= stamp as real + ttl as real
    case Heartbeat(i, t, now) => i == id && t == token ==> Stamp(now) >= stamp
    case Release(i, t) => !(i == id && t == token)
  }

  /** While only such operations happen, on any items and with any crashes, the lease stays, and no
      acquire for the item is granted up to the last whole second of its time. */
  lemma {:induction false} LeaseHoldsForItsTime(w: World, events: seq<Event>, id: string, token: nat,
                                                stamp: int, ttl: int, later: Op)
    requires Protected(w.disk.table, id, token, stamp, ttl)
    requires forall e :: e in events ==> Within(e.op, id, token, stamp, ttl)
    requires later.Acquire? && later.id == id && later.now <= stamp as real + ttl as real
    ensures Protected(Run(w, events).disk.table, id, token, stamp, ttl)
    ensures !Granted(Run(w, events).disk, later)
    decreases |events|
  {
    if events != [] {
      assert Within(events[0].op, id, token, stamp, ttl);
      LeaseHoldsForItsTime(Next(w, events[0]), events[1..], id, token, stamp, ttl, later);
    }
  }

  /** What a granted acquire leaves behind once its writes have landed: the entry it was asked for, stamped
      with the last whole second, under the next token of the item; of the other entries, exactly the live
      ones. */
  lemma GrantedAcquireLists(w: World, e: Event)
    requires Inv(w) && e.op.Acquire? && e.landed >= |Writes(w.disk, e.op)|
    requires e.op.id in w.disk.table ==>
               w.disk.table[e.op.id].stamp as real + w.disk.table[e.op.id].ttl as real < e.op.now
    ensures var (t, t', id) := (w.disk.table, Next(w, e).disk.table, e.op.id);
            && id in t' && t'[id].pid == e.op.pid && t'[id].slot == e.op.slot && t'[id].ttl == e.op.ttl
            && t'[id].stamp == e.op.now.Floor && t'[id].token == Last(w.minted, id) + 1
            && (forall other :: other != id ==>
                  (other in t' <==> other in t && t[other].stamp as real + t[other].ttl as real >= e.op.now))
            && (forall other :: other != id && other in t' ==> t'[other] == t[other])
  {
    assert Agrees(w, e.op.id);
    if e.op.id in w.disk.table {
      assert e.op.id in Retired(w.disk.table, e.op.now);
    }
  }

  /** A heartbeat with the listed token stamps the entry anew, and changes nothing else. */
  lemma HeartbeatRestamps(w: World, e: Event)
    requires e.op.Heartbeat? && e.landed >= |Writes(w.disk, e.op)| && Fenced(w.disk.table, e.op.id, e.op.token)
    ensures var (t, t', id) := (w.disk.table, Next(w, e).disk.table, e.op.id);
            && t'.Keys == t.Keys && t'[id].stamp == e.op.now.Floor
            && t'[id].pid == t[id].pid && t'[id].slot == t[id].slot
            && t'[id].token == t[id].token && t'[id].ttl == t[id].ttl
            && (forall other :: other in t && other != id ==> t'[other] == t[other])
            && Next(w, e).disk.marks == w.disk.marks
  {
  }

  /** From the call to the end of its time: a granted acquire at `now` keeps the item - through every run of
      operations within the lease's time, with any crashes - so that no acquire of it is granted up to
      `now`, cut to whole seconds, plus the time to live asked for. */
  lemma GrantedAcquireHolds(w: World, e: Event, events: seq<Event>, later: Op)
    requires Inv(w) && Granted(w.disk, e.op) && e.landed >= |Writes(w.disk, e.op)|
    requires forall f :: f in events ==>
               Within(f.op, e.op.id, Last(w.minted, e.op.id) + 1, e.op.now.Floor, e.op.ttl)
    requires later.Acquire? && later.id == e.op.id && later.now <= e.op.now.Floor as real + e.op.ttl as real
    ensures !Granted(Run(Next(w, e), events).disk, later)
  {
    GrantedAcquireLists(w, e);
    LeaseHoldsForItsTime(Next(w, e), events, e.op.id, Last(w.minted, e.op.id) + 1, e.op.now.Floor, e.op.ttl, later);
  }

  /** The same after a heartbeat: its time, and the time to live the entry was given. */
  lemma HeartbeatHolds(w: World, e: Event, events: seq<Event>, later: Op)
    requires e.op.Heartbeat? && e.landed >= |Writes(w.disk, e.op)| && Fenced(w.disk.table, e.op.id, e.op.token)
    requires forall f :: f in events ==>
               Within(f.op, e.op.id, e.op.token, e.op.now.Floor, w.disk.table[e.op.id].ttl)
    requires later.Acquire? && later.id == e.op.id
    requires later.now <= e.op.now.Floor as real + w.disk.table[e.op.id].ttl as real
    ensures !Granted(Run(Next(w, e), events).disk, later)
  {
    HeartbeatRestamps(w, e);
    LeaseHoldsForItsTime(Next(w, e), events, e.op.id, e.op.token, e.op.now.Floor, w.disk.table[e.op.id].ttl, later);
  }

  /** The promise measured from the caller's clock: a lease taken or refreshed at `t` refuses every
      acquire up to `t + ttl - 1`, and past `t + ttl` the next acquire is granted. */
  lemma TruncationCostsUnderASecond(d: Disk, id: string, token: nat, t: real, later: Op)
    requires Fenced(d.table, id, token) && d.table[id].stamp == Stamp(t)
    requires later.Acquire? && later.id == id
    ensures later.now <= t + d.table[id].ttl as real - 1.0 ==> !Granted(d, later)
    ensures later.now > t + d.table[id].ttl as real
            ==> Granted(d, later) && !Fenced(Done(d, later).table, id, token)
  {
    if later.now > t + d.table[id].ttl as real {
      assert id in Retired(d.table, later.now);
    }
  }

  /** From here on nobody refreshes the token, and no acquire of the item is granted. */
  ghost predicate Untended(w: World, events: seq<Event>, id: string, token: nat)
    decreases |events|
  {
    events != [] ==>
      var op := events[0].op;
      && !(op.Heartbeat? && op.id == id && op.token == token)
      && !(Granted(w.disk, op) && op.id == id)
      && Untended(Next(w, events[0]), events[1..], id, token)
  }

  /** The entry of `id` is gone, or still the one with this token and stamp. */
  predicate GoneOrSame(t: Table, id: string, e: Lease) {
    id in t ==> t[id].token == e.token && t[id].stamp == e.stamp && t[id].ttl == e.ttl
  }

  lemma {:induction false} UntendedStays(w: World, events: seq<Event>, id: string, e: Lease)
    requires GoneOrSame(w.disk.table, id, e) && Untended(w, events, id, e.token)
    ensures GoneOrSame(Run(w, events).disk.table, id, e)
    decreases |events|
  {
    if events != [] {
      UntendedStays(Next(w, events[0]), events[1..], id, e);
    }
  }

  /** A lease taken or refreshed at `t` and left alone since - whatever happens to other items, with any
      clocks and crashes - gives way to the first acquire past `t + ttl`, and its token never passes
      again. */
  lemma AbandonedLeaseGivesWay(w: World, events: seq<Event>, id: string, token: nat, t: real,
                               later: Op, after: seq<Event>)
    requires Inv(w) && Fenced(w.disk.table, id, token) && w.disk.table[id].stamp == Stamp(t)
    requires Untended(w, events, id, token)
    requires later.Acquire? && later.id == id && later.now > t + w.disk.table[id].ttl as real
    ensures var past := Run(w, events);
            && Granted(past.disk, later)
            && !Fenced(Run(Next(past, Event(later, |Writes(past.disk, later)|)), after).disk.table, id, token)
  {
    var past := Run(w, events);
    UntendedStays(w, events, id, w.disk.table[id]);
    assert Granted(past.disk, later);
    RunKeepsInv(w, events);
    assert Agrees(w, id);
    RunLastGrows(w, events, id);
    var e := Event(later, |Writes(past.disk, later)|);
    NewTokenIsFresh(past, later);
    LastGrows(past, e, id);
    StepKeepsInv(past, e);
    assert Done(past.disk, later).table[id].token == NewLease(past.disk, later).token;
    DeadTokenStaysDead(Next(past, e), after, id, token);
  }

  lemma {:induction false} RunLastGrows(w: World, events: seq<Event>, id: string)
    requires Inv(w)
    ensures Last(w.minted, id) <= Last(Run(w, events).minted, id)
    decreases |events|
  {
    if events != [] {
      LastGrows(w, events[0], id);
      StepKeepsInv(w, events[0]);
      RunLastGrows(Next(w, events[0]), events[1..], id);
    }
  }

  /** Exactly which completed operations take a lease away.  An acquire that is refused leaves even
      expired entries of other items listed. */
  lemma LeaseLostExactly(w: World, e: Event, id: string, token: nat)
    requires Inv(w) && Fenced(w.disk.table, id, token) && e.landed >= |Writes(w.disk, e.op)|
    ensures !Fenced(Next(w, e).disk.table, id, token) <==>
            match e.op
            case Acquire(_, _, _, _, now) => !Live(w.disk.table[id], now) && Granted(w.disk, e.op)
            case ReclaimExpired(now) => !Live(w.disk.table[id], now)
            case Heartbeat(_, _, _) => false
            case Release(i, t) => i == id && t == token
  {
    assert Agrees(w, id);
    if e.op.Acquire? && !Live(w.disk.table[id], e.op.now) {
      assert id in Retired(w.disk.table, e.op.now);
    }
  }

  /** A heartbeat checks only the token: an expired entry nobody reclaimed comes back to life with
      the same token, for any time to live of at least a second. */
  lemma HeartbeatRevives(d: Disk, id: string, token: nat, now: real)
    requires Fenced(d.table, id, token) && d.table[id].ttl >= 1
    ensures var d' := Done(d, Heartbeat(id, token, now));
            Fenced(d'.table, id, token) && HasLive(d'.table, id, now)
  {
    var ws := Writes(d, Heartbeat(id, token, now));
    assert |ws| == 1;
    assert now < Stamp(now) as real + 1.0;
  }

  // ---- the shard set and the lease layer ----

  datatype Candidate = Candidate(id: string, depReady: bool, independent: bool)

  datatype HoldReason = DepUnready | NoIndependentMarker | LiveLease

  datatype Held = Held(id: string, reason: HoldReason)

  /** Why a candidate is held back, if it is. */
  function HoldFor(c: Candidate, t: Table, now: real): Option<HoldReason> {
    if !c.depReady then Some(DepUnready)
    else if !c.independent then Some(NoIndependentMarker)
    else if HasLive(t, c.id, now) then Some(LiveLease)
    else None
  }

  function Claimed(cs: seq<Candidate>, t: Table, now: real): seq<string> {
    if cs == [] then []
    else (if HoldFor(cs[0], t, now).None? then [cs[0].id] else []) + Claimed(cs[1..], t, now)
  }

  function HeldBack(cs: seq<Candidate>, t: Table, now: real): seq<Held> {
    if cs == [] then []
    else (match HoldFor(cs[0], t, now) case Some(r) => [Held(cs[0].id, r)] case None => [])
         + HeldBack(cs[1..], t, now)
  }

  function Ids(cs: seq<Candidate>): seq<string> {
    seq(|cs|, i requires 0 <= i < |cs| => cs[i].id)
  }

  function HeldIds(hs: seq<Held>): seq<string> {
    seq(|hs|, i requires 0 <= i < |hs| => hs[i].id)
  }

  /** Claimed and held split the candidates, both in queue order. */
  lemma {:induction false} ShardSplitsQueue(cs: seq<Candidate>, t: Table, now: real)
    ensures Interleaves(Ids(cs), Claimed(cs, t, now), HeldIds(HeldBack(cs, t, now)))
  {
    if cs != [] {
      ShardSplitsQueue(cs[1..], t, now);
      assert Ids(cs)[1..] == Ids(cs[1..]);
      var a, hs := Claimed(cs, t, now), HeldBack(cs, t, now);
      if HoldFor(cs[0], t, now).None? {
        assert a[1..] == Claimed(cs[1..], t, now);
        assert hs == HeldBack(cs[1..], t, now);
      } else {
        assert hs[1..] == HeldBack(cs[1..], t, now);
        assert HeldIds(hs)[1..] == HeldIds(hs[1..]);
        assert a == Claimed(cs[1..], t, now);
      }
    }
  }

  /** `reason` names the first of the three tests the candidate fails. */
  predicate FailsFirst(c: Candidate, reason: HoldReason, t: Table, now: real) {
    match reason
    case DepUnready => !c.depReady
    case NoIndependentMarker => c.depReady && !c.independent
    case LiveLease =>
      c.depReady && c.independent && c.id in t && t[c.id].stamp as real + t[c.id].ttl as real >= now
  }

  /** An id is held back for exactly the first test its candidate fails. */
  lemma {:induction false} HeldIff(cs: seq<Candidate>, t: Table, now: real, h: Held)
    ensures h in HeldBack(cs, t, now) <==>
            exists c :: c in cs && c.id == h.id && FailsFirst(c, h.reason, t, now)
  {
    if cs != [] {
      HeldIff(cs[1..], t, now, h);
      assert forall c :: c in cs <==> c == cs[0] || c in cs[1..];
    }
  }

  /** A claimed id is one that a dep-ready, independent candidate carries and whose acquire, on the
      same table at the same time, would be granted. */
  lemma {:induction false} ClaimedIffGranted(cs: seq<Candidate>, d: Disk, op: Op)
    requires op.Acquire?
    ensures op.id in Claimed(cs, d.table, op.now) <==>
            Granted(d, op) && exists c :: c in cs && c.id == op.id && c.depReady && c.independent
  {
    if cs != [] {
      ClaimedIffGranted(cs[1..], d, op);
      assert forall c :: c in cs <==> c == cs[0] || c in cs[1..];
    }
  }

  /** Acquire the ids one after another, at one time. */
  function AcquireAll(d: Disk, ids: seq<string>, pid: int, slot: string, ttl: int, now: real): Disk
    decreases |ids|
  {
    if ids == [] then d
    else AcquireAll(Done(d, Acquire(ids[0], pid, slot, ttl, now)), ids[1..], pid, slot, ttl, now)
  }

  /** Acquiring one item grants nothing away from another: its lease is as dead as before. */
  lemma OthersStayFree(d: Disk, op: Op, other: string)
    requires op.Acquire? && other != op.id && !HasLive(d.table, other, op.now)
    ensures !HasLive(Done(d, op).table, other, op.now)
  {
  }

  /** Every id of a shard set with distinct ids can be acquired, one after the other. */
  lemma {:induction false} AllClaimedAreGranted(d: Disk, ids: seq<string>, k: nat,
                                                pid: int, slot: string, ttl: int, now: real)
    requires Distinct(ids) && k < |ids|
    requires forall id :: id in ids ==> !HasLive(d.table, id, now)
    ensures Granted(AcquireAll(d, ids[..k], pid, slot, ttl, now), Acquire(ids[k], pid, slot, ttl, now))
    decreases |ids|
  {
    if k > 0 {
      var op := Acquire(ids[0], pid, slot, ttl, now);
      forall id | id in ids[1..] ensures !HasLive(Done(d, op).table, id, now) {
        OthersStayFree(d, op, id);
      }
      AllClaimedAreGranted(Done(d, op), ids[1..], k - 1, pid, slot, ttl, now);
      assert ids[..k][1..] == ids[1..][..k - 1];
    }
  }

  lemma DistinctTail(id: string, rest: seq<string>)
    requires Distinct([id] + rest)
    ensures id !in rest && Distinct(rest)
  {
    var all := [id] + rest;
    assert all[0] == id;
    assert forall i :: 0 <= i < |rest| ==> rest[i] == all[i + 1];
  }

  /** What is claimed has no live lease, and distinct candidates give distinct claims. */
  lemma {:induction false} ClaimsAreFree(cs: seq<Candidate>, t: Table, now: real)
    ensures forall id :: id in Claimed(cs, t, now) ==> id in Ids(cs) && !HasLive(t, id, now)
    ensures Distinct(Ids(cs)) ==> Distinct(Claimed(cs, t, now))
  {
    if cs != [] {
      ClaimsAreFree(cs[1..], t, now);
      assert Ids(cs) == [cs[0].id] + Ids(cs[1..]);
      if Distinct(Ids(cs)) {
        DistinctTail(cs[0].id, Ids(cs[1..]));
      }
    }
  }

  /** A whole shard set over distinct candidates can be acquired, one id after the other. */
  lemma ShardSetIsGranted(d: Disk, cs: seq<Candidate>, k: nat, pid: int, slot: string, ttl: int, now: real)
    requires Distinct(Ids(cs)) && k < |Claimed(cs, d.table, now)|
    ensures var ids := Claimed(cs, d.table, now);
            Granted(AcquireAll(d, ids[..k], pid, slot, ttl, now), Acquire(ids[k], pid, slot, ttl, now))
  {
    ClaimsAreFree(cs, d.table, now);
    AllClaimedAreGranted(d, Claimed(cs, d.table, now), k, pid, slot, ttl, now);
  }
}
