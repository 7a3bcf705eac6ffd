/**
 The lease layer of `lazy_coord.py`: `leases.json` (one entry per work item, with an expiry and a
 fencing token) and its sibling watermark file, which remembers the highest token of entries that
 were deleted.

 Both files are replaced atomically, one after the other, so a process that dies in the middle of
 an operation leaves a prefix of that operation's writes on disk.  `Writes` lists the disk states
 an operation passes through; an `Event` says how many of them landed.
 */
module Leases {
  import opened Prelude

  datatype Lease = Lease(pid: int, slot: string, token: nat, stamp: int, ttl: int)
  type Table = map<string, Lease>
  type Marks = map<string, nat>
  datatype Disk = Disk(table: Table, marks: Marks)

  /** Heartbeat times are stored in whole seconds. */
  function Stamp(now: real): int {
    now.Floor
  }

  predicate Live(e: Lease, now: real) {
    e.stamp as real + e.ttl as real >= now
  }

  predicate HasLive(t: Table, id: string, now: real) {
    id in t && Live(t[id], now)
  }

  predicate Fenced(t: Table, id: string, token: int) {
    id in t && t[id].token == token
  }

  function Survivors(t: Table, now: real): Table {
    map id | id in t && Live(t[id], now) :: t[id]
  }

  function Retired(t: Table, now: real): Table {
    map id | id in t && !Live(t[id], now) :: t[id]
  }

  /** A slot directory: where it lies, and its name there. */
  datatype Dir = Dir(place: string, slot: string)

  /** The slot directories the entries name, in one place. */
  function DirsOf(place: string, t: Table): set<Dir> {
    set id | id in t && t[id].slot != "" :: Dir(place, t[id].slot)
  }

  function Mark(m: Marks, id: string): nat {
    if id in m then m[id] else 0
  }

  /** The watermarks after raising them to the tokens of the retired entries. */
  function Raised(m: Marks, retired: Table): Marks {
    map id | id in m.Keys + retired.Keys && (id in m || retired[id].token > 0) ::
      if id in retired && retired[id].token > Mark(m, id) then retired[id].token else m[id]
  }

  // ---- the operations, as the disk states they pass through ----

  datatype Op =
    | Acquire(id: string, pid: int, slot: string, ttl: int, now: real)
    | Heartbeat(id: string, token: int, now: real)
    | ReclaimExpired(now: real)
    | Release(id: string, token: int)

  function MarkWrites(d: Disk, retired: Table): seq<Disk> {
    if retired == map[] then [] else [d.(marks := Raised(d.marks, retired))]
  }

  predicate Granted(d: Disk, op: Op) {
    op.Acquire? && !HasLive(d.table, op.id, op.now)
  }

  /** The entry a granted acquire writes. */
  function NewLease(d: Disk, op: Op): Lease
    requires op.Acquire?
  {
    var marks := Raised(d.marks, Retired(d.table, op.now));
    Lease(op.pid, op.slot, Mark(marks, op.id) + 1, Stamp(op.now), op.ttl)
  }

  function Writes(d: Disk, op: Op): seq<Disk> {
    match op
    case Acquire(id, _, _, _, now) =>
      var retired := Retired(d.table, now);
      var marked := MarkWrites(d, retired);
      if Granted(d, op)
      then marked + [Disk(Survivors(d.table, now)[id := NewLease(d, op)], Raised(d.marks, retired))]
      else marked
    case Heartbeat(id, token, now) =>
      if Fenced(d.table, id, token)
      then [d.(table := d.table[id := d.table[id].(stamp := Stamp(now))])]
      else []
    case ReclaimExpired(now) =>
      var retired := Retired(d.table, now);
      MarkWrites(d, retired) + [Disk(Survivors(d.table, now), Raised(d.marks, retired))]
    case Release(id, token) =>
      if Fenced(d.table, id, token)
      then
        var marks := Raised(d.marks, map[id := d.table[id]]);
        [d.(marks := marks), Disk(d.table - {id}, marks)]
      else []
  }

  /** The disk once the first `n` of the writes `ws` have landed. */
  function Landed(d: Disk, ws: seq<Disk>, n: nat): Disk {
    if n == 0 || ws == [] then d else ws[(if n < |ws| then n else |ws|) - 1]
  }

  function Done(d: Disk, op: Op): Disk {
    var ws := Writes(d, op);
    Landed(d, ws, |ws|)
  }

  // ---- runs, with a crash allowed between any two writes ----

  datatype Mint = Mint(id: string, token: nat)

  /** `landed` smaller than the number of writes is a crash in the middle of `op`. */
  datatype Event = Event(op: Op, landed: nat)

  /** The disk, and every token ever written to `leases.json`, in order. */
  datatype World = World(disk: Disk, minted: seq<Mint>)

  const INIT := World(Disk(map[], map[]), [])

  function Next(w: World, e: Event): World {
    var ws := Writes(w.disk, e.op);
    var minted := if Granted(w.disk, e.op) && e.landed >= |ws|
                  then [Mint(e.op.id, NewLease(w.disk, e.op).token)] else [];
    World(Landed(w.disk, ws, e.landed), w.minted + minted)
  }

  function Run(w: World, events: seq<Event>): World
    decreases |events|
  {
    if events == [] then w else Run(Next(w, events[0]), events[1..])
  }

  /** The token minted last for `id`, 0 if there is none. */
  function Last(minted: seq<Mint>, id: string): nat {
    if minted == [] then 0
    else if minted[|minted| - 1].id == id then minted[|minted| - 1].token
    else Last(minted[..|minted| - 1], id)
  }

  ghost predicate Increasing(minted: seq<Mint>) {
    forall i, j :: 0 <= i < j < |minted| && minted[i].id == minted[j].id
                   ==> minted[i].token < minted[j].token
  }

  ghost predicate Bounded(minted: seq<Mint>) {
    forall i :: 0 <= i < |minted| ==> minted[i].token <= Last(minted, minted[i].id)
  }

  /** A listed entry carries the last minted token; a deleted one left it in the watermark. */
  ghost predicate Agrees(w: World, id: string) {
    if id in w.disk.table
    then w.disk.table[id].token == Last(w.minted, id) && Mark(w.disk.marks, id) <= w.disk.table[id].token
    else Mark(w.disk.marks, id) == Last(w.minted, id)
  }

  ghost predicate Inv(w: World) {
    && (forall id :: Agrees(w, id))
    && Increasing(w.minted)
    && Bounded(w.minted)
  }

  lemma LastAfter(minted: seq<Mint>, m: Mint, id: string)
    ensures Last(minted + [m], id) == if m.id == id then m.token else Last(minted, id)
  {
    assert (minted + [m])[..|minted|] == minted;
  }

  lemma MintKeepsOrder(minted: seq<Mint>, m: Mint)
    requires Increasing(minted) && Bounded(minted) && Last(minted, m.id) < m.token
    ensures Increasing(minted + [m]) && Bounded(minted + [m])
  {
    forall i | 0 <= i <= |minted|
      ensures (minted + [m])[i].token <= Last(minted + [m], (minted + [m])[i].id)
    {
      LastAfter(minted, m, (minted + [m])[i].id);
    }
  }

  /** Where only the watermarks of retired entries have been raised. */
  lemma MarkingKeepsAgreement(w: World, now: real, id: string)
    requires Agrees(w, id)
    ensures Agrees(w.(disk := w.disk.(marks := Raised(w.disk.marks, Retired(w.disk.table, now)))), id)
  {
  }

  lemma NoMint(w: World, e: Event)
    requires !Granted(w.disk, e.op) || e.landed < |Writes(w.disk, e.op)|
    ensures Next(w, e).minted == w.minted
  {
  }

  lemma AcquireKeepsAgreement(w: World, e: Event, id: string)
    requires Agrees(w, id) && e.op.Acquire?
    ensures Agrees(Next(w, e), id)
  {
    if Granted(w.disk, e.op) && e.landed >= |Writes(w.disk, e.op)| {
      LastAfter(w.minted, Mint(e.op.id, NewLease(w.disk, e.op).token), id);
    } else {
      NoMint(w, e);
      MarkingKeepsAgreement(w, e.op.now, id);
    }
  }

  lemma SweepKeepsAgreement(w: World, e: Event, id: string)
    requires Agrees(w, id) && e.op.ReclaimExpired?
    ensures Agrees(Next(w, e), id)
  {
    NoMint(w, e);
    MarkingKeepsAgreement(w, e.op.now, id);
  }

  lemma OtherKeepsAgreement(w: World, e: Event, id: string)
    requires Agrees(w, id) && (e.op.Heartbeat? || e.op.Release?)
    ensures Agrees(Next(w, e), id)
  {
    NoMint(w, e);
  }

  lemma MintIsFresh(w: World, op: Op)
    requires Granted(w.disk, op) && Agrees(w, op.id)
    ensures Last(w.minted, op.id) < NewLease(w.disk, op).token
  {
  }

  lemma StepKeepsInv(w: World, e: Event)
    requires Inv(w)
    ensures Inv(Next(w, e))
  {
    hide Agrees, Writes, NewLease;
    if Granted(w.disk, e.op) && e.landed >= |Writes(w.disk, e.op)| {
      assert Agrees(w, e.op.id);
      MintIsFresh(w, e.op);
      MintKeepsOrder(w.minted, Mint(e.op.id, NewLease(w.disk, e.op).token));
    } else {
      NoMint(w, e);
    }
    forall id ensures Agrees(Next(w, e), id) {
      assert Agrees(w, id);
      match e.op
      case Acquire(_, _, _, _, _) => AcquireKeepsAgreement(w, e, id);
      case ReclaimExpired(_) => SweepKeepsAgreement(w, e, id);
      case _ => OtherKeepsAgreement(w, e, id);
    }
  }

  /** Every reachable state, crashes included, keeps the invariant. */
  lemma {:induction false} RunKeepsInv(w: World, events: seq<Event>)
    requires Inv(w)
    ensures Inv(Run(w, events))
    decreases |events|
  {
    if events != [] {
      StepKeepsInv(w, events[0]);
      RunKeepsInv(Next(w, events[0]), events[1..]);
    }
  }
}
