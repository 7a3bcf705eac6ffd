/**
 When bootstrap and check disagree, and when a second bootstrap still has something to do, decided on
 the file system before the run: from what each turn, taken by itself, would change.
 */
module LinkAgreement {
  import opened Prelude
  import opened LinkSetup

  /** The turn of `m`, taken on `fs` by itself, changes the entry of `path`. */
  ghost predicate Alters(fs: FileSystem, m: Mapping, path: Path) {
    !SameAt(fs, Bootstrap1(fs, m).0, path)
  }

  ghost predicate Fills(fs: FileSystem, m: Mapping, path: Path) {
    Alters(fs, m, path) && path in Bootstrap1(fs, m).0
  }

  /** The paths the turn of `m` looks at. */
  ghost function Reads(fs: FileSystem, m: Mapping): set<Path> {
    if m.skipAbsent then {}
    else if LinkedTo(fs, m.live, m.repo) then {m.live}
    else
      {m.live} + Chain(fs, m.repo)
      + if m.live in fs && fs[m.live].Link? && !Exists(fs, m.repo) then Chain(fs, m.live) else {}
  }

  ghost predicate Unread(fs: FileSystem, m: Mapping, later: Mapping) {
    forall p :: p in Reads(fs, later) ==> !Alters(fs, m, p)
  }

  /** No turn changes what a later turn looks at. */
  ghost predicate InOrder(fs: FileSystem, ms: seq<Mapping>) {
    forall a, b :: 0 <= a < b < |ms| ==> Unread(fs, ms[a], ms[b])
  }

  /** Relinking closes no circle: the repository path does not lead through the live path. */
  ghost predicate RelinksSafely(fs: FileSystem, m: Mapping) {
    Bootstrap1(fs, m).1.Relink? ==> m.live !in Chain(fs, m.repo)
  }

  ghost predicate AllRelinkSafely(fs: FileSystem, ms: seq<Mapping>) {
    forall i :: 0 <= i < |ms| ==> ms[i].live != ms[i].repo && RelinksSafely(fs, ms[i])
  }

  // ---- existence by counting links ----

  ghost predicate Rests(fs: FileSystem, path: Path, n: nat)
    decreases n
  {
    path in fs && (fs[path].Real? || (n > 0 && Rests(fs, fs[path].target, n - 1)))
  }

  lemma {:induction false} RestsLonger(fs: FileSystem, path: Path, n: nat, m: nat)
    requires n <= m && Rests(fs, path, n)
    ensures Rests(fs, path, m)
    decreases n
  {
    if !fs[path].Real? {
      RestsLonger(fs, fs[path].target, n - 1, m - 1);
    }
  }

  lemma {:induction false} ExistsRests(fs: FileSystem, path: Path, seen: set<Path>) returns (n: nat)
    requires path in seen && Where(fs, path, seen).Some? && Where(fs, path, seen).value in fs
    ensures Rests(fs, path, n)
    decreases |fs.Keys - seen|
  {
    if fs[path].Real? {
      n := 0;
    } else {
      var t := fs[path].target;
      assert fs.Keys - seen == (fs.Keys - (seen + {t})) + {t};
      n := ExistsRests(fs, t, seen + {t});
      n := n + 1;
    }
  }

  /** With `n` links left to go, and none of the paths seen before as close to the end. */
  lemma {:induction false} RestsExists(fs: FileSystem, path: Path, seen: set<Path>, n: nat)
    requires path in seen && Rests(fs, path, n) && (n > 0 ==> !Rests(fs, path, n - 1))
    requires forall p :: p in seen && p != path ==> !Rests(fs, p, n)
    ensures Where(fs, path, seen).Some? && Where(fs, path, seen).value in fs
    decreases |fs.Keys - seen|
  {
    if fs[path].Link? {
      var t := fs[path].target;
      assert t in fs && t !in seen by {
        if t in seen {
          if t != path {
            RestsLonger(fs, t, n - 1, n);
          }
        }
      }
      assert fs.Keys - seen == (fs.Keys - (seen + {t})) + {t};
      forall p | p in seen ensures !Rests(fs, p, n - 1) {
        if p != path && Rests(fs, p, n - 1) {
          RestsLonger(fs, p, n - 1, n);
        }
      }
      RestsExists(fs, t, seen + {t}, n - 1);
    }
  }

  lemma {:induction false} RestsMeansExists(fs: FileSystem, path: Path, n: nat)
    requires Rests(fs, path, n)
    ensures Exists(fs, path)
  {
    if n > 0 && Rests(fs, path, n - 1) {
      RestsMeansExists(fs, path, n - 1);
    } else {
      RestsExists(fs, path, {path}, n);
    }
  }

  /** A link exists exactly when what it points to exists. */
  lemma LinkExistsIff(fs: FileSystem, path: Path)
    requires path in fs && fs[path].Link?
    ensures Exists(fs, path) <==> Exists(fs, fs[path].target)
  {
    var t := fs[path].target;
    if Exists(fs, t) {
      var n := ExistsRests(fs, t, {t});
      RestsMeansExists(fs, path, n + 1);
    }
    if Exists(fs, path) {
      var n := ExistsRests(fs, path, {path});
      RestsMeansExists(fs, t, n - 1);
    }
  }

  /** A chain that passes an existing path exists. */
  lemma {:induction false} ExistsOnChain(fs: FileSystem, path: Path, seen: set<Path>, on: Path)
    requires path in seen && on in Reach(fs, path, seen) && Exists(fs, on)
    ensures Exists(fs, path)
    decreases |fs.Keys - seen|
  {
    if on != path {
      var t := fs[path].target;
      if t in fs {
        assert fs.Keys - seen == (fs.Keys - (seen + {t})) + {t};
        ExistsOnChain(fs, t, seen + {t}, on);
      }
      LinkExistsIff(fs, path);
    }
  }

  /** With fewer paths seen before, the links lead to the same end. */
  lemma {:induction false} FewerSeen(fs: FileSystem, path: Path, seen: set<Path>, more: set<Path>)
    requires path in seen && Where(fs, path, seen + more).Some?
    ensures Where(fs, path, seen) == Where(fs, path, seen + more)
    decreases |fs.Keys - seen|
  {
    if path in fs && fs[path].Link? && fs[path].target in fs {
      var t := fs[path].target;
      assert fs.Keys - seen == (fs.Keys - (seen + {t})) + {t};
      assert seen + {t} + more == seen + more + {t};
      FewerSeen(fs, t, seen + {t}, more);
    }
  }

  /** A link that exists reads what it points to. */
  lemma LinkReads(fs: FileSystem, path: Path)
    requires path in fs && fs[path].Link? && Exists(fs, path)
    ensures Read(fs, path) == Read(fs, fs[path].target)
  {
    var t := fs[path].target;
    LinkExistsIff(fs, path);
    assert {path} + {t} == {t} + {path};
    FewerSeen(fs, t, {t}, {path});
  }

  /** If only the missing end of a chain is filled, its start reads what was put there. */
  lemma {:induction false} FilledEndExists(fs: FileSystem, fs': FileSystem, path: Path, seen: set<Path>, end: Path)
    requires path in seen && Where(fs, path, seen) == Some(end) && end !in fs && end in fs' && fs'[end].Real?
    requires forall p :: p in Reach(fs, path, seen) && p != end ==> SameAt(fs, fs', p)
    ensures Exists(fs', path) && Read(fs', path) == Some(fs'[end].content)
    decreases |fs.Keys - seen|
  {
    if path == end {
      RestsMeansExists(fs', path, 0);
    } else {
      var t := fs[path].target;
      assert path in Reach(fs, path, seen);
      if t in fs {
        assert fs.Keys - seen == (fs.Keys - (seen + {t})) + {t};
        FilledEndExists(fs, fs', t, seen + {t}, end);
      } else {
        RestsMeansExists(fs', t, 0);
      }
      LinkExistsIff(fs', path);
      LinkReads(fs', path);
    }
  }

  /** What a turn fills, exists after it. */
  lemma FilledExists(fs: FileSystem, m: Mapping, path: Path)
    requires m.live != m.repo && RelinksSafely(fs, m) && Fills(fs, m, path)
    ensures Exists(Bootstrap1(fs, m).0, path)
  {
    var (fs', outcome) := Bootstrap1(fs, m);
    match outcome
    case Relink | Recover =>
      if outcome.Recover? {
        MissingOffChain(fs, m.repo, m.live);
      }
      SameChain(fs, fs', m.repo);
      LinkExistsIff(fs', m.live);
    case CopyLink =>
      var end := End(fs, m.repo).value;
      EndOnChain(fs, m.repo, {m.repo});
      if m.live in Chain(fs, m.repo) {
        ExistsOnChain(fs, m.repo, {m.repo}, m.live);
      }
      FilledEndExists(fs, fs', m.repo, {m.repo}, end);
      LinkExistsIff(fs', m.live);
      RestsMeansExists(fs', end, 0);
    case Move =>
      RestsMeansExists(fs', m.repo, 0);
      LinkExistsIff(fs', m.live);
    case _ =>
  }

  /** A turn cuts off nothing that exists. */
  lemma {:induction false} ExistsKept(fs: FileSystem, m: Mapping, path: Path, n: nat)
    requires m.live != m.repo && RelinksSafely(fs, m) && Rests(fs, path, n)
    ensures Exists(Bootstrap1(fs, m).0, path)
    decreases n
  {
    var fs' := Bootstrap1(fs, m).0;
    if Alters(fs, m, path) {
      RestsMeansExists(fs, path, n);
      FilledExists(fs, m, path);
    } else if fs[path].Link? {
      ExistsKept(fs, m, fs[path].target, n - 1);
      LinkExistsIff(fs', path);
    } else {
      RestsMeansExists(fs', path, 0);
    }
  }

  /** What the two sides read after a turn that does not fail, unless it closes a circle.  A repository path
      that led nowhere reads what the live path read, if that was to be copied or moved; the live path reads
      as before, or what an existing repository path reads. */
  lemma TurnReads(fs: FileSystem, m: Mapping)
    requires m.live != m.repo && RelinksSafely(fs, m) && !Bootstrap1(fs, m).1.Fails?
    ensures var (fs', outcome) := Bootstrap1(fs, m);
            && Read(fs', m.live) == (if outcome.Relink? || outcome.Recover? then Read(fs, m.repo) else Read(fs, m.live))
            && Read(fs', m.repo) == (if outcome.CopyLink? || outcome.Move? then Read(fs, m.live) else Read(fs, m.repo))
  {
    var (fs', outcome) := Bootstrap1(fs, m);
    match outcome
    case Relink | Recover => RelinkedReads(fs, m);
    case CopyLink => CopiedReads(fs, m);
    case Move => MovedReads(fs, m);
    case DanglingRemoved => RemovalShortens(fs, m.live, m.repo, {m.repo});
    case _ =>
  }

  lemma RelinkedReads(fs: FileSystem, m: Mapping)
    requires m.live != m.repo && RelinksSafely(fs, m)
    requires Bootstrap1(fs, m).1.Relink? || Bootstrap1(fs, m).1.Recover?
    ensures var fs' := Bootstrap1(fs, m).0;
            Read(fs', m.live) == Read(fs, m.repo) && Read(fs', m.repo) == Read(fs, m.repo)
  {
    var (fs', outcome) := Bootstrap1(fs, m);
    if outcome.Recover? {
      MissingOffChain(fs, m.repo, m.live);
    }
    SameChain(fs, fs', m.repo);
    EndOnChain(fs, m.repo, {m.repo});
    LinkExistsIff(fs', m.live);
    LinkReads(fs', m.live);
  }

  /** After a copied link both sides read what the live path read before. */
  lemma CopiedReads(fs: FileSystem, m: Mapping)
    requires m.live != m.repo && Bootstrap1(fs, m).1.CopyLink?
    ensures var fs' := Bootstrap1(fs, m).0;
            && Read(fs, m.live).Some? && LinkedTo(fs', m.live, m.repo)
            && Read(fs', m.live) == Read(fs, m.live) && Read(fs', m.repo) == Read(fs, m.live)
  {
    var fs' := Bootstrap1(fs, m).0;
    if m.live in Chain(fs, m.repo) {
      ExistsOnChain(fs, m.repo, {m.repo}, m.live);
    }
    EndOnChain(fs, m.repo, {m.repo});
    FilledEndExists(fs, fs', m.repo, {m.repo}, End(fs, m.repo).value);
    LinkExistsIff(fs', m.live);
    LinkReads(fs', m.live);
  }

  lemma MovedReads(fs: FileSystem, m: Mapping)
    requires m.live != m.repo && Bootstrap1(fs, m).1.Move?
    ensures var fs' := Bootstrap1(fs, m).0;
            Read(fs', m.live) == Read(fs, m.live) && Read(fs', m.repo) == Read(fs, m.live)
  {
    var fs' := Bootstrap1(fs, m).0;
    RestsMeansExists(fs', m.repo, 0);
    LinkExistsIff(fs', m.live);
    LinkReads(fs', m.live);
  }

  // ---- a run in which no turn changes what a later turn looks at ----

  /** A turn does the same wherever the paths it looks at are the same. */
  lemma SameTurn(fs: FileSystem, now: FileSystem, m: Mapping, path: Path)
    requires SameOn(fs, now, Reads(fs, m))
    ensures Bootstrap1(now, m).1 == Bootstrap1(fs, m).1
    ensures if Alters(fs, m, path) then SameAt(Bootstrap1(fs, m).0, Bootstrap1(now, m).0, path) && Alters(now, m, path)
            else SameAt(now, Bootstrap1(now, m).0, path)
  {
    if !m.skipAbsent {
      assert m.live in Reads(fs, m);
      if !LinkedTo(fs, m.live, m.repo) {
        assert m.repo in Chain(fs, m.repo);
        SameChain(fs, now, m.repo);
        if End(fs, m.repo).Some? {
          EndOnChain(fs, m.repo, {m.repo});
        }
        if m.live in fs && fs[m.live].Link? && !Exists(fs, m.repo) {
          SameChain(fs, now, m.live);
          if End(fs, m.live).Some? {
            EndOnChain(fs, m.live, {m.live});
          }
        }
      }
    }
  }

  lemma AltersOnlyRead(fs: FileSystem, m: Mapping, path: Path)
    requires Alters(fs, m, path)
    ensures path in Reads(fs, m)
  {
    if End(fs, m.repo).Some? {
      EndOnChain(fs, m.repo, {m.repo});
    }
  }

  lemma {:induction false} TurnInOrder(fs: FileSystem, ms: seq<Mapping>, n: nat, b: nat)
    requires n <= b < |ms| && InOrder(fs, ms)
    ensures SameOn(fs, Bootstrapped(fs, ms, n), Reads(fs, ms[b]))
    decreases n
  {
    hide Bootstrap1, Reads, Alters;
    if n > 0 {
      var before := Bootstrapped(fs, ms, n - 1);
      TurnInOrder(fs, ms, n - 1, b);
      TurnInOrder(fs, ms, n - 1, n - 1);
      assert Unread(fs, ms[n - 1], ms[b]);
      forall p | p in Reads(fs, ms[b]) ensures SameAt(fs, Bootstrapped(fs, ms, n), p) {
        SameTurn(fs, before, ms[n - 1], p);
      }
    }
  }

  /** After `n` turns every path is as the one turn that alters it would leave it, or as it was. */
  lemma {:induction false} EntryAfter(fs: FileSystem, ms: seq<Mapping>, n: nat, path: Path)
    requires n <= |ms| && InOrder(fs, ms)
    ensures (forall k :: 0 <= k < n ==> !Alters(fs, ms[k], path)) ==> SameAt(fs, Bootstrapped(fs, ms, n), path)
    ensures forall k :: 0 <= k < n && Alters(fs, ms[k], path) ==>
              SameAt(Bootstrap1(fs, ms[k]).0, Bootstrapped(fs, ms, n), path)
  {
    hide Bootstrap1, Reads, Alters;
    if n > 0 {
      EntryAfter(fs, ms, n - 1, path);
      TurnInOrder(fs, ms, n - 1, n - 1);
      SameTurn(fs, Bootstrapped(fs, ms, n - 1), ms[n - 1], path);
      if Alters(fs, ms[n - 1], path) {
        AltersOnlyRead(fs, ms[n - 1], path);
        forall k | 0 <= k < n - 1 ensures !Alters(fs, ms[k], path) {
          assert Unread(fs, ms[k], ms[n - 1]);
        }
      }
    }
  }

  lemma OutcomeInOrder(fs: FileSystem, ms: seq<Mapping>, i: nat)
    requires i < |ms| && InOrder(fs, ms)
    ensures OutcomeOf(fs, ms, i) == Bootstrap1(fs, ms[i]).1
  {
    hide Bootstrap1, Reads;
    TurnInOrder(fs, ms, i, i);
    SameTurn(fs, Bootstrapped(fs, ms, i), ms[i], ms[i].live);
  }

  lemma SafeInOrder(fs: FileSystem, ms: seq<Mapping>, i: nat)
    requires i < |ms| && InOrder(fs, ms) && AllRelinkSafely(fs, ms)
    ensures RelinksSafely(Bootstrapped(fs, ms, i), ms[i])
  {
    TurnInOrder(fs, ms, i, i);
    OutcomeInOrder(fs, ms, i);
    if Bootstrap1(fs, ms[i]).1.Relink? {
      SameChain(fs, Bootstrapped(fs, ms, i), ms[i].repo);
    }
  }

  lemma NoTurns(fs: FileSystem, ms: seq<Mapping>)
    ensures Bootstrapped(fs, ms, 0) == fs
  {
  }

  lemma {:induction false} ExistsOn(fs: FileSystem, ms: seq<Mapping>, k: nat, n: nat, path: Path)
    requires k <= n <= |ms| && InOrder(fs, ms) && AllRelinkSafely(fs, ms)
    requires Exists(Bootstrapped(fs, ms, k), path)
    ensures Exists(Bootstrapped(fs, ms, n), path)
  {
    hide Bootstrap1, Exists, RelinksSafely;
    if k < n {
      ExistsOn(fs, ms, k, n - 1, path);
      var before := Bootstrapped(fs, ms, n - 1);
      SafeInOrder(fs, ms, n - 1);
      StillExists(before, ms[n - 1], path);
    }
  }

  lemma StillExists(fs: FileSystem, m: Mapping, path: Path)
    requires m.live != m.repo && RelinksSafely(fs, m) && Exists(fs, path)
    ensures Exists(Bootstrap1(fs, m).0, path)
  {
    var n := ExistsRests(fs, path, {path});
    ExistsKept(fs, m, path, n);
  }

  // ---- a mapping that is passed over ----

  /** Bootstrap leaves the live side of the mapping empty. */
  predicate LeftEmpty(fs: FileSystem, m: Mapping) {
    Bootstrap1(fs, m).1.Nothing? || Bootstrap1(fs, m).1.DanglingRemoved?
  }

  ghost predicate FilledLater(fs: FileSystem, ms: seq<Mapping>, i: nat, n: nat, path: Path)
    requires n <= |ms|
  {
    exists k :: i <= k < n && Fills(fs, ms[k], path)
  }

  ghost predicate UnalteredLater(fs: FileSystem, ms: seq<Mapping>, i: nat, n: nat, path: Path)
    requires n <= |ms|
  {
    forall k :: i <= k < n ==> !Alters(fs, ms[k], path)
  }

  /** Following the links from `path`: the first path that a turn from `i` on alters, is filled by it. */
  ghost predicate Reopens(fs: FileSystem, ms: seq<Mapping>, i: nat, n: nat, path: Path, seen: set<Path>)
    requires n <= |ms| && path in seen
    decreases |fs.Keys - seen|, if path in fs then 1 else 0
  {
    || FilledLater(fs, ms, i, n, path)
    || (&& UnalteredLater(fs, ms, i, n, path) && path in fs && fs[path].Link? && fs[path].target !in seen
        && var t := fs[path].target;
           assert t in fs ==> fs.Keys - seen == (fs.Keys - (seen + {t})) + {t};
           assert t !in fs ==> fs.Keys - (seen + {t}) == fs.Keys - seen;
           Reopens(fs, ms, i, n, t, seen + {t}))
  }

  lemma NotReadEarlier(fs: FileSystem, ms: seq<Mapping>, i: nat, k: nat, path: Path)
    requires k < i < |ms| && InOrder(fs, ms) && path in Reads(fs, ms[i])
    ensures !Alters(fs, ms[k], path)
  {
    assert Unread(fs, ms[k], ms[i]);
  }

  lemma FilledInRun(fs: FileSystem, ms: seq<Mapping>, k: nat, n: nat, path: Path)
    requires k < n <= |ms| && InOrder(fs, ms) && AllRelinkSafely(fs, ms) && Fills(fs, ms[k], path)
    ensures path in Bootstrapped(fs, ms, n) && Exists(Bootstrapped(fs, ms, n), path)
  {
    hide Bootstrap1, Exists;
    var before := Bootstrapped(fs, ms, k);
    TurnInOrder(fs, ms, k, k);
    SameTurn(fs, before, ms[k], path);
    SafeInOrder(fs, ms, k);
    FilledExists(before, ms[k], path);
    ExistsOn(fs, ms, k + 1, n, path);
    EntryAfter(fs, ms, n, path);
  }

  lemma {:induction false} ReopenedExists(fs: FileSystem, ms: seq<Mapping>, i: nat, n: nat, path: Path, seen: set<Path>)
    requires i < n <= |ms| && path in seen && InOrder(fs, ms) && AllRelinkSafely(fs, ms)
    requires Reach(fs, path, seen) <= Reads(fs, ms[i]) && Reopens(fs, ms, i, n, path, seen)
    ensures Exists(Bootstrapped(fs, ms, n), path)
    decreases |fs.Keys - seen|, if path in fs then 1 else 0
  {
    hide Bootstrap1, Exists, Reads, Alters, Fills;
    if FilledLater(fs, ms, i, n, path) {
      var k :| i <= k < n && Fills(fs, ms[k], path);
      FilledInRun(fs, ms, k, n, path);
    } else {
      var t := fs[path].target;
      assert path in Reach(fs, path, seen);
      forall k | 0 <= k < n ensures !Alters(fs, ms[k], path) {
        if k < i { NotReadEarlier(fs, ms, i, k, path); }
      }
      EntryAfter(fs, ms, n, path);
      assert t in fs ==> fs.Keys - seen == (fs.Keys - (seen + {t})) + {t};
      assert t !in fs ==> fs.Keys - (seen + {t}) == fs.Keys - seen;
      ReopenedExists(fs, ms, i, n, t, seen + {t});
      LinkExistsIff(Bootstrapped(fs, ms, n), path);
    }
  }

  ghost predicate LeadsOn(fs: FileSystem, path: Path, seen: set<Path>)
    requires path in seen
  {
    Where(fs, path, seen).Some? && Where(fs, path, seen).value in fs
  }

  lemma {:induction false} NotReopened(fs: FileSystem, ms: seq<Mapping>, i: nat, n: nat, path: Path, seen: set<Path>)
    requires i < n <= |ms| && path in seen && InOrder(fs, ms)
    requires Reach(fs, path, seen) <= Reads(fs, ms[i]) && !Reopens(fs, ms, i, n, path, seen)
    requires !LeadsOn(fs, path, seen)
    ensures !LeadsOn(Bootstrapped(fs, ms, n), path, seen)
    decreases |fs.Keys - seen|, if path in fs then 1 else 0
  {
    hide Bootstrap1, Reads, Alters, Bootstrapped;
    var now := Bootstrapped(fs, ms, n);
    assert path in Reach(fs, path, seen);
    EntryAfter(fs, ms, n, path);
    if UnalteredLater(fs, ms, i, n, path) {
      forall k | 0 <= k < n ensures !Alters(fs, ms[k], path) {
        if k < i { NotReadEarlier(fs, ms, i, k, path); }
      }
      if path in fs && fs[path].target !in seen {
        var t := fs[path].target;
        assert t in fs ==> fs.Keys - seen == (fs.Keys - (seen + {t})) + {t};
        assert t !in fs ==> fs.Keys - (seen + {t}) == fs.Keys - seen;
        NotReopened(fs, ms, i, n, t, seen + {t});
      }
    } else {
      var k :| i <= k < n && Alters(fs, ms[k], path);
      assert !Fills(fs, ms[k], path);
      assert path !in now;
    }
  }

  /** The mapping is passed over, and a later turn brings one of its sides into being. */
  ghost predicate ComesBack(fs: FileSystem, ms: seq<Mapping>, i: nat, n: nat)
    requires i < n <= |ms|
  {
    LeftEmpty(fs, ms[i])
    && (FilledLater(fs, ms, i, n, ms[i].live) || Reopens(fs, ms, i, n, ms[i].repo, {ms[i].repo}))
  }

  /** A path outside its mapping is altered only by filling it, with content. */
  lemma AltersOutside(fs: FileSystem, m: Mapping, path: Path)
    requires Alters(fs, m, path) && path != m.live && path != m.repo
    ensures path !in fs && Fills(fs, m, path) && Bootstrap1(fs, m).0[path].Real?
  {
  }

  /** What the run leaves at the live side of a mapping that has had its turn. */
  lemma LiveAtEnd(fs: FileSystem, ms: seq<Mapping>, i: nat, n: nat)
    requires i < n <= |ms| && Separate(ms) && InOrder(fs, ms)
    ensures var now := Bootstrapped(fs, ms, n);
            if LeftEmpty(fs, ms[i]) && FilledLater(fs, ms, i, n, ms[i].live)
            then ms[i].live in now && now[ms[i].live].Real?
            else ms[i].skipAbsent || SameAt(Bootstrap1(fs, ms[i]).0, now, ms[i].live)
  {
    hide Alters, InOrder, Bootstrap1, Bootstrapped, LeftEmpty, Reads;
    var live := ms[i].live;
    OwnLive(fs, ms[i]);
    if !ms[i].skipAbsent {
      EntryAfter(fs, ms, n, live);
      LiveReadByOwner(fs, ms[i]);
      forall k | 0 <= k < i ensures !Alters(fs, ms[k], live) {
        NotReadEarlier(fs, ms, i, k, live);
      }
      forall k | i < k < n && Alters(fs, ms[k], live)
        ensures live !in fs && Fills(fs, ms[k], live)
        ensures live in Bootstrap1(fs, ms[k]).0 && Bootstrap1(fs, ms[k]).0[live].Real?
      {
        AltersOutside(fs, ms[k], live);
      }
    }
  }

  lemma LiveReadByOwner(fs: FileSystem, m: Mapping)
    requires !m.skipAbsent
    ensures m.live in Reads(fs, m)
  {
  }

  /** A mapping that is passed over does not fill its own live path, any other that writes it does. */
  lemma OwnLive(fs: FileSystem, m: Mapping)
    ensures LeftEmpty(fs, m) ==> !m.skipAbsent && m.live !in Bootstrap1(fs, m).0
    ensures !m.skipAbsent && !LeftEmpty(fs, m) ==> m.live in Bootstrap1(fs, m).0
    ensures !Alters(fs, m, m.live) ==> SameAt(fs, Bootstrap1(fs, m).0, m.live)
  {
  }

  /** The four ways a turn ends, if it does not fail. */
  lemma AfterOwnTurn(fs: FileSystem, m: Mapping)
    requires !Bootstrap1(fs, m).1.Fails?
    ensures var (fs', outcome) := Bootstrap1(fs, m);
            || (m.skipAbsent && !outcome.Warn? && !LeftEmpty(fs, m))
            || (LeftEmpty(fs, m) && !m.skipAbsent && !outcome.Warn? && m.live !in fs')
            || (outcome.Warn? && !m.skipAbsent && !LeftEmpty(fs, m)
                && m.live in fs' && fs'[m.live].Real? && Exists(fs, m.repo))
            || (!outcome.Warn? && !LeftEmpty(fs, m) && LinkedTo(fs', m.live, m.repo))
  {
  }

  lemma RepoAtEnd(fs: FileSystem, ms: seq<Mapping>, i: nat, n: nat)
    requires i < n <= |ms| && InOrder(fs, ms) && AllRelinkSafely(fs, ms) && LeftEmpty(fs, ms[i])
    ensures Exists(Bootstrapped(fs, ms, n), ms[i].repo) <==> Reopens(fs, ms, i, n, ms[i].repo, {ms[i].repo})
  {
    var repo := ms[i].repo;
    assert Chain(fs, repo) <= Reads(fs, ms[i]) && !Exists(fs, repo);
    if Reopens(fs, ms, i, n, repo, {repo}) {
      ReopenedExists(fs, ms, i, n, repo, {repo});
    } else {
      NotReopened(fs, ms, i, n, repo, {repo});
    }
  }

  /** For every run in which no turn changes what a later turn looks at and relinking closes no circle:
      right after bootstrap, check and bootstrap disagree about a mapping that had its turn exactly when
      it was passed over and a later turn brings one of its sides into being. */
  lemma DisagreesIff(fs: FileSystem, ms: seq<Mapping>, i: nat)
    requires i < Completed(fs, ms, |ms|) && Separate(ms) && InOrder(fs, ms) && AllRelinkSafely(fs, ms)
    ensures Broken(Check1(AfterBootstrap(fs, ms), ms[i])) != OutcomeOf(fs, ms, i).Warn?
            <==> ComesBack(fs, ms, i, Completed(fs, ms, |ms|))
  {
    hide InOrder, AllRelinkSafely, FilledLater, Reopens, Exists, Bootstrap1, LeftEmpty, Bootstrapped;
    var n := Completed(fs, ms, |ms|);
    OutcomeInOrder(fs, ms, i);
    AfterOwnTurn(fs, ms[i]);
    LiveAtEnd(fs, ms, i, n);
    if LeftEmpty(fs, ms[i]) {
      RepoAtEnd(fs, ms, i, n);
    }
  }

  /** And a second run finds something to do there exactly when later turns have brought one side of a
      mapping that was passed over into being, and not both. */
  lemma SecondRunQuietIff(fs: FileSystem, ms: seq<Mapping>, i: nat)
    requires i < Completed(fs, ms, |ms|) && Separate(ms) && InOrder(fs, ms) && AllRelinkSafely(fs, ms)
    ensures var n := Completed(fs, ms, |ms|);
            Quiet(AfterBootstrap(fs, ms), ms[i]) <==>
            !(LeftEmpty(fs, ms[i])
              && FilledLater(fs, ms, i, n, ms[i].live) != Reopens(fs, ms, i, n, ms[i].repo, {ms[i].repo}))
  {
    hide InOrder, AllRelinkSafely, FilledLater, Reopens, Exists, Bootstrap1, LeftEmpty, Bootstrapped;
    var n := Completed(fs, ms, |ms|);
    OutcomeInOrder(fs, ms, i);
    AfterOwnTurn(fs, ms[i]);
    LiveAtEnd(fs, ms, i, n);
    if LeftEmpty(fs, ms[i]) {
      RepoAtEnd(fs, ms, i, n);
    } else if Bootstrap1(fs, ms[i]).1.Warn? {
      NoTurns(fs, ms);
      ExistsOn(fs, ms, 0, n, ms[i].repo);
    }
  }

  // ---- from a mapping's turn on ----

  lemma {:induction false} RunSplits(fs: FileSystem, ms: seq<Mapping>, i: nat, n: nat)
    requires i <= n <= |ms|
    ensures Bootstrapped(fs, ms, n) == Bootstrapped(Bootstrapped(fs, ms, i), ms[i..], n - i)
  {
    hide Bootstrap1;
    if i < n {
      RunSplits(fs, ms, i, n - 1);
      assert ms[i..][n - 1 - i] == ms[n - 1];
    }
  }

  lemma {:induction false} CompletedSplits(fs: FileSystem, ms: seq<Mapping>, i: nat, n: nat)
    requires i <= n <= |ms| && i <= Completed(fs, ms, n)
    ensures Completed(Bootstrapped(fs, ms, i), ms[i..], n - i) == Completed(fs, ms, n) - i
  {
    hide Bootstrap1;
    if i < n {
      CompletedSplits(fs, ms, i, n - 1);
      RunSplits(fs, ms, i, n - 1);
      assert ms[i..][n - 1 - i] == ms[n - 1];
    }
  }

  /** Earlier turns may change what the mapping looks at: it is enough that from its own turn on, none
      changes what a later one looks at. */
  lemma DisagreesFromTurnIff(fs: FileSystem, ms: seq<Mapping>, i: nat)
    requires i < Completed(fs, ms, |ms|) && Separate(ms)
    requires InOrder(Bootstrapped(fs, ms, i), ms[i..]) && AllRelinkSafely(Bootstrapped(fs, ms, i), ms[i..])
    ensures var turn, rest := Bootstrapped(fs, ms, i), ms[i..];
            var n := Completed(turn, rest, |rest|);
            && 0 < n
            && (Broken(Check1(AfterBootstrap(fs, ms), ms[i])) != OutcomeOf(fs, ms, i).Warn? <==> ComesBack(turn, rest, 0, n))
            && (Quiet(AfterBootstrap(fs, ms), ms[i]) <==>
                !(LeftEmpty(turn, ms[i])
                  && FilledLater(turn, rest, 0, n, ms[i].live) != Reopens(turn, rest, 0, n, ms[i].repo, {ms[i].repo})))
  {
    hide InOrder, AllRelinkSafely, ComesBack, FilledLater, Reopens, LeftEmpty, Quiet, Check1, Broken,
         AfterBootstrap, OutcomeOf, Bootstrapped, Separate;
    var turn, rest := Bootstrapped(fs, ms, i), ms[i..];
    SameEnd(fs, ms, i);
    RestSeparate(ms, i);
    DisagreesIff(turn, rest, 0);
    SecondRunQuietIff(turn, rest, 0);
  }

  lemma SameEnd(fs: FileSystem, ms: seq<Mapping>, i: nat)
    requires i < Completed(fs, ms, |ms|)
    ensures var turn, rest := Bootstrapped(fs, ms, i), ms[i..];
            && rest != [] && rest[0] == ms[i] && 0 < Completed(turn, rest, |rest|)
            && AfterBootstrap(turn, rest) == AfterBootstrap(fs, ms)
            && OutcomeOf(turn, rest, 0) == OutcomeOf(fs, ms, i)
  {
    hide Bootstrap1, Completed;
    CompletedSplits(fs, ms, i, |ms|);
    RunSplits(fs, ms, i, Completed(fs, ms, |ms|));
    NoTurns(Bootstrapped(fs, ms, i), ms[i..]);
  }

  lemma RestSeparate(ms: seq<Mapping>, i: nat)
    requires i <= |ms| && Separate(ms)
    ensures Separate(ms[i..])
  {
    var rest := ms[i..];
    forall a, b | 0 <= a < |rest| && 0 <= b < |rest| ensures rest[a].live != rest[b].repo {
      assert rest[a] == ms[i + a] && rest[b] == ms[i + b];
    }
  }

  // ---- what a single turn fills ----

  /** A missing path is filled by the turn of a mapping exactly when it is the live path and the
      repository path exists, or it is where the repository path leads and there is content to move, or
      to copy, there. */
  lemma FillsIff(fs: FileSystem, m: Mapping, path: Path)
    requires m.live != m.repo && path !in fs
    ensures Fills(fs, m, path) <==>
            && !m.skipAbsent
            && (|| (path == m.live && Exists(fs, m.repo))
                || (&& End(fs, m.repo) == Some(path) && path != m.live && m.live in fs
                    && if fs[m.live].Real? then path == m.repo
                       else Exists(fs, m.live) && !(m.isDir && m.repo in fs)))
  {
    if LinkedTo(fs, m.live, m.repo) {
      LinkExistsIff(fs, m.live);
    }
  }

  lemma PresentIsNotFilled(fs: FileSystem, m: Mapping, path: Path)
    requires path in fs && path != m.live && path != m.repo
    ensures !Alters(fs, m, path)
  {
  }

  // ---- three ways for a mapping to come back ----

  /** Mapping `i` is passed over, its repository path a link to a missing path. */
  predicate DeadEnd(fs: FileSystem, m: Mapping, missing: Path) {
    && !m.skipAbsent && m.live !in fs
    && m.repo in fs && fs[m.repo] == Link(missing) && missing !in fs && missing != m.live
  }

  /** Of the turns after that of `i`, only that of `j` can fill `path`: no other mapping's live path is
      `path`, and no other repository path leads there. */
  predicate OnlyBy(fs: FileSystem, ms: seq<Mapping>, i: nat, j: nat, path: Path) {
    forall k :: i < k < |ms| && k != j ==> ms[k].live != path && End(fs, ms[k].repo) != Some(path)
  }

  lemma OnlyByIff(fs: FileSystem, ms: seq<Mapping>, i: nat, j: nat, path: Path)
    requires i < j < |ms| && AllRelinkSafely(fs, ms) && OnlyBy(fs, ms, i, j, path) && path !in fs
    requires LeftEmpty(fs, ms[i]) && Bootstrap1(fs, ms[i]).0 == fs
    ensures FilledLater(fs, ms, i, |ms|, path) <==> Fills(fs, ms[j], path)
    ensures UnalteredLater(fs, ms, i, |ms|, path) <==> !FilledLater(fs, ms, i, |ms|, path)
  {
    hide Bootstrap1;
    forall k | i <= k < |ms| && k != j ensures !Fills(fs, ms[k], path) {
      if k != i {
        FillsIff(fs, ms[k], path);
      }
    }
    forall k | i <= k < |ms| ensures Fills(fs, ms[k], path) <==> Alters(fs, ms[k], path) {
    }
  }

  /** So whether it comes back is decided by `j` alone. */
  lemma DeadEndReopensIff(fs: FileSystem, ms: seq<Mapping>, i: nat, j: nat, missing: Path)
    requires i < j < |ms| && Separate(ms) && AllRelinkSafely(fs, ms) && DeadEnd(fs, ms[i], missing)
    requires OnlyBy(fs, ms, i, j, missing) && OnlyBy(fs, ms, i, j, ms[i].live)
    requires End(fs, ms[j].repo) != Some(ms[i].live)
    ensures !FilledLater(fs, ms, i, |ms|, ms[i].live)
    ensures Reopens(fs, ms, i, |ms|, ms[i].repo, {ms[i].repo}) <==> Fills(fs, ms[j], missing)
  {
    var m := ms[i];
    assert Bootstrap1(fs, m).1.Nothing?;
    OnlyByIff(fs, ms, i, j, m.live);
    FillsIff(fs, ms[j], m.live);
    OnlyByIff(fs, ms, i, j, missing);
    forall k | i <= k < |ms| ensures !Alters(fs, ms[k], m.repo) {
      if k != i {
        PresentIsNotFilled(fs, ms[k], m.repo);
      }
    }
    assert UnalteredLater(fs, ms, i, |ms|, m.repo);
    assert Reopens(fs, ms, i, |ms|, missing, {m.repo} + {missing}) <==> FilledLater(fs, ms, i, |ms|, missing);
  }

  /** A repository path linked to the missing repository path of a later mapping: nothing is warned
      about, and check calls the mapping broken, and a second run has something to do for it, exactly
      when the later one is not skipped and has something at its live path to move or copy. */
  lemma LinkToLaterRepoIff(fs: FileSystem, ms: seq<Mapping>, i: nat, j: nat)
    requires i < j < |ms| && Separate(ms) && InOrder(fs, ms) && AllRelinkSafely(fs, ms)
    requires Completed(fs, ms, |ms|) == |ms| && DeadEnd(fs, ms[i], ms[j].repo)
    requires OnlyBy(fs, ms, i, j, ms[j].repo) && OnlyBy(fs, ms, i, j, ms[i].live)
    ensures !OutcomeOf(fs, ms, i).Warn?
    ensures Broken(Check1(AfterBootstrap(fs, ms), ms[i])) <==> !ms[j].skipAbsent && Exists(fs, ms[j].live)
    ensures Quiet(AfterBootstrap(fs, ms), ms[i]) <==> !(!ms[j].skipAbsent && Exists(fs, ms[j].live))
  {
    hide InOrder, OnlyBy;
    OutcomeInOrder(fs, ms, i);
    DisagreesIff(fs, ms, i);
    SecondRunQuietIff(fs, ms, i);
    DeadEndReopensIff(fs, ms, i, j, ms[j].repo);
    FillsIff(fs, ms[j], ms[j].repo);
  }

  /** A repository path linked to the missing live path of a later mapping: exactly when the later one is
      not skipped and has a repository side. */
  lemma LinkToLaterLiveIff(fs: FileSystem, ms: seq<Mapping>, i: nat, j: nat)
    requires i < j < |ms| && Separate(ms) && InOrder(fs, ms) && AllRelinkSafely(fs, ms)
    requires Completed(fs, ms, |ms|) == |ms| && DeadEnd(fs, ms[i], ms[j].live)
    requires OnlyBy(fs, ms, i, j, ms[j].live) && OnlyBy(fs, ms, i, j, ms[i].live)
    requires End(fs, ms[j].repo) != Some(ms[i].live)
    ensures !OutcomeOf(fs, ms, i).Warn?
    ensures Broken(Check1(AfterBootstrap(fs, ms), ms[i])) <==> !ms[j].skipAbsent && Exists(fs, ms[j].repo)
    ensures Quiet(AfterBootstrap(fs, ms), ms[i]) <==> !(!ms[j].skipAbsent && Exists(fs, ms[j].repo))
  {
    hide InOrder, OnlyBy;
    OutcomeInOrder(fs, ms, i);
    DisagreesIff(fs, ms, i);
    SecondRunQuietIff(fs, ms, i);
    DeadEndReopensIff(fs, ms, i, j, ms[j].live);
    FillsIff(fs, ms[j], ms[j].live);
  }

  /** An unskipped file mapping whose live path is a link to existing content. */
  predicate CopiesThroughLink(fs: FileSystem, m: Mapping) {
    !m.skipAbsent && !m.isDir && m.live in fs && fs[m.live].Link? && Exists(fs, m.live)
  }

  /** A mapping passed over with nothing on either side, its live path the target of the repository link
      of a later mapping: exactly when that is an unskipped file mapping whose live path is a link to
      existing content, which is then copied there. */
  lemma CopyToEarlierLiveIff(fs: FileSystem, ms: seq<Mapping>, i: nat, j: nat)
    requires i < j < |ms| && Separate(ms) && InOrder(fs, ms) && AllRelinkSafely(fs, ms)
    requires Completed(fs, ms, |ms|) == |ms|
    requires !ms[i].skipAbsent && ms[i].live !in fs && ms[i].repo !in fs
    requires ms[j].repo in fs && fs[ms[j].repo] == Link(ms[i].live)
    requires OnlyBy(fs, ms, i, j, ms[i].live) && OnlyBy(fs, ms, i, j, ms[i].repo)
    ensures !OutcomeOf(fs, ms, i).Warn?
    ensures Broken(Check1(AfterBootstrap(fs, ms), ms[i])) <==>
            CopiesThroughLink(fs, ms[j])
    ensures Quiet(AfterBootstrap(fs, ms), ms[i]) <==> !CopiesThroughLink(fs, ms[j])
  {
    hide InOrder, OnlyBy;
    assert Bootstrap1(fs, ms[i]).1.Nothing?;
    OutcomeInOrder(fs, ms, i);
    DisagreesIff(fs, ms, i);
    SecondRunQuietIff(fs, ms, i);
    OnlyByIff(fs, ms, i, j, ms[i].live);
    OnlyByIff(fs, ms, i, j, ms[i].repo);
    FillsIff(fs, ms[j], ms[i].live);
    FillsIff(fs, ms[j], ms[i].repo);
    assert End(fs, ms[j].repo) == Some(ms[i].live);
  }
}
