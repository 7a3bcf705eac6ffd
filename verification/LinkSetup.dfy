/**
 The link verbs of `setup.py`: `bootstrap`, `check` and `repair` reconcile a list of mappings, each
 of which wants its live path to be a link to its repository path.

 A path holds real content - a file or a whole directory, kept opaque - or a link to another path.
 */
module LinkSetup {
  import opened Prelude

  type Path = string

  datatype Entry = Real(content: string) | Link(target: Path)

  type FileSystem = map<Path, Entry>

  /** `isDir` is the declared type of the mapping. */
  datatype Mapping = Mapping(live: Path, repo: Path, skipAbsent: bool, isDir: bool)

  // ---- following links ----

  /** The path where the links from `path` end: real content or nothing; None for a circle. */
  function Where(fs: FileSystem, path: Path, seen: set<Path>): (end: Option<Path>)
    requires path in seen
    ensures end.Some? && end.value in fs ==> fs[end.value].Real?
    decreases |fs.Keys - seen|
  {
    if path !in fs || fs[path].Real? then Some(path)
    else
      var t := fs[path].target;
      if t in seen then None
      else if t !in fs then Some(t)
      else
        assert fs.Keys - seen == (fs.Keys - (seen + {t})) + {t};
        Where(fs, t, seen + {t})
  }

  /** The paths looked at on the way. */
  ghost function Reach(fs: FileSystem, path: Path, seen: set<Path>): set<Path>
    requires path in seen
    decreases |fs.Keys - seen|
  {
    if path !in fs || fs[path].Real? then {path}
    else
      var t := fs[path].target;
      if t in seen then {path}
      else if t !in fs then {path, t}
      else
        assert fs.Keys - seen == (fs.Keys - (seen + {t})) + {t};
        {path} + Reach(fs, t, seen + {t})
  }

  function End(fs: FileSystem, path: Path): Option<Path> {
    Where(fs, path, {path})
  }

  /** `os.path.exists` */
  predicate Exists(fs: FileSystem, path: Path) {
    End(fs, path).Some? && End(fs, path).value in fs
  }

  /** What reading `path` gives, following links. */
  function Read(fs: FileSystem, path: Path): Option<string> {
    if Exists(fs, path) then Some(fs[End(fs, path).value].content) else None
  }

  ghost function Chain(fs: FileSystem, path: Path): set<Path> {
    Reach(fs, path, {path})
  }

  predicate SameAt(fs: FileSystem, fs': FileSystem, path: Path) {
    (path in fs' <==> path in fs) && (path in fs ==> fs'[path] == fs[path])
  }

  /** Two file systems that agree on a chain of links agree on where it leads. */
  ghost predicate SameOn(fs: FileSystem, fs': FileSystem, paths: set<Path>) {
    forall p :: p in paths ==> SameAt(fs, fs', p)
  }

  lemma {:induction false} SameWhere(fs: FileSystem, fs': FileSystem, path: Path, seen: set<Path>)
    requires path in seen && SameOn(fs, fs', Reach(fs, path, seen))
    ensures Where(fs', path, seen) == Where(fs, path, seen)
    ensures Reach(fs', path, seen) == Reach(fs, path, seen)
    decreases |fs.Keys - seen|
  {
    assert path in Reach(fs, path, seen);
    if path in fs && fs[path].Link? {
      var t := fs[path].target;
      if t !in seen && t in fs {
        assert fs.Keys - seen == (fs.Keys - (seen + {t})) + {t};
        assert t in Reach(fs, t, seen + {t});
        SameWhere(fs, fs', t, seen + {t});
      }
    }
  }

  lemma {:induction false} EndOnChain(fs: FileSystem, path: Path, seen: set<Path>)
    requires path in seen && Where(fs, path, seen).Some?
    ensures Where(fs, path, seen).value in Reach(fs, path, seen)
    decreases |fs.Keys - seen|
  {
    if path in fs && fs[path].Link? && fs[path].target in fs {
      var t := fs[path].target;
      assert fs.Keys - seen == (fs.Keys - (seen + {t})) + {t};
      EndOnChain(fs, t, seen + {t});
    }
  }

  lemma SameChain(fs: FileSystem, fs': FileSystem, path: Path)
    requires SameOn(fs, fs', Chain(fs, path))
    ensures End(fs', path) == End(fs, path) && Chain(fs', path) == Chain(fs, path)
    ensures Exists(fs', path) <==> Exists(fs, path)
  {
    SameWhere(fs, fs', path, {path});
    if End(fs, path).Some? {
      EndOnChain(fs, path, {path});
    }
  }

  /** Without one entry, a chain can only be cut short. */
  lemma {:induction false} RemovalShortens(fs: FileSystem, gone: Path, path: Path, seen: set<Path>)
    requires path in seen
    ensures Reach(fs - {gone}, path, seen) <= Reach(fs, path, seen)
    ensures var end := Where(fs - {gone}, path, seen);
            end.Some? && end.value in fs - {gone} ==> Where(fs, path, seen) == end
    decreases |fs.Keys - seen|
  {
    if path in fs && fs[path].Link? && fs[path].target in fs && fs[path].target !in seen {
      var t := fs[path].target;
      assert fs.Keys - seen == (fs.Keys - (seen + {t})) + {t};
      RemovalShortens(fs, gone, t, seen + {t});
    }
  }

  predicate LinkedTo(fs: FileSystem, live: Path, repo: Path) {
    live in fs && fs[live] == Link(repo)
  }

  // ---- bootstrap ----

  datatype Outcome =
    | SkipAbsent | SkipLinked | Relink | CopyLink | DanglingRemoved | Warn | Move | Recover | Nothing | Fails

  /** Copying or moving onto a repository path that is a link leading nowhere: a directory cannot be
      put there, and a file copied there lands where the link leads, unless that is a circle. */
  predicate CannotCopy(fs: FileSystem, m: Mapping) {
    End(fs, m.repo).None? || (m.isDir && m.repo in fs)
  }

  /** One turn of the bootstrap loop; `Fails` is an uncaught error of the copy or move. */
  function Bootstrap1(fs: FileSystem, m: Mapping): (FileSystem, Outcome) {
    if m.skipAbsent then (fs, SkipAbsent)
    else if LinkedTo(fs, m.live, m.repo) then (fs, SkipLinked)
    else if m.live in fs && fs[m.live].Link? then
      if Exists(fs, m.repo) then (fs[m.live := Link(m.repo)], Relink)
      else if Exists(fs, m.live) then
        if CannotCopy(fs, m) then (fs, Fails)
        else (fs[End(fs, m.repo).value := Real(Read(fs, m.live).value)][m.live := Link(m.repo)], CopyLink)
      else (fs - {m.live}, DanglingRemoved)
    else if m.live in fs then
      if Exists(fs, m.repo) then (fs, Warn)
      else if m.isDir && m.repo in fs then (fs, Fails)
      else (fs[m.repo := fs[m.live]][m.live := Link(m.repo)], Move)
    else if Exists(fs, m.repo) then (fs[m.live := Link(m.repo)], Recover)
    else (fs, Nothing)
  }

  /** The file system after the turns of the first `n` mappings. */
  function Bootstrapped(fs: FileSystem, ms: seq<Mapping>, n: nat): FileSystem
    requires n <= |ms|
  {
    if n == 0 then fs else Bootstrap1(Bootstrapped(fs, ms, n - 1), ms[n - 1]).0
  }

  function OutcomeOf(fs: FileSystem, ms: seq<Mapping>, i: nat): Outcome
    requires i < |ms|
  {
    Bootstrap1(Bootstrapped(fs, ms, i), ms[i]).1
  }

  /** How many of the first `n` turns are completed: all, or those before the first that fails. */
  function Completed(fs: FileSystem, ms: seq<Mapping>, n: nat): (k: nat)
    requires n <= |ms|
    ensures k <= n && (forall i :: 0 <= i < k ==> !OutcomeOf(fs, ms, i).Fails?)
    ensures k < n ==> OutcomeOf(fs, ms, k).Fails?
  {
    if n == 0 then 0
    else
      var k := Completed(fs, ms, n - 1);
      if k == n - 1 && !OutcomeOf(fs, ms, n - 1).Fails? then n else k
  }

  /** What `cmd_bootstrap` leaves behind. */
  function AfterBootstrap(fs: FileSystem, ms: seq<Mapping>): FileSystem {
    Bootstrapped(fs, ms, Completed(fs, ms, |ms|))
  }

  /** All live and repository paths are pairwise different. */
  ghost predicate Separate(ms: seq<Mapping>) {
    && (forall i, j :: 0 <= i < |ms| && 0 <= j < |ms| ==> ms[i].live != ms[j].repo)
    && (forall i, j :: 0 <= i < j < |ms| ==> ms[i].live != ms[j].live && ms[i].repo != ms[j].repo)
  }

  /** What the turn of a mapping may write: its live path, and if its repository path does not exist,
      that path and the missing path it leads to. */
  ghost function Touched(fs: FileSystem, m: Mapping): set<Path> {
    {m.live} + if Exists(fs, m.repo) then {}
               else {m.repo} + match End(fs, m.repo)
                               case None => {}
                               case Some(end) => if end in fs then {} else {end}
  }

  /** The links from the repository path of `m` stay clear of what the turn of `other` may write. */
  ghost predicate Clear(fs: FileSystem, m: Mapping, other: Mapping) {
    Touched(fs, other) !! Chain(fs, m.repo)
  }

  /** The links of mapping `i` stay clear of all other mappings. */
  ghost predicate ApartAt(fs: FileSystem, ms: seq<Mapping>, i: nat)
    requires i < |ms|
  {
    forall k :: 0 <= k < |ms| && k != i ==> Clear(fs, ms[i], ms[k])
  }

  /** All mappings stay clear of those with an earlier turn. */
  ghost predicate ApartBefore(fs: FileSystem, ms: seq<Mapping>) {
    forall i, k :: 0 <= k < i < |ms| ==> Clear(fs, ms[i], ms[k])
  }

  ghost predicate Apart(fs: FileSystem, ms: seq<Mapping>) {
    forall i :: 0 <= i < |ms| ==> ApartAt(fs, ms, i)
  }

  /** Mappings are apart, in particular, if every repository path is no link or leads to existing content,
      by way of no live path of another mapping. */
  lemma ExistingReposAreApart(fs: FileSystem, ms: seq<Mapping>)
    requires Separate(ms)
    requires forall i :: 0 <= i < |ms| && ms[i].repo in fs && fs[ms[i].repo].Link? ==> Exists(fs, ms[i].repo)
    requires forall i, j :: 0 <= i < |ms| && 0 <= j < |ms| && i != j ==> ms[j].live !in Chain(fs, ms[i].repo)
    ensures Apart(fs, ms)
  {
    forall i, k | 0 <= i < |ms| && 0 <= k < |ms| && k != i ensures Clear(fs, ms[i], ms[k]) {
      assert ms[k].repo != ms[i].repo && ms[k].live != ms[i].repo;
      if Exists(fs, ms[i].repo) && ms[k].repo !in fs {
        MissingOffChain(fs, ms[i].repo, ms[k].repo);
      }
    }
  }

  lemma ApartImpliesBefore(fs: FileSystem, ms: seq<Mapping>)
    requires Apart(fs, ms)
    ensures ApartBefore(fs, ms)
  {
    forall i, k | 0 <= k < i < |ms| ensures Clear(fs, ms[i], ms[k]) {
      assert ApartAt(fs, ms, i);
    }
  }

  lemma StepIsLocal(fs: FileSystem, m: Mapping, path: Path)
    requires path !in Touched(fs, m)
    ensures SameAt(fs, Bootstrap1(fs, m).0, path)
  {
  }

  /** Bootstrap has nothing to do for this mapping. */
  predicate Quiet(fs: FileSystem, m: Mapping) {
    || m.skipAbsent
    || LinkedTo(fs, m.live, m.repo)
    || (m.live in fs && fs[m.live].Real? && Exists(fs, m.repo))
    || (m.live !in fs && !Exists(fs, m.repo))
  }

  predicate Fixed(fs: FileSystem, m: Mapping) {
    m.skipAbsent || LinkedTo(fs, m.live, m.repo)
  }

  /** A turn settles its mapping, if it does not fail: a warning is left exactly where content stands
      on both sides. */
  lemma StepSettles(fs: FileSystem, m: Mapping)
    requires m.live != m.repo && !Bootstrap1(fs, m).1.Fails?
    ensures var (fs', outcome) := Bootstrap1(fs, m);
            && Quiet(fs', m)
            && (outcome.Warn? <==> !m.skipAbsent && m.live in fs' && fs'[m.live].Real?)
            && (Fixed(fs', m) || Chain(fs', m.repo) <= Chain(fs, m.repo))
  {
    RemovalShortens(fs, m.live, m.repo, {m.repo});
  }

  /** When a turn raises: there is content to bring over, and the repository path is a link that leads
      nowhere - for a directory any such link, for a copied file one that goes in a circle. */
  lemma TurnFailsIff(fs: FileSystem, m: Mapping)
    ensures Bootstrap1(fs, m).1.Fails? <==>
            && !m.skipAbsent && !LinkedTo(fs, m.live, m.repo)
            && m.repo in fs && fs[m.repo].Link? && !Exists(fs, m.repo)
            && m.live in fs && (if fs[m.live].Real? then m.isDir
                                else Exists(fs, m.live) && (m.isDir || End(fs, m.repo).None?))
    ensures Bootstrap1(fs, m).1.Fails? ==> Bootstrap1(fs, m).0 == fs
  {
  }

  /** Whatever its turn meets, a mapping's repository path leads where it led before the run. */
  lemma {:induction false} ChainAtTurn(fs: FileSystem, ms: seq<Mapping>, i: nat, n: nat)
    requires n <= i < |ms| && ApartBefore(fs, ms)
    ensures SameOn(fs, Bootstrapped(fs, ms, n), Chain(fs, ms[i].repo))
    decreases n, 0
  {
    if n > 0 {
      var before := Bootstrapped(fs, ms, n - 1);
      ChainAtTurn(fs, ms, i, n - 1);
      TouchedAtTurn(fs, ms, n - 1);
      assert Clear(fs, ms[i], ms[n - 1]);
      forall p | p in Chain(fs, ms[i].repo) ensures SameAt(fs, Bootstrapped(fs, ms, n), p) {
        StepIsLocal(before, ms[n - 1], p);
      }
    }
  }

  lemma {:induction false} TouchedAtTurn(fs: FileSystem, ms: seq<Mapping>, n: nat)
    requires n < |ms| && ApartBefore(fs, ms)
    ensures Touched(Bootstrapped(fs, ms, n), ms[n]) == Touched(fs, ms[n])
    ensures Chain(Bootstrapped(fs, ms, n), ms[n].repo) == Chain(fs, ms[n].repo)
    ensures Exists(Bootstrapped(fs, ms, n), ms[n].repo) <==> Exists(fs, ms[n].repo)
    decreases n, 1
  {
    ChainAtTurn(fs, ms, n, n);
    SameChain(fs, Bootstrapped(fs, ms, n), ms[n].repo);
  }

  lemma LiveApart(fs: FileSystem, ms: seq<Mapping>, i: nat, k: nat)
    requires i < |ms| && k < |ms| && i != k && Separate(ms) && Clear(fs, ms[k], ms[i])
    ensures ms[i].live !in Touched(fs, ms[k])
  {
    if End(fs, ms[k].repo).Some? {
      EndOnChain(fs, ms[k].repo, {ms[k].repo});
    }
  }

  /** The turn of another mapping leaves alone what stays clear of it. */
  lemma OtherTurnKeeps(fs: FileSystem, ms: seq<Mapping>, k: nat, paths: set<Path>)
    requires k < |ms| && ApartBefore(fs, ms) && Touched(fs, ms[k]) !! paths
    ensures SameOn(Bootstrapped(fs, ms, k), Bootstrapped(fs, ms, k + 1), paths)
  {
    hide Bootstrap1, Touched;
    TouchedAtTurn(fs, ms, k);
    forall p | p in paths ensures SameAt(Bootstrapped(fs, ms, k), Bootstrapped(fs, ms, k + 1), p) {
      StepIsLocal(Bootstrapped(fs, ms, k), ms[k], p);
    }
  }

  /** After its turn nobody touches a mapping's live side. */
  lemma {:induction false} LiveKeptAfterTurn(fs: FileSystem, ms: seq<Mapping>, i: nat, n: nat)
    requires i < n <= |ms| && Separate(ms) && ApartBefore(fs, ms)
    ensures SameAt(Bootstrapped(fs, ms, i + 1), Bootstrapped(fs, ms, n), ms[i].live)
  {
    hide Bootstrap1, Touched, Separate, Exists;
    if i + 1 < n {
      LiveKeptAfterTurn(fs, ms, i, n - 1);
      LiveApart(fs, ms, i, n - 1);
      OtherTurnKeeps(fs, ms, n - 1, {ms[i].live});
      assert ms[i].live in {ms[i].live};
    }
  }

  /** Nor any path on the links its repository path had from the start. */
  lemma {:induction false} ChainKeptAfterTurn(fs: FileSystem, ms: seq<Mapping>, i: nat, n: nat)
    requires i < n <= |ms| && ApartBefore(fs, ms) && ApartAt(fs, ms, i)
    ensures SameOn(Bootstrapped(fs, ms, i + 1), Bootstrapped(fs, ms, n), Chain(fs, ms[i].repo))
  {
    hide Bootstrap1, Touched;
    if i + 1 < n {
      ChainKeptAfterTurn(fs, ms, i, n - 1);
      assert Clear(fs, ms[i], ms[n - 1]);
      OtherTurnKeeps(fs, ms, n - 1, Chain(fs, ms[i].repo));
    }
  }

  lemma ChainAfterTurn(fs: FileSystem, ms: seq<Mapping>, i: nat)
    requires i < |ms| && Separate(ms) && ApartBefore(fs, ms) && !OutcomeOf(fs, ms, i).Fails?
    ensures var turn := Bootstrapped(fs, ms, i + 1);
            Fixed(turn, ms[i]) || Chain(turn, ms[i].repo) <= Chain(fs, ms[i].repo)
  {
    assert ms[i].live != ms[i].repo;
    StepSettles(Bootstrapped(fs, ms, i), ms[i]);
    TouchedAtTurn(fs, ms, i);
  }

  /** Once it has had its turn a mapping is settled, through the rest of the run. */
  lemma RunSettles(fs: FileSystem, ms: seq<Mapping>, i: nat, n: nat)
    requires i < n <= |ms| && Separate(ms) && ApartBefore(fs, ms) && ApartAt(fs, ms, i)
    requires !OutcomeOf(fs, ms, i).Fails?
    ensures var now := Bootstrapped(fs, ms, n);
            && Quiet(now, ms[i])
            && (OutcomeOf(fs, ms, i).Warn? <==>
                !ms[i].skipAbsent && ms[i].live in now && now[ms[i].live].Real?)
  {
    var turn, now := Bootstrapped(fs, ms, i + 1), Bootstrapped(fs, ms, n);
    assert ms[i].live != ms[i].repo;
    StepSettles(Bootstrapped(fs, ms, i), ms[i]);
    LiveKeptAfterTurn(fs, ms, i, n);
    if !Fixed(turn, ms[i]) {
      ChainAfterTurn(fs, ms, i);
      ChainKeptAfterTurn(fs, ms, i, n);
      SameChain(turn, now, ms[i].repo);
    }
  }

  lemma {:induction false} QuietRun(fs: FileSystem, ms: seq<Mapping>, n: nat)
    requires n <= |ms| && forall i :: 0 <= i < n ==> Quiet(fs, ms[i])
    ensures Bootstrapped(fs, ms, n) == fs && Completed(fs, ms, n) == n
  {
    if n > 0 {
      QuietRun(fs, ms, n - 1);
    }
  }

  /** A turn changes a path outside its mapping only by copying to it, and then it was missing. */
  lemma OutsideOnlyFilled(fs: FileSystem, m: Mapping, path: Path)
    requires path != m.live && path != m.repo
    ensures var fs' := Bootstrap1(fs, m).0;
            SameAt(fs, fs', path) || (path !in fs && path in fs' && fs'[path].Real?)
  {
  }

  /** After its turn, a mapping's live side changes only if it was left empty and something is copied
      there through another repository path. */
  lemma {:induction false} LiveAfterTurn(fs: FileSystem, ms: seq<Mapping>, i: nat, n: nat)
    requires i < n <= |ms| && Separate(ms)
    ensures var turn, now := Bootstrapped(fs, ms, i + 1), Bootstrapped(fs, ms, n);
            || SameAt(turn, now, ms[i].live)
            || (ms[i].live !in turn && ms[i].live in now && now[ms[i].live].Real?)
  {
    hide Bootstrap1;
    if i + 1 < n {
      LiveAfterTurn(fs, ms, i, n - 1);
      OutsideOnlyFilled(Bootstrapped(fs, ms, n - 1), ms[n - 1], ms[i].live);
    }
  }

  /** The program stops where the first turn fails, so what counts is the first mapping that is not
      quiet. */
  ghost predicate NothingToDo(fs: FileSystem, ms: seq<Mapping>) {
    forall i :: 0 <= i < |ms| && (forall j :: 0 <= j < i ==> Quiet(fs, ms[j])) ==>
      Quiet(fs, ms[i]) || Bootstrap1(fs, ms[i]).1.Fails?
  }

  lemma {:induction false} CompletedFrom(fs: FileSystem, ms: seq<Mapping>, k: nat, n: nat)
    requires k <= n <= |ms| && Completed(fs, ms, k) == k && (k == n || OutcomeOf(fs, ms, k).Fails?)
    ensures Completed(fs, ms, n) == k
  {
    if k < n {
      CompletedAtLeast(fs, ms, k, n);
    }
  }

  lemma {:induction false} CompletedAtLeast(fs: FileSystem, ms: seq<Mapping>, k: nat, n: nat)
    requires k <= n <= |ms| && Completed(fs, ms, k) == k
    ensures Completed(fs, ms, n) >= k
  {
    if k < n {
      CompletedAtLeast(fs, ms, k, n - 1);
    }
  }

  /** The first mapping that is not quiet, or the end. */
  ghost function FirstLoud(fs: FileSystem, ms: seq<Mapping>, from: nat): (k: nat)
    requires from <= |ms|
    ensures from <= k <= |ms| && (forall i :: from <= i < k ==> Quiet(fs, ms[i]))
    ensures k < |ms| ==> !Quiet(fs, ms[k])
    decreases |ms| - from
  {
    if from == |ms| || !Quiet(fs, ms[from]) then from else FirstLoud(fs, ms, from + 1)
  }

  /** On any file system a bootstrap changes nothing exactly when there is nothing to do beforehand. */
  lemma BootstrapDoesNothingIff(fs: FileSystem, ms: seq<Mapping>)
    requires Separate(ms)
    ensures AfterBootstrap(fs, ms) == fs <==> NothingToDo(fs, ms)
  {
    hide Bootstrap1, Quiet;
    var k := FirstLoud(fs, ms, 0);
    QuietRun(fs, ms, k);
    if k == |ms| || Bootstrap1(fs, ms[k]).1.Fails? {
      CompletedFrom(fs, ms, k, |ms|);
    } else {
      assert !NothingToDo(fs, ms);
      LoudRunChanges(fs, ms, k);
    }
  }

  /** A turn that is neither quiet nor fails changes its live side, to a link or from a link. */
  lemma LoudTurnChanges(fs: FileSystem, m: Mapping)
    requires m.live != m.repo && !Quiet(fs, m) && !Bootstrap1(fs, m).1.Fails?
    ensures var fs' := Bootstrap1(fs, m).0;
            && !SameAt(fs, fs', m.live)
            && (m.live !in fs' ==> m.live in fs && fs[m.live].Link?)
  {
  }

  lemma LoudRunChanges(fs: FileSystem, ms: seq<Mapping>, k: nat)
    requires k < |ms| && Separate(ms) && Bootstrapped(fs, ms, k) == fs && Completed(fs, ms, k) == k
    requires !Quiet(fs, ms[k]) && !Bootstrap1(fs, ms[k]).1.Fails?
    ensures AfterBootstrap(fs, ms) != fs
  {
    hide Bootstrap1, Quiet, Bootstrapped, Completed, OutcomeOf, Separate, Turns;
    var n := Completed(fs, ms, |ms|);
    OneMoreTurn(fs, ms, k);
    CompletedAtLeast(fs, ms, k + 1, |ms|);
    SeparateSides(ms, k);
    LoudTurnChanges(fs, ms[k]);
    LiveAfterTurn(fs, ms, k, n);
  }

  /** A second run changes nothing, whether the first one came to its end or stopped at a copy that
      fails: it stops there again. */
  lemma BootstrapIsIdempotent(fs: FileSystem, ms: seq<Mapping>)
    requires Separate(ms) && Apart(fs, ms)
    ensures AfterBootstrap(AfterBootstrap(fs, ms), ms) == AfterBootstrap(fs, ms)
  {
    ApartImpliesBefore(fs, ms);
    var k := Completed(fs, ms, |ms|);
    var once := AfterBootstrap(fs, ms);
    forall i | 0 <= i < k ensures Quiet(once, ms[i]) {
      RunSettles(fs, ms, i, k);
    }
    QuietRun(once, ms, k);
    CompletedFrom(once, ms, k, |ms|);
  }

  // ---- nothing real is lost ----

  /** Real content is still there: in place, or moved to the repository path a link now leads to. */
  ghost predicate Preserved(fs: FileSystem, path: Path, content: string, ms: seq<Mapping>) {
    || (path in fs && fs[path] == Real(content))
    || (exists i :: 0 <= i < |ms| && MovedTo(fs, path, content, ms[i]))
  }

  predicate MovedTo(fs: FileSystem, path: Path, content: string, m: Mapping) {
    m.live == path && LinkedTo(fs, path, m.repo) && m.repo in fs && fs[m.repo] == Real(content)
  }

  lemma StepPreserves(fs: FileSystem, ms: seq<Mapping>, n: nat, path: Path, content: string)
    requires n < |ms| && Separate(ms) && Preserved(fs, path, content, ms)
    ensures Preserved(Bootstrap1(fs, ms[n]).0, path, content, ms)
  {
    var m := ms[n];
    var fs' := Bootstrap1(fs, m).0;
    assert m.live != m.repo;
    if path in fs && fs[path] == Real(content) {
      if path == m.live && fs' != fs {
        assert MovedTo(fs', path, content, m);
      }
    } else {
      var i :| 0 <= i < |ms| && MovedTo(fs, path, content, ms[i]);
      assert MovedTo(fs', path, content, ms[i]);
    }
  }

  lemma {:induction false} RunPreserves(fs: FileSystem, ms: seq<Mapping>, n: nat, path: Path)
    requires n <= |ms| && Separate(ms) && path in fs && fs[path].Real?
    ensures Preserved(Bootstrapped(fs, ms, n), path, fs[path].content, ms)
  {
    hide Bootstrap1;
    if n > 0 {
      RunPreserves(fs, ms, n - 1, path);
      StepPreserves(Bootstrapped(fs, ms, n - 1), ms, n - 1, path, fs[path].content);
    }
  }

  /** Whatever was real content before a bootstrap reads the same at the same path afterwards. */
  lemma BootstrapKeepsContent(fs: FileSystem, ms: seq<Mapping>, path: Path)
    requires Separate(ms) && path in fs && fs[path].Real?
    ensures Read(AfterBootstrap(fs, ms), path) == Some(fs[path].content)
  {
    var fs' := AfterBootstrap(fs, ms);
    RunPreserves(fs, ms, Completed(fs, ms, |ms|), path);
    if !(path in fs' && fs'[path] == fs[path]) {
      var i :| 0 <= i < |ms| && MovedTo(fs', path, fs[path].content, ms[i]);
      assert Where(fs', ms[i].repo, {path} + {ms[i].repo}) == Some(ms[i].repo);
    }
  }

  /** A path that disappears was a dangling link at the live side of a mapping. */
  lemma {:induction false} OnlyLinksVanish(fs: FileSystem, ms: seq<Mapping>, n: nat, path: Path)
    requires n <= |ms| && Separate(ms)
    requires path in fs && path !in Bootstrapped(fs, ms, n)
    ensures fs[path].Link? && exists i :: 0 <= i < n && ms[i].live == path && OutcomeOf(fs, ms, i).DanglingRemoved?
  {
    if path !in Bootstrapped(fs, ms, n - 1) {
      OnlyLinksVanish(fs, ms, n - 1, path);
    } else {
      assert ms[n - 1].live == path && OutcomeOf(fs, ms, n - 1).DanglingRemoved?;
      if fs[path].Real? {
        RunPreserves(fs, ms, n, path);
      }
    }
  }

  // ---- check ----

  datatype Verdict = AbsentRepo | Missing | Absent | NotALink | Linked | WrongTarget

  function Check1(fs: FileSystem, m: Mapping): Verdict {
    if m.skipAbsent then AbsentRepo
    else if m.live !in fs then if Exists(fs, m.repo) then Missing else Absent
    else if !fs[m.live].Link? then NotALink
    else if fs[m.live].target == m.repo then Linked
    else WrongTarget
  }

  predicate Broken(v: Verdict) {
    v.Missing? || v.NotALink? || v.WrongTarget?
  }

  /** Check right after bootstrap calls broken exactly the mappings bootstrap warned about, among those
      that had their turn. */
  lemma CheckAgreesWithBootstrap(fs: FileSystem, ms: seq<Mapping>, i: nat)
    requires i < Completed(fs, ms, |ms|) && Separate(ms) && ApartBefore(fs, ms) && ApartAt(fs, ms, i)
    ensures Broken(Check1(AfterBootstrap(fs, ms), ms[i])) <==> OutcomeOf(fs, ms, i).Warn?
  {
    RunSettles(fs, ms, i, Completed(fs, ms, |ms|));
  }

  // ---- a repository path that leads into a mapping whose turn comes later ----

  /** The repository path of `a` is a link to the live path of `b`, which is missing, and so is that of
      `a`. */
  predicate LinksForward(fs: FileSystem, a: Mapping, b: Mapping) {
    && a.live !in fs && b.live !in fs
    && a.repo in fs && fs[a.repo] == Link(b.live)
  }

  /** Apart from what mapping `i` may meet of mapping `j`, every chain stays clear of the other mappings. */
  ghost predicate ApartBut(fs: FileSystem, ms: seq<Mapping>, i: nat, j: nat) {
    forall a, b :: 0 <= a < |ms| && 0 <= b < |ms| && a != b && (a != i || b != j) ==> Clear(fs, ms[a], ms[b])
  }

  lemma {:induction false} MissingIsEnd(fs: FileSystem, path: Path, seen: set<Path>, missing: Path)
    requires path in seen && missing in Reach(fs, path, seen) && missing !in fs
    ensures Where(fs, path, seen) == Some(missing)
    decreases |fs.Keys - seen|
  {
    if path in fs && fs[path].Link? && fs[path].target in fs && fs[path].target !in seen {
      var t := fs[path].target;
      assert fs.Keys - seen == (fs.Keys - (seen + {t})) + {t};
      MissingIsEnd(fs, t, seen + {t}, missing);
    }
  }

  lemma MissingOffChain(fs: FileSystem, path: Path, missing: Path)
    requires missing !in fs && Exists(fs, path)
    ensures missing !in Chain(fs, path)
  {
    if missing in Chain(fs, path) {
      MissingIsEnd(fs, path, {path}, missing);
    }
  }

  /** Links that avoid the paths already seen lead where they lead from a fresh start. */
  lemma {:induction false} SeenBefore(fs: FileSystem, path: Path, seen: set<Path>, more: set<Path>)
    requires path in seen && Reach(fs, path, seen) !! more
    ensures Where(fs, path, seen + more) == Where(fs, path, seen)
    decreases |fs.Keys - seen|
  {
    if path in fs && fs[path].Link? {
      var t := fs[path].target;
      if t !in seen && t in fs {
        assert fs.Keys - seen == (fs.Keys - (seen + {t})) + {t};
        assert t in Reach(fs, t, seen + {t});
        SeenBefore(fs, t, seen + {t}, more);
        assert seen + {t} + more == seen + more + {t};
      }
    }
  }

  /** The turn of a third mapping touches none of the three paths, nor the links of `j`. */
  lemma OtherTurn(fs: FileSystem, ms: seq<Mapping>, i: nat, j: nat, k: nat)
    requires i < j < |ms| && k < |ms| && k != i && k != j
    requires Separate(ms) && ApartBut(fs, ms, i, j)
    ensures SameOn(Bootstrapped(fs, ms, k), Bootstrapped(fs, ms, k + 1), {ms[i].live, ms[j].live, ms[i].repo})
    ensures SameOn(Bootstrapped(fs, ms, k), Bootstrapped(fs, ms, k + 1), Chain(fs, ms[j].repo))
  {
    hide Bootstrap1;
    LiveApart(fs, ms, i, k);
    LiveApart(fs, ms, j, k);
    assert Clear(fs, ms[i], ms[k]) && ms[i].repo in Chain(fs, ms[i].repo);
    assert Clear(fs, ms[j], ms[k]);
    OtherTurnKeeps(fs, ms, k, {ms[i].live, ms[j].live, ms[i].repo});
    OtherTurnKeeps(fs, ms, k, Chain(fs, ms[j].repo));
  }

  lemma DeadEndTurn(fs: FileSystem, a: Mapping, b: Mapping)
    requires LinksForward(fs, a, b)
    ensures Bootstrap1(fs, a).0 == fs && !Bootstrap1(fs, a).1.Warn? && !Bootstrap1(fs, a).1.Fails?
  {
  }

  /** Until `j` has its turn nothing changes, and `i` is passed over. */
  lemma {:induction false} EmptyUntilTurn(fs: FileSystem, ms: seq<Mapping>, i: nat, j: nat, n: nat)
    requires n <= j && i < j < |ms| && Separate(ms) && ApartBut(fs, ms, i, j) && LinksForward(fs, ms[i], ms[j])
    ensures LinksForward(Bootstrapped(fs, ms, n), ms[i], ms[j])
    ensures n == i + 1 ==> !OutcomeOf(fs, ms, i).Warn?
  {
    hide Bootstrap1, ApartBut, Separate;
    if n > 0 {
      EmptyUntilTurn(fs, ms, i, j, n - 1);
      if n - 1 == i {
        DeadEndTurn(Bootstrapped(fs, ms, i), ms[i], ms[j]);
      } else {
        OtherTurn(fs, ms, i, j, n - 1);
        ForwardKept(Bootstrapped(fs, ms, n - 1), Bootstrapped(fs, ms, n), ms[i], ms[j]);
      }
    }
  }

  lemma ForwardKept(fs: FileSystem, fs': FileSystem, a: Mapping, b: Mapping)
    requires LinksForward(fs, a, b) && SameOn(fs, fs', {a.live, b.live, a.repo})
    ensures LinksForward(fs', a, b)
  {
    assert a.live in {a.live, b.live, a.repo} && b.live in {a.live, b.live, a.repo} && a.repo in {a.live, b.live, a.repo};
  }

  /** The live side of `b` is linked, so the repository path of `a` leads on to that of `b`. */
  ghost predicate LinksOn(fs: FileSystem, now: FileSystem, a: Mapping, b: Mapping) {
    && a.live !in now && a.repo in now && now[a.repo] == Link(b.live)
    && LinkedTo(now, b.live, b.repo) && SameOn(fs, now, Chain(fs, b.repo))
  }

  predicate Filled(fs: FileSystem, m: Mapping) {
    !m.skipAbsent && Exists(fs, m.repo)
  }

  lemma OnKept(fs: FileSystem, before: FileSystem, now: FileSystem, a: Mapping, b: Mapping)
    requires LinksOn(fs, before, a, b)
    requires SameOn(before, now, {a.live, b.live, a.repo}) && SameOn(before, now, Chain(fs, b.repo))
    ensures LinksOn(fs, now, a, b)
  {
    assert a.live in {a.live, b.live, a.repo} && b.live in {a.live, b.live, a.repo} && a.repo in {a.live, b.live, a.repo};
  }

  /** The turn of `j` itself. */
  lemma FilledAtTurn(fs: FileSystem, ms: seq<Mapping>, i: nat, j: nat)
    requires i < j < |ms| && Separate(ms) && ApartBut(fs, ms, i, j) && LinksForward(fs, ms[i], ms[j])
    ensures var now := Bootstrapped(fs, ms, j + 1);
            if Filled(fs, ms[j]) then LinksOn(fs, now, ms[i], ms[j]) else LinksForward(now, ms[i], ms[j])
  {
    EmptyUntilTurn(fs, ms, i, j, j);
    TouchedAtTurn(fs, ms, j);
    ChainAtTurn(fs, ms, j, j);
    if Exists(fs, ms[j].repo) {
      MissingOffChain(fs, ms[j].repo, ms[j].live);
    }
  }

  /** And all turns after it. */
  lemma {:induction false} FilledAfterTurn(fs: FileSystem, ms: seq<Mapping>, i: nat, j: nat, n: nat)
    requires i < j < n <= |ms| && Separate(ms) && ApartBut(fs, ms, i, j) && LinksForward(fs, ms[i], ms[j])
    ensures var now := Bootstrapped(fs, ms, n);
            if Filled(fs, ms[j]) then LinksOn(fs, now, ms[i], ms[j]) else LinksForward(now, ms[i], ms[j])
  {
    hide Bootstrap1, ApartBut, Separate, Filled, LinksOn, LinksForward;
    if n == j + 1 {
      FilledAtTurn(fs, ms, i, j);
    } else {
      var before, now := Bootstrapped(fs, ms, n - 1), Bootstrapped(fs, ms, n);
      FilledAfterTurn(fs, ms, i, j, n - 1);
      OtherTurn(fs, ms, i, j, n - 1);
      if Filled(fs, ms[j]) {
        OnKept(fs, before, now, ms[i], ms[j]);
      } else {
        ForwardKept(before, now, ms[i], ms[j]);
      }
    }
  }

  /** Then bootstrap and check disagree about `i`, and a second run would change something, exactly
      when `j` is not skipped and has a repository side: bootstrap passes `i` over as empty, and the
      later turn of `j` makes its repository path exist. */
  lemma ForwardLinkBreaksIff(fs: FileSystem, ms: seq<Mapping>, i: nat, j: nat)
    requires i < j < |ms| && Separate(ms) && ApartBut(fs, ms, i, j) && LinksForward(fs, ms[i], ms[j])
    requires !ms[i].skipAbsent && Completed(fs, ms, |ms|) == |ms|
    ensures var once := AfterBootstrap(fs, ms);
            && !OutcomeOf(fs, ms, i).Warn?
            && (Broken(Check1(once, ms[i])) <==> !ms[j].skipAbsent && Exists(fs, ms[j].repo))
            && (AfterBootstrap(once, ms) != once <==> !ms[j].skipAbsent && Exists(fs, ms[j].repo))
  {
    hide Bootstrap1, ApartBut, Separate, Exists;
    var once := AfterBootstrap(fs, ms);
    EmptyUntilTurn(fs, ms, i, j, i + 1);
    FilledAfterTurn(fs, ms, i, j, |ms|);
    ForwardExists(fs, once, ms, i, j);
    forall k | 0 <= k < |ms| && k != i ensures Quiet(once, ms[k]) {
      OthersSettle(fs, ms, i, j, k);
    }
    StuckTurn(once, ms[i]);
    BootstrapDoesNothingIff(once, ms);
  }

  lemma OthersSettle(fs: FileSystem, ms: seq<Mapping>, i: nat, j: nat, k: nat)
    requires i < j < |ms| && k < |ms| && k != i && Separate(ms) && ApartBut(fs, ms, i, j)
    requires Completed(fs, ms, |ms|) == |ms|
    ensures Quiet(Bootstrapped(fs, ms, |ms|), ms[k])
  {
    hide Bootstrap1, Clear;
    RunSettles(fs, ms, k, |ms|);
  }

  lemma StuckTurn(fs: FileSystem, m: Mapping)
    requires m.live !in fs
    ensures !Bootstrap1(fs, m).1.Fails?
  {
  }

  lemma ForwardExists(fs: FileSystem, once: FileSystem, ms: seq<Mapping>, i: nat, j: nat)
    requires i < j < |ms| && Separate(ms) && ApartBut(fs, ms, i, j) && LinksForward(fs, ms[i], ms[j])
    requires if Filled(fs, ms[j]) then LinksOn(fs, once, ms[i], ms[j]) else LinksForward(once, ms[i], ms[j])
    ensures Exists(once, ms[i].repo) <==> Filled(fs, ms[j])
  {
    if Filled(fs, ms[j]) {
      var a, b, c := ms[i].repo, ms[j].live, ms[j].repo;
      MissingOffChain(fs, c, b);
      SameChain(fs, once, c);
      assert Clear(fs, ms[j], ms[i]);
      SeenBefore(once, c, {c}, {a, b});
      assert {c} + {a, b} == {a} + {b} + {c};
      assert Where(once, b, {a} + {b}) == End(once, c);
    }
  }

  /** The smallest such input. */
  lemma LinkedRepoNeedsTwoRuns()
    ensures var fs := map["repo0" := Link("live1"), "repo1" := Real("x")];
            var ms := [Mapping("live0", "repo0", false, false), Mapping("live1", "repo1", false, false)];
            var once := AfterBootstrap(fs, ms);
            && Separate(ms) && AfterBootstrap(once, ms) != once
            && !OutcomeOf(fs, ms, 0).Warn? && Broken(Check1(once, ms[0]))
  {
    var fs: FileSystem := map["repo0" := Link("live1"), "repo1" := Real("x")];
    var ms := [Mapping("live0", "repo0", false, false), Mapping("live1", "repo1", false, false)];
    assert Chain(fs, "repo0") == {"repo0", "live1"} && End(fs, "repo0") == Some("live1");
    assert Chain(fs, "repo1") == {"repo1"} && End(fs, "repo1") == Some("repo1");
    assert Bootstrapped(fs, ms, 0) == fs;
    assert Bootstrapped(fs, ms, 1) == fs;
    assert Completed(fs, ms, 2) == 2;
    ForwardLinkBreaksIff(fs, ms, 0, 1);
  }

  // ---- repair ----

  function Backup(live: Path): Path {
    live + ".bak"
  }

  /** Real content in the way is moved aside, over whatever the backup path holds. */
  function Repair1(fs: FileSystem, m: Mapping): FileSystem {
    if m.skipAbsent || !Exists(fs, m.repo) || LinkedTo(fs, m.live, m.repo) then fs
    else if m.live in fs && fs[m.live].Real?
    then fs[Backup(m.live) := fs[m.live]][m.live := Link(m.repo)]
    else fs[m.live := Link(m.repo)]
  }

  function Repaired(fs: FileSystem, ms: seq<Mapping>, n: nat): FileSystem
    requires n <= |ms|
  {
    if n == 0 then fs else Repair1(Repaired(fs, ms, n - 1), ms[n - 1])
  }

  /** Repairing one mapping writes neither the live side of another nor a path its links go by. */
  ghost predicate RepairApart(fs: FileSystem, ms: seq<Mapping>) {
    forall i, k :: 0 <= i < |ms| && 0 <= k < |ms| && i != k ==>
      {ms[k].live, Backup(ms[k].live)} !! Chain(fs, ms[i].repo) + {ms[i].live}
  }

  lemma RepairIsLocal(fs: FileSystem, m: Mapping, paths: set<Path>)
    requires {m.live, Backup(m.live)} !! paths
    ensures SameOn(fs, Repair1(fs, m), paths)
  {
  }

  /** The mapping `i`: linked after its turn if its repository path exists; otherwise its live side and
      the links of its repository path stay as they were. */
  lemma {:induction false} RepairedLive(fs: FileSystem, ms: seq<Mapping>, i: nat, n: nat)
    requires i < |ms| && n <= |ms| && RepairApart(fs, ms)
    ensures if i < n && !ms[i].skipAbsent && Exists(fs, ms[i].repo)
            then LinkedTo(Repaired(fs, ms, n), ms[i].live, ms[i].repo)
            else SameOn(fs, Repaired(fs, ms, n), Chain(fs, ms[i].repo) + {ms[i].live})
  {
    if n > 0 {
      var before, paths := Repaired(fs, ms, n - 1), Chain(fs, ms[i].repo) + {ms[i].live};
      RepairedLive(fs, ms, i, n - 1);
      if i == n - 1 {
        OwnRepair(fs, before, ms[i]);
      } else {
        assert ms[i].live in paths;
        RepairIsLocal(before, ms[n - 1], paths);
      }
    }
  }

  lemma OwnRepair(fs: FileSystem, before: FileSystem, m: Mapping)
    requires SameOn(fs, before, Chain(fs, m.repo) + {m.live})
    ensures if !m.skipAbsent && Exists(fs, m.repo) then LinkedTo(Repair1(before, m), m.live, m.repo)
            else Repair1(before, m) == before
  {
    SameChain(fs, before, m.repo);
  }

  /** After a repair, broken are exactly the mappings without a repository side whose live side is
      something other than the wanted link. */
  lemma CheckAfterRepair(fs: FileSystem, ms: seq<Mapping>, i: nat)
    requires i < |ms| && RepairApart(fs, ms)
    ensures Broken(Check1(Repaired(fs, ms, |ms|), ms[i])) <==>
            !ms[i].skipAbsent && !Exists(fs, ms[i].repo) && ms[i].live in fs && !LinkedTo(fs, ms[i].live, ms[i].repo)
  {
    var now := Repaired(fs, ms, |ms|);
    RepairedLive(fs, ms, i, |ms|);
    if !ms[i].skipAbsent && !Exists(fs, ms[i].repo) {
      SameChain(fs, now, ms[i].repo);
      assert ms[i].live in Chain(fs, ms[i].repo) + {ms[i].live};
    }
  }

  lemma BackupsDiffer(a: Path, b: Path)
    ensures Backup(a) == Backup(b) <==> a == b
    ensures Backup(a) != a
  {
    assert a == Backup(a)[..|a|] && b == Backup(b)[..|b|];
  }

  /** What one repair does: real content in the way is at the backup path, the live path reads what the
      repository path reads, and every other path is as before. */
  lemma RepairMovesAside(fs: FileSystem, m: Mapping)
    requires !m.skipAbsent && Exists(fs, m.repo) && m.live != m.repo
    requires {m.live, Backup(m.live)} !! Chain(fs, m.repo)
    ensures var fs' := Repair1(fs, m);
            && (m.live in fs && fs[m.live].Real? ==> Backup(m.live) in fs' && fs'[Backup(m.live)] == fs[m.live])
            && Read(fs', m.live) == Read(fs, m.repo)
            && (forall p :: p != m.live && p != Backup(m.live) ==> SameAt(fs, fs', p))
  {
    var fs' := Repair1(fs, m);
    BackupsDiffer(m.live, m.live);
    EndOnChain(fs, m.repo, {m.repo});
    SameWhere(fs, fs', m.repo, {m.repo});
    SeenBefore(fs', m.repo, {m.repo}, {m.live});
    assert {m.repo} + {m.live} == {m.live} + {m.repo};
  }

  /** Real content is where it was, or a link stands there and it is aside at the backup path. */
  ghost predicate KeptAside(fs: FileSystem, path: Path, content: string, ms: seq<Mapping>) {
    && path in fs
    && (fs[path] == Real(content)
        || (&& fs[path].Link? && (exists i :: 0 <= i < |ms| && ms[i].live == path)
            && Backup(path) in fs && fs[Backup(path)] == Real(content)))
  }

  lemma RepairStepKeeps(fs: FileSystem, now: FileSystem, ms: seq<Mapping>, k: nat, path: Path, content: string)
    requires k < |ms| && RepairApart(fs, ms) && KeptAside(now, path, content, ms)
    requires path != Backup(ms[k].live)
    ensures KeptAside(Repair1(now, ms[k]), path, content, ms)
  {
    BackupsDiffer(path, ms[k].live);
    if now[path] != Real(content) && path != ms[k].live {
      var i :| 0 <= i < |ms| && ms[i].live == path;
      assert ms[k].live !in {ms[i].live, Backup(ms[i].live)};
    }
  }

  lemma {:induction false} RepairKeeps(fs: FileSystem, ms: seq<Mapping>, n: nat, path: Path)
    requires n <= |ms| && RepairApart(fs, ms) && path in fs && fs[path].Real?
    requires forall k :: 0 <= k < |ms| ==> Backup(ms[k].live) !in fs
    ensures KeptAside(Repaired(fs, ms, n), path, fs[path].content, ms)
  {
    hide Repair1, RepairApart;
    if n > 0 {
      RepairKeeps(fs, ms, n - 1, path);
      RepairStepKeeps(fs, Repaired(fs, ms, n - 1), ms, n - 1, path, fs[path].content);
    }
  }

  /** Where the backup paths are free, a whole repair loses no content: what was real is where it was, or
      was the live path of a mapping and stands at its backup path. */
  lemma RepairKeepsContent(fs: FileSystem, ms: seq<Mapping>, path: Path)
    requires RepairApart(fs, ms) && path in fs && fs[path].Real?
    requires forall k :: 0 <= k < |ms| ==> Backup(ms[k].live) !in fs
    ensures var now := Repaired(fs, ms, |ms|);
            || Read(now, path) == Some(fs[path].content)
            || ((exists i :: 0 <= i < |ms| && ms[i].live == path)
                && Read(now, Backup(path)) == Some(fs[path].content))
  {
    RepairKeeps(fs, ms, |ms|, path);
  }

  // ---- the verbs ----

  /** How many of the first `n` turns end in one of these ways. */
  function Turns(fs: FileSystem, ms: seq<Mapping>, n: nat, outcomes: set<Outcome>): nat
    requires n <= |ms|
  {
    if n == 0 then 0 else Turns(fs, ms, n - 1, outcomes) + if OutcomeOf(fs, ms, n - 1) in outcomes then 1 else 0
  }

  /** How many of the first `n` mappings check judges in one of these ways. */
  function Judged(fs: FileSystem, ms: seq<Mapping>, n: nat, verdicts: set<Verdict>): nat
    requires n <= |ms|
  {
    if n == 0 then 0 else Judged(fs, ms, n - 1, verdicts) + if Check1(fs, ms[n - 1]) in verdicts then 1 else 0
  }

  /** How many of the first `n` repairs change the file system. */
  function Changes(fs: FileSystem, ms: seq<Mapping>, n: nat): nat
    requires n <= |ms|
  {
    if n == 0 then 0
    else Changes(fs, ms, n - 1) + if Repaired(fs, ms, n) != Repaired(fs, ms, n - 1) then 1 else 0
  }

  const BROKEN := {Missing, NotALink, WrongTarget}

  lemma InBroken(v: Verdict)
    ensures v in BROKEN <==> Broken(v)
  {
  }

  lemma ApartEach(fs: FileSystem, ms: seq<Mapping>, i: nat)
    requires i < |ms| && Apart(fs, ms)
    ensures ApartAt(fs, ms, i)
  {
  }

  /** The counts agree as well, over the mappings that had their turn. */
  lemma {:induction false} BrokenEqualsWarned(fs: FileSystem, ms: seq<Mapping>, n: nat)
    requires n <= Completed(fs, ms, |ms|) && Separate(ms) && Apart(fs, ms)
    ensures Judged(AfterBootstrap(fs, ms), ms, n, BROKEN) == Turns(fs, ms, n, {Warn})
  {
    hide Bootstrap1, Check1, AfterBootstrap, Separate, Broken, Apart, ApartBefore, ApartAt;
    if n > 0 {
      BrokenEqualsWarned(fs, ms, n - 1);
      assert ApartAt(fs, ms, n - 1) by { ApartEach(fs, ms, n - 1); }
      InBroken(Check1(AfterBootstrap(fs, ms), ms[n - 1]));
      ApartImpliesBefore(fs, ms);
      CheckAgreesWithBootstrap(fs, ms, n - 1);
    }
  }

  lemma RunStarts(fs: FileSystem, ms: seq<Mapping>)
    ensures Bootstrapped(fs, ms, 0) == fs && Completed(fs, ms, 0) == 0
    ensures forall outcomes: set<Outcome> :: Turns(fs, ms, 0, outcomes) == 0
  {
  }

  lemma OneMoreTurn(fs: FileSystem, ms: seq<Mapping>, i: nat)
    requires i < |ms| && Completed(fs, ms, i) == i
    ensures var (fs', outcome) := Bootstrap1(Bootstrapped(fs, ms, i), ms[i]);
            && OutcomeOf(fs, ms, i) == outcome && Bootstrapped(fs, ms, i + 1) == fs'
            && Completed(fs, ms, i + 1) == (if outcome.Fails? then i else i + 1)
            && forall outcomes: set<Outcome> ::
                 Turns(fs, ms, i + 1, outcomes) == Turns(fs, ms, i, outcomes) + if outcome in outcomes then 1 else 0
  {
  }

  /** A turn that fails leaves the file system as it was, and is the last. */
  lemma FailedTurn(fs: FileSystem, ms: seq<Mapping>, i: nat)
    requires i < |ms| && Completed(fs, ms, i) == i && OutcomeOf(fs, ms, i).Fails?
    ensures Bootstrapped(fs, ms, i + 1) == Bootstrapped(fs, ms, i) && Completed(fs, ms, |ms|) == i
  {
    CompletedFrom(fs, ms, i, |ms|);
  }

  lemma RepairStarts(fs: FileSystem, ms: seq<Mapping>)
    ensures Repaired(fs, ms, 0) == fs && Changes(fs, ms, 0) == 0
  {
  }

  lemma SeparateSides(ms: seq<Mapping>, i: nat)
    requires i < |ms| && Separate(ms)
    ensures ms[i].live != ms[i].repo
  {
  }

  lemma OneMoreRepair(fs: FileSystem, ms: seq<Mapping>, i: nat)
    requires i < |ms| && ms[i].live != ms[i].repo
    ensures var (m, now) := (ms[i], Repaired(fs, ms, i));
            var idle := m.skipAbsent || !Exists(now, m.repo) || LinkedTo(now, m.live, m.repo);
            && Changes(fs, ms, i + 1) == (if idle then Changes(fs, ms, i) else Changes(fs, ms, i) + 1)
            && Repaired(fs, ms, i + 1) ==
               if idle then now
               else if m.live in now && now[m.live].Real?
               then now[Backup(m.live) := now[m.live]][m.live := Link(m.repo)] else now[m.live := Link(m.repo)]
  {
    var (m, now) := (ms[i], Repaired(fs, ms, i));
    if !(m.skipAbsent || !Exists(now, m.repo) || LinkedTo(now, m.live, m.repo)) {
      assert Repair1(now, m)[m.live] == Link(m.repo);
    }
  }

  class Host {
    var fs: FileSystem

    constructor (fs: FileSystem)
      ensures this.fs == fs
    {
      this.fs := fs;
    }

    method Link(live: Path, repo: Path)
      modifies this
      ensures fs == old(fs)[live := Entry.Link(repo)]
    {
      fs := fs[live := Entry.Link(repo)];
    }

    method Remove(path: Path)
      modifies this
      ensures fs == old(fs) - {path}
    {
      fs := fs - {path};
    }

    /** `shutil.copytree` or `shutil.copy2`; `ok` is false when it raises. */
    method Copy(m: Mapping) returns (ok: bool)
      requires Exists(fs, m.live) && !Exists(fs, m.repo)
      modifies this
      ensures ok == !CannotCopy(old(fs), m)
      ensures fs == if ok then old(fs)[End(old(fs), m.repo).value := Real(Read(old(fs), m.live).value)] else old(fs)
    {
      ok := !CannotCopy(fs, m);
      if ok {
        fs := fs[End(fs, m.repo).value := Real(Read(fs, m.live).value)];
      }
    }

    /** One turn of the bootstrap loop. */
    method BootstrapOne(m: Mapping) returns (outcome: Outcome)
      requires m.live != m.repo
      modifies this
      ensures (fs, outcome) == Bootstrap1(old(fs), m)
    {
      ghost var was := fs;
      if m.skipAbsent { return SkipAbsent; }
      if LinkedTo(fs, m.live, m.repo) { return SkipLinked; }
      if m.live in fs && fs[m.live].Link? {
        if Exists(fs, m.repo) {
          Remove(m.live);
          Link(m.live, m.repo);
          assert fs == was[m.live := Entry.Link(m.repo)];
          return Relink;
        }
        if Exists(fs, m.live) {
          var ok := Copy(m);
          if !ok { return Fails; }
          ghost var copied := fs;
          Remove(m.live);
          Link(m.live, m.repo);
          assert fs == copied[m.live := Entry.Link(m.repo)];
          return CopyLink;
        }
        Remove(m.live);
        return DanglingRemoved;
      }
      if m.live in fs {
        if Exists(fs, m.repo) { return Warn; }
        if m.isDir && m.repo in fs { return Fails; }
        fs := fs[m.repo := fs[m.live]] - {m.live};
        Link(m.live, m.repo);
        assert fs == was[m.repo := was[m.live]][m.live := Entry.Link(m.repo)];
        return Move;
      }
      if Exists(fs, m.repo) {
        Link(m.live, m.repo);
        return Recover;
      }
      return Nothing;
    }

    /** `cmd_bootstrap`; `ok` is false when a copy or move raises, which ends the run. */
    method Bootstrap(ms: seq<Mapping>)
      returns (ok: bool, moved: nat, linked: nat, skipped: nat, warned: nat)
      requires Separate(ms)
      modifies this
      ensures fs == AfterBootstrap(old(fs), ms)
      ensures var n := Completed(old(fs), ms, |ms|);
              && ok == (n == |ms|)
              && moved == Turns(old(fs), ms, n, {Move}) && warned == Turns(old(fs), ms, n, {Warn})
              && linked == Turns(old(fs), ms, n, {Relink, CopyLink, Recover})
              && moved + linked + skipped + warned == n
    {
      hide Bootstrap1, Bootstrapped, Completed, Turns, OutcomeOf;
      RunStarts(fs, ms);
      ok, moved, linked, skipped, warned := true, 0, 0, 0, 0;
      for i := 0 to |ms|
        invariant fs == Bootstrapped(old(fs), ms, i) && Completed(old(fs), ms, i) == i
        invariant moved == Turns(old(fs), ms, i, {Move}) && warned == Turns(old(fs), ms, i, {Warn})
        invariant linked == Turns(old(fs), ms, i, {Relink, CopyLink, Recover})
        invariant moved + linked + skipped + warned == i
      {
        assert ms[i].live != ms[i].repo;
        OneMoreTurn(old(fs), ms, i);
        var outcome := BootstrapOne(ms[i]);
        match outcome
        case Move => moved := moved + 1;
        case Relink | CopyLink | Recover => linked := linked + 1;
        case Warn => warned := warned + 1;
        case Fails =>
          FailedTurn(old(fs), ms, i);
          ok := false;
          return;
        case _ => skipped := skipped + 1;
      }
    }

    /** `cmd_check`: exit code 0 exactly when nothing is broken. */
    method Check(ms: seq<Mapping>) returns (ok: nat, broken: nat, absent: nat, exitCode: int)
      ensures broken == Judged(fs, ms, |ms|, BROKEN) && ok == Judged(fs, ms, |ms|, {Linked})
      ensures ok + broken + absent == |ms|
      ensures exitCode == 0 <==> forall i :: 0 <= i < |ms| ==> !Broken(Check1(fs, ms[i]))
    {
      ok, broken, absent := 0, 0, 0;
      for i := 0 to |ms|
        invariant broken == Judged(fs, ms, i, BROKEN) && ok == Judged(fs, ms, i, {Linked})
        invariant ok + broken + absent == i
        invariant broken == 0 <==> forall j :: 0 <= j < i ==> !Broken(Check1(fs, ms[j]))
      {
        var m := ms[i];
        if m.skipAbsent {
          absent := absent + 1;
          continue;
        }
        if m.live !in fs {
          if Exists(fs, m.repo) { broken := broken + 1; } else { absent := absent + 1; }
          continue;
        }
        if !fs[m.live].Link? {
          broken := broken + 1;
          continue;
        }
        if fs[m.live].target == m.repo { ok := ok + 1; } else { broken := broken + 1; }
      }
      exitCode := if broken == 0 then 0 else 1;
    }

    /** `cmd_repair` */
    method Repair(ms: seq<Mapping>) returns (repaired: nat, skipped: nat)
      requires Separate(ms)
      modifies this
      ensures fs == Repaired(old(fs), ms, |ms|)
      ensures repaired == Changes(old(fs), ms, |ms|) && repaired + skipped == |ms|
    {
      hide Repaired, Changes, Exists, Separate;
      RepairStarts(fs, ms);
      repaired, skipped := 0, 0;
      for i := 0 to |ms|
        invariant fs == Repaired(old(fs), ms, i)
        invariant repaired == Changes(old(fs), ms, i) && repaired + skipped == i
      {
        var m := ms[i];
        SeparateSides(ms, i);
        OneMoreRepair(old(fs), ms, i);
        if m.skipAbsent || !Exists(fs, m.repo) || LinkedTo(fs, m.live, m.repo) {
          skipped := skipped + 1;
          continue;
        }
        if m.live in fs && fs[m.live].Link? {
          Remove(m.live);
        } else if m.live in fs {
          fs := fs[Backup(m.live) := fs[m.live]] - {m.live};
        }
        Link(m.live, m.repo);
        repaired := repaired + 1;
      }
    }
  }
}
