/**
 The cross-file reconciliation of `harness-gate.py`: how many gate constructs a change really
 removes from each file, once reformatting inside a file and verbatim moves between files have been
 netted out.
 */
module GateReconciliation {
  import opened Prelude

  type Texts = multiset<string>

  /** What one file loses and gains: the texts of the constructs, with repetitions.  The code keeps
      lists, but only counts them and their elements. */
  datatype Change = Change(file: string, removed: Texts, added: Texts)

  function Net(c: Change): int {
    |c.removed| - |c.added|
  }

  /** Removed texts that the file itself does not add again. */
  function Residual(c: Change): Texts {
    c.removed - c.added
  }

  /** Added texts that exceed the file's own removals. */
  function Surplus(c: Change): Texts {
    c.added - c.removed
  }

  /** The removals a file wants to see explained; without a net removal there are none. */
  function Wanted(c: Change): Texts {
    if Net(c) <= 0 then multiset{} else Residual(c)
  }

  function Sum(ms: seq<Texts>, n: nat): Texts
    requires n <= |ms|
  {
    if n == 0 then multiset{} else Sum(ms, n - 1) + ms[n - 1]
  }

  function Wants(cs: seq<Change>): seq<Texts> {
    seq(|cs|, i requires 0 <= i < |cs| => Wanted(cs[i]))
  }

  function Surpluses(cs: seq<Change>): seq<Texts> {
    seq(|cs|, i requires 0 <= i < |cs| => Surplus(cs[i]))
  }

  /** The adds of the whole change that may absorb a removal elsewhere. */
  function Pool(cs: seq<Change>): Texts {
    Sum(Surpluses(cs), |cs|)
  }

  /** What is left of the pool after the first `n` have claimed what they want. */
  function Left(wants: seq<Texts>, pool: Texts, n: nat): Texts
    requires n <= |wants|
  {
    if n == 0 then pool
    else Left(wants, pool, n - 1) - wants[n - 1] * Left(wants, pool, n - 1)
  }

  /** What claimant `i` gets. */
  function Credit(wants: seq<Texts>, pool: Texts, i: nat): Texts
    requires i < |wants|
  {
    wants[i] * Left(wants, pool, i)
  }

  function CreditAt(cs: seq<Change>, i: nat): Texts
    requires i < |cs|
  {
    Credit(Wants(cs), Pool(cs), i)
  }

  /** The removals of file `i` that nothing explains. */
  function Genuine(cs: seq<Change>, i: nat): int
    requires i < |cs|
  {
    Net(cs[i]) - |CreditAt(cs, i)|
  }

  function Genuines(cs: seq<Change>): seq<int> {
    seq(|cs|, i requires 0 <= i < |cs| => Genuine(cs, i))
  }

  function Files(cs: seq<Change>): seq<string> {
    seq(|cs|, i requires 0 <= i < |cs| => cs[i].file)
  }

  /** `result` maps exactly those of the first `n` files whose number is positive, to that number. */
  ghost predicate Lists(files: seq<string>, numbers: seq<int>, n: nat, result: map<string, int>)
    requires n <= |files| == |numbers|
  {
    && (forall i :: 0 <= i < n ==>
          (files[i] in result <==> numbers[i] > 0) && (numbers[i] > 0 ==> result[files[i]] == numbers[i]))
    && (forall f :: f in result ==> f in files[..n])
  }

  /** The report on a change: every file with a genuine removal, and how much it lost. */
  ghost predicate Reports(cs: seq<Change>, result: map<string, int>) {
    Lists(Files(cs), Genuines(cs), |cs|, result)
  }

  // ---- sharing a pool ----

  lemma ClaimTwice(a: Texts, b: Texts, pool: Texts)
    ensures (pool - a * pool) - b * (pool - a * pool) == pool - (a + b) * pool
    ensures a * pool + b * (pool - a * pool) == (a + b) * pool
  {
  }

  /** The first `n` claimants together take each text as often as it is both wanted and available:
      never more than was added, and no move is missed. */
  lemma {:induction false} ClaimsAreExact(wants: seq<Texts>, pool: Texts, n: nat)
    requires n <= |wants|
    ensures Left(wants, pool, n) == pool - Sum(wants, n) * pool
  {
    if n > 0 {
      ClaimsAreExact(wants, pool, n - 1);
      ClaimTwice(Sum(wants, n - 1), wants[n - 1], pool);
    }
  }

  lemma {:induction false} SumGrows(ms: seq<Texts>, i: nat, n: nat)
    requires i <= n <= |ms|
    ensures Sum(ms, i) <= Sum(ms, n)
  {
    if i < n {
      SumGrows(ms, i, n - 1);
    }
  }

  lemma CoveredInFull(a: Texts, b: Texts, pool: Texts)
    requires a + b <= pool
    ensures b * (pool - a * pool) == b
  {
    assert a * pool == a;
  }

  /** A pool that covers everything wanted gives every claimant what it wants. */
  lemma CoveredClaims(wants: seq<Texts>, pool: Texts, i: nat)
    requires i < |wants| && Sum(wants, |wants|) <= pool
    ensures Credit(wants, pool, i) == wants[i]
  {
    ClaimsAreExact(wants, pool, i);
    SumGrows(wants, i + 1, |wants|);
    CoveredInFull(Sum(wants, i), wants[i], pool);
  }

  lemma {:induction false} SumsBalance(a: seq<Texts>, b: seq<Texts>, c: seq<Texts>, d: seq<Texts>, n: nat, text: string)
    requires n <= |a| == |b| == |c| == |d|
    requires forall i :: 0 <= i < n ==> a[i][text] + b[i][text] <= c[i][text] + d[i][text]
    ensures Sum(a, n)[text] + Sum(b, n)[text] <= Sum(c, n)[text] + Sum(d, n)[text]
  {
    if n > 0 {
      SumsBalance(a, b, c, d, n - 1, text);
    }
  }

  // ---- what the result means ----

  lemma ReportedFile(cs: seq<Change>, result: map<string, int>, i: nat)
    requires i < |cs| && Reports(cs, result)
    ensures cs[i].file in result <==> Genuine(cs, i) > 0
    ensures cs[i].file in result ==> result[cs[i].file] == Genuine(cs, i)
  {
    assert Files(cs)[i] == cs[i].file && Genuines(cs)[i] == Genuine(cs, i);
  }

  function Removals(cs: seq<Change>): seq<Texts> {
    seq(|cs|, i requires 0 <= i < |cs| => cs[i].removed)
  }

  function Additions(cs: seq<Change>): seq<Texts> {
    seq(|cs|, i requires 0 <= i < |cs| => cs[i].added)
  }

  lemma OneFileBalance(c: Change, text: string)
    ensures Wanted(c)[text] + c.added[text] <= Surplus(c)[text] + c.removed[text]
    ensures Net(c) <= |Wanted(c)|
  {
  }

  /** A change that adds every construct text, somewhere, at least as often as it removes it removes
      no gate construct. */
  lemma BalancedChangeIsClean(cs: seq<Change>, result: map<string, int>)
    requires Reports(cs, result)
    requires Sum(Removals(cs), |cs|) <= Sum(Additions(cs), |cs|)
    ensures result == map[]
  {
    var wants, surpluses, removals, additions := Wants(cs), Surpluses(cs), Removals(cs), Additions(cs);
    forall text ensures Sum(wants, |cs|)[text] <= Sum(surpluses, |cs|)[text] {
      forall i | 0 <= i < |cs|
        ensures wants[i][text] + additions[i][text] <= surpluses[i][text] + removals[i][text]
      {
        OneFileBalance(cs[i], text);
      }
      SumsBalance(wants, additions, surpluses, removals, |cs|, text);
    }
    forall i | 0 <= i < |cs| ensures cs[i].file !in result {
      CoveredClaims(wants, Pool(cs), i);
      OneFileBalance(cs[i], "");
      ReportedFile(cs, result, i);
    }
    assert forall f :: f in Files(cs) ==> f !in result;
  }

  /** Within one file only counts matter: reformatting is no removal, and nothing is credited. */
  lemma OneFileIsCounted(c: Change, result: map<string, int>)
    requires Reports([c], result)
    ensures result == if |c.removed| > |c.added| then map[c.file := |c.removed| - |c.added|] else map[]
  {
    var surpluses := Surpluses([c]);
    assert Sum(surpluses, 1) == Sum(surpluses, 0) + surpluses[0] == Surplus(c);
    assert Wanted(c) * Surplus(c) == multiset{};
    ReportedFile([c], result, 0);
    assert Files([c]) == [c.file];
  }

  lemma DisjointClaim(a: Texts, wanted: Texts, pool: Texts)
    requires wanted !! pool
    ensures wanted * (pool - a) == multiset{}
  {
  }

  lemma {:induction false} NowhereInSum(ms: seq<Texts>, n: nat, text: string)
    requires n <= |ms| && forall j :: 0 <= j < n ==> ms[j][text] == 0
    ensures Sum(ms, n)[text] == 0
  {
    if n > 0 {
      NowhereInSum(ms, n - 1, text);
    }
  }

  /** A file keeps its full net removal if no text that it removes more often than it adds is added more often
      than removed by any file. */
  lemma UnmatchedFileKeepsNet(cs: seq<Change>, i: nat, result: map<string, int>)
    requires i < |cs| && Reports(cs, result) && |cs[i].removed| > |cs[i].added|
    requires forall text, j :: 0 <= j < |cs| && cs[i].removed[text] > cs[i].added[text] ==>
               cs[j].added[text] <= cs[j].removed[text]
    ensures cs[i].file in result && result[cs[i].file] == |cs[i].removed| - |cs[i].added|
  {
    forall text | text in Residual(cs[i]) ensures text !in Pool(cs) {
      forall j | 0 <= j < |cs| ensures Surpluses(cs)[j][text] == 0 {
        assert cs[i].removed[text] > cs[i].added[text];
      }
      NowhereInSum(Surpluses(cs), |cs|, text);
    }
    ClaimsAreExact(Wants(cs), Pool(cs), i);
    DisjointClaim(Sum(Wants(cs), i) * Pool(cs), Residual(cs[i]), Pool(cs));
    ReportedFile(cs, result, i);
  }

  /** A file that adds at least as many constructs as it removes is not reported, and takes nothing from the
      pool. */
  lemma NoNetTakesNothing(cs: seq<Change>, i: nat, result: map<string, int>)
    requires i < |cs| && Reports(cs, result) && |cs[i].removed| <= |cs[i].added|
    ensures cs[i].file !in result
    ensures Left(Wants(cs), Pool(cs), i + 1) == Left(Wants(cs), Pool(cs), i)
  {
    assert Wants(cs)[i] == multiset{};
    ReportedFile(cs, result, i);
  }

  lemma SizeOfClaim(a: Texts, wanted: Texts, pool: Texts)
    ensures |wanted * (pool - a)| <= |wanted * pool|
  {
    var part, all := wanted * (pool - a), wanted * pool;
    assert all == part + (all - part);
  }

  /** A file with a net removal is let off only if at least that many of its residual texts are
      added elsewhere. */
  lemma UnreportedRemovalsMoved(cs: seq<Change>, i: nat, result: map<string, int>)
    requires i < |cs| && Reports(cs, result) && cs[i].file !in result
    ensures |cs[i].removed| - |cs[i].added| <= |(cs[i].removed - cs[i].added) * Pool(cs)|
  {
    ClaimsAreExact(Wants(cs), Pool(cs), i);
    SizeOfClaim(Sum(Wants(cs), i) * Pool(cs), Wanted(cs[i]), Pool(cs));
    ReportedFile(cs, result, i);
  }

  /** Which file is reported depends on the order of the files: one re-added copy clears the first
      of two files that removed it. */
  lemma OrderDecidesWhoIsReported(cs: seq<Change>, text: string, result: map<string, int>)
    requires |cs| == 3 && Reports(cs, result)
    requires cs[0].removed == cs[1].removed == cs[2].added == multiset{text}
    requires cs[0].added == cs[1].added == cs[2].removed == multiset{}
    ensures cs[0].file !in result && cs[1].file in result && cs[2].file !in result
  {
    var wants := Wants(cs);
    assert wants[0] == multiset{text} && wants[1] == multiset{text} && wants[2] == multiset{};
    var extra := Surpluses(cs);
    assert extra[0] == multiset{} && extra[1] == multiset{} && extra[2] == multiset{text};
    assert Sum(extra, 2) == Sum(extra, 1) == multiset{};
    assert Pool(cs) == multiset{text};
    assert Credit(wants, multiset{text}, 0) == multiset{text};
    assert Left(wants, multiset{text}, 1) == multiset{};
    ReportedFile(cs, result, 0);
    ReportedFile(cs, result, 1);
    ReportedFile(cs, result, 2);
  }

  // ---- the loops ----

  /** Claim the residual texts one by one, consuming the pool. */
  method Claim(residual: Texts, pool: Texts) returns (moved: nat, left: Texts)
    ensures moved == |residual * pool| && left == pool - residual * pool
  {
    moved, left := 0, pool;
    var todo := residual;
    ghost var claimed: Texts := multiset{};
    while todo != multiset{}
      invariant forall t :: todo[t] == residual[t] || todo[t] == 0
      invariant forall t :: claimed[t] == if todo[t] == residual[t] then 0 else (residual * pool)[t]
      invariant left == pool - claimed && moved == |claimed|
      decreases |todo|
    {
      var text :| text in todo;
      var take := if todo[text] <= left[text] then todo[text] else left[text];
      ghost var before := claimed;
      claimed := claimed[text := take];
      assert claimed == before + multiset{}[text := take];
      left := left[text := left[text] - take];
      moved := moved + take;
      todo := todo[text := 0];
    }
    assert claimed == residual * pool;
  }

  lemma ListNone(files: seq<string>, numbers: seq<int>)
    requires |files| == |numbers|
    ensures Lists(files, numbers, 0, map[])
  {
  }

  /** Recording one more number leaves the earlier ones alone. */
  lemma ListNext(files: seq<string>, numbers: seq<int>, n: nat, result: map<string, int>)
    requires n < |files| == |numbers| && Distinct(files) && Lists(files, numbers, n, result)
    ensures Lists(files, numbers, n + 1, if numbers[n] > 0 then result[files[n] := numbers[n]] else result)
  {
  }

  /** The loop body: one file claims its share and is listed if a genuine removal is left. */
  method ReportFile(c: Change, pool: Texts, reported: map<string, int>)
    returns (left: Texts, result: map<string, int>)
    ensures left == pool - Wanted(c) * pool
    ensures var genuine := Net(c) - |Wanted(c) * pool|;
            result == if genuine > 0 then reported[c.file := genuine] else reported
  {
    left, result := pool, reported;
    var net := Net(c);
    if net <= 0 {
      return;
    }
    var moved;
    moved, left := Claim(Residual(c), pool);
    if net - moved > 0 {
      result := result[c.file := net - moved];
    }
  }

  lemma GenuineAt(cs: seq<Change>, i: nat)
    requires i < |cs|
    ensures var left := Left(Wants(cs), Pool(cs), i);
            && Genuine(cs, i) == Net(cs[i]) - |Wanted(cs[i]) * left|
            && Left(Wants(cs), Pool(cs), i + 1) == left - Wanted(cs[i]) * left
  {
    assert Wants(cs)[i] == Wanted(cs[i]);
  }

  ghost function Lefts(cs: seq<Change>): seq<Texts> {
    seq(|cs| + 1, i requires 0 <= i <= |cs| => Left(Wants(cs), Pool(cs), i))
  }

  lemma ShareAt(cs: seq<Change>, i: nat)
    requires i < |cs|
    ensures Lefts(cs)[i + 1] == Lefts(cs)[i] - Wanted(cs[i]) * Lefts(cs)[i]
    ensures Genuines(cs)[i] == Net(cs[i]) - |Wanted(cs[i]) * Lefts(cs)[i]|
  {
    GenuineAt(cs, i);
    assert Lefts(cs)[i] == Left(Wants(cs), Pool(cs), i);
    assert Lefts(cs)[i + 1] == Left(Wants(cs), Pool(cs), i + 1);
    assert Genuines(cs)[i] == Genuine(cs, i);
  }

  /** What is left of the pool before each file, and after the last. */
  lemma Shares(cs: seq<Change>) returns (lefts: seq<Texts>)
    ensures |lefts| == |cs| + 1 && lefts[0] == Pool(cs)
    ensures forall i :: 0 <= i < |cs| ==>
              lefts[i + 1] == lefts[i] - Wanted(cs[i]) * lefts[i]
              && Genuines(cs)[i] == Net(cs[i]) - |Wanted(cs[i]) * lefts[i]|
  {
    lefts := Lefts(cs);
    forall i | 0 <= i < |cs|
      ensures lefts[i + 1] == lefts[i] - Wanted(cs[i]) * lefts[i]
      ensures Genuines(cs)[i] == Net(cs[i]) - |Wanted(cs[i]) * lefts[i]|
    {
      ShareAt(cs, i);
    }
  }

  method GatherPool(cs: seq<Change>) returns (pool: Texts)
    ensures pool == Pool(cs)
  {
    pool := multiset{};
    ghost var surpluses := Surpluses(cs);
    for i := 0 to |cs|
      invariant pool == Sum(surpluses, i)
    {
      pool := pool + Surplus(cs[i]);
    }
  }

  /** `_cross_file_reconciled_net` */
  method CrossFileReconciledNet(cs: seq<Change>) returns (result: map<string, int>)
    requires Distinct(Files(cs))
    ensures Reports(cs, result)
  {
    hide Lists, Genuine, Net, Wanted;
    var pool := GatherPool(cs);
    result := map[];
    ghost var lefts := Shares(cs);
    ghost var files, numbers := Files(cs), Genuines(cs);
    ListNone(files, numbers);
    for i := 0 to |cs|
      invariant pool == lefts[i]
      invariant Lists(files, numbers, i, result)
    {
      ListNext(files, numbers, i, result);
      pool, result := ReportFile(cs[i], pool, result);
    }
  }
}
