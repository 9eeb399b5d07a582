/**
 Schema migrations: planning them from the embedded files and the versions already applied,
 running them in one transaction, and rolling the latest back. File names are taken as
 already classified and parsed, and a script is known by its version; what it does is
 abstract, except that a down script may drop the table of applied versions itself, as the
 shipped one for version 1 does.
 */
module Migrations {
  import opened Base

  /** Versions are int64, as strconv.ParseInt yields them. */
  type Version = v: int | -0x8000_0000_0000_0000 <= v < 0x8000_0000_0000_0000

  datatype Kind = UpScript | DownScript | OtherFile

  /** A directory entry; `version` is None when the name has no valid numeric prefix. */
  datatype File = File(isDir: bool, kind: Kind, version: Option<Version>, dropsLedger: bool)

  /** schema_migrations: the applied versions, or None while the table does not exist. */
  type Ledger = Option<set<Version>>

  predicate IsScript(f: File, kind: Kind) {
    !f.isDir && f.kind == kind
  }

  predicate Parses(files: seq<File>, kind: Kind) {
    forall i :: 0 <= i < |files| && IsScript(files[i], kind) ==> files[i].version.Some?
  }

  /** The versions of the scripts of one kind, in directory order. */
  function Scripts(files: seq<File>, kind: Kind): seq<Version> {
    if files == [] then []
    else
      var f := files[|files| - 1];
      Scripts(files[..|files| - 1], kind) + if IsScript(f, kind) && f.version.Some? then [f.version.value] else []
  }

  function Members(s: seq<Version>): set<Version> {
    set v | v in s
  }

  /** The versions embedded with the binary. */
  function Embedded(files: seq<File>): set<Version> {
    Members(Scripts(files, UpScript))
  }

  /** File `i` is the script of version `v`. */
  predicate IsScriptOf(files: seq<File>, i: nat, kind: Kind, v: Version) {
    i < |files| && !files[i].isDir && files[i].kind == kind && files[i].version == Some(v)
  }

  /** The listed versions are those of the scripts; directories and other files have none. */
  lemma {:induction false} ScriptsIff(files: seq<File>, kind: Kind, v: Version)
    ensures v in Scripts(files, kind) <==> exists i: nat :: IsScriptOf(files, i, kind, v)
  {
    if files != [] {
      var n := |files| - 1;
      ScriptsIff(files[..n], kind, v);
      assert forall i: nat :: i < n ==> (IsScriptOf(files[..n], i, kind, v) <==> IsScriptOf(files, i, kind, v));
      if i: nat :| IsScriptOf(files, i, kind, v) {
        assert i < n ==> IsScriptOf(files[..n], i, kind, v);
      }
      if IsScriptOf(files, n, kind, v) {
        assert Scripts(files, kind)[|Scripts(files, kind)| - 1] == v;
      }
    }
  }

  // ---------------------------------------------------------------------------
  // Counting, collecting and sorting

  function Copies(s: seq<Version>, v: Version): nat {
    multiset(s)[v]
  }

  method Collect(files: seq<File>, kind: Kind) returns (r: Option<seq<Version>>)
    ensures r.Some? <==> Parses(files, kind)
    ensures r.Some? ==> r.value == Scripts(files, kind)
  {
    var all: seq<Version> := [];
    var n := 0;
    while n < |files|
      invariant n <= |files| && Parses(files[..n], kind) && all == Scripts(files[..n], kind)
    {
      var f := files[n];
      assert files[..n + 1][..n] == files[..n] && files[..n + 1][n] == f;
      if IsScript(f, kind) {
        if f.version == None {
          return None;
        }
        all := all + [f.version.value];
      }
      n := n + 1;
    }
    assert files[..n] == files;
    return Some(all);
  }

  ghost predicate Ascends(s: seq<Version>) {
    forall i, j :: 0 <= i < j < |s| ==> s[i] <= s[j]
  }

  /** `sort.Slice` by version. */
  method SortVersions(s: seq<Version>) returns (r: seq<Version>)
    ensures Ascends(r) && multiset(r) == multiset(s)
  {
    r := [];
    var n := 0;
    while n < |s|
      invariant n <= |s| && Ascends(r) && multiset(r) == multiset(s[..n])
    {
      r := Insert(r, s[n]);
      assert s[..n + 1] == s[..n] + [s[n]];
      n := n + 1;
    }
    assert s[..n] == s;
  }

  method Insert(r: seq<Version>, x: Version) returns (q: seq<Version>)
    requires Ascends(r)
    ensures Ascends(q) && multiset(q) == multiset(r) + multiset{x}
  {
    var p := 0;
    while p < |r| && r[p] <= x
      invariant p <= |r| && (p > 0 ==> r[p - 1] <= x)
    {
      p := p + 1;
    }
    InsertAscends(r, p, x);
    q := r[..p] + [x] + r[p..];
    assert r == r[..p] + r[p..];
  }

  lemma InsertAscends(r: seq<Version>, p: nat, x: Version)
    requires Ascends(r) && p <= |r| && (p > 0 ==> r[p - 1] <= x) && (p < |r| ==> x <= r[p])
    ensures Ascends(r[..p] + [x] + r[p..])
  {
    var q := r[..p] + [x] + r[p..];
    forall i, j | 0 <= i < j < |q| ensures q[i] <= q[j] {
      var a := if i < p then i else i - 1;
      var b := if j < p then j else j - 1;
      assert i != p ==> q[i] == r[a];
      assert j != p ==> q[j] == r[b];
    }
  }

  // ---------------------------------------------------------------------------
  // Planning

  function Unapplied(s: seq<Version>, applied: set<Version>): seq<Version> {
    if s == [] then []
    else Unapplied(s[..|s| - 1], applied) + if s[|s| - 1] in applied then [] else [s[|s| - 1]]
  }

  lemma CopiesAppend(s: seq<Version>, x: Version, v: Version)
    ensures Copies(s + [x], v) == Copies(s, v) + if x == v then 1 else 0
  {
  }

  lemma CopiesLast(s: seq<Version>, v: Version)
    requires s != []
    ensures Copies(s, v) == Copies(s[..|s| - 1], v) + if s[|s| - 1] == v then 1 else 0
  {
    assert s == s[..|s| - 1] + [s[|s| - 1]];
    CopiesAppend(s[..|s| - 1], s[|s| - 1], v);
  }

  lemma UnappliedLast(s: seq<Version>, applied: set<Version>, v: Version)
    requires s != []
    ensures Copies(Unapplied(s, applied), v) == Copies(Unapplied(s[..|s| - 1], applied), v)
                                                + if s[|s| - 1] !in applied && s[|s| - 1] == v then 1 else 0
  {
    var p := Unapplied(s[..|s| - 1], applied);
    if s[|s| - 1] in applied {
      assert Unapplied(s, applied) == p;
    } else {
      assert Unapplied(s, applied) == p + [s[|s| - 1]];
      CopiesAppend(p, s[|s| - 1], v);
    }
  }

  lemma {:induction false} UnappliedCopies(s: seq<Version>, applied: set<Version>, v: Version)
    ensures Copies(Unapplied(s, applied), v) == if v in applied then 0 else Copies(s, v)
  {
    if s != [] {
      UnappliedCopies(s[..|s| - 1], applied, v);
      UnappliedLast(s, applied, v);
      CopiesLast(s, v);
    }
  }

  lemma {:induction false} UnappliedAscends(s: seq<Version>, applied: set<Version>)
    requires Ascends(s)
    ensures Ascends(Unapplied(s, applied))
    ensures forall x :: x in Unapplied(s, applied) ==> x in s
  {
    if s != [] {
      var n := |s| - 1;
      UnappliedAscends(s[..n], applied);
      var p := Unapplied(s[..n], applied);
      forall i | 0 <= i < |p| ensures p[i] <= s[n] {
        assert p[i] in s[..n];
      }
    }
  }

  lemma PendingVersions(all: seq<Version>, sorted: seq<Version>, applied: set<Version>)
    requires multiset(sorted) == multiset(all)
    ensures forall v :: Copies(Unapplied(sorted, applied), v) == if v in applied then 0 else Copies(all, v)
    ensures Members(Unapplied(sorted, applied)) == Members(all) - applied
  {
    var pending := Unapplied(sorted, applied);
    forall v
      ensures Copies(pending, v) == if v in applied then 0 else Copies(all, v)
      ensures v in Members(pending) <==> v in Members(all) - applied
    {
      UnappliedCopies(sorted, applied, v);
      InCopies(pending, v);
      InCopies(all, v);
    }
  }

  lemma InCopies(s: seq<Version>, v: Version)
    ensures v in s <==> Copies(s, v) > 0
  {
    assert v in s <==> v in multiset(s);
  }

  /** `pendingMigrations`: the versions not yet applied, ascending. */
  method PendingMigrations(files: seq<File>, applied: set<Version>) returns (r: Option<seq<Version>>)
    ensures r.Some? <==> Parses(files, UpScript)
    ensures r.Some? ==> Ascends(r.value) && Members(r.value) == Embedded(files) - applied
    ensures r.Some? ==> forall v ::
                          Copies(r.value, v) == if v in applied then 0 else Copies(Scripts(files, UpScript), v)
  {
    var all := Collect(files, UpScript);
    if all == None {
      return None;
    }
    var sorted := SortVersions(all.value);
    var pending: seq<Version> := [];
    var n := 0;
    while n < |sorted|
      invariant n <= |sorted| && pending == Unapplied(sorted[..n], applied)
    {
      assert sorted[..n + 1][..n] == sorted[..n];
      if sorted[n] !in applied {
        pending := pending + [sorted[n]];
      }
      n := n + 1;
    }
    assert sorted[..n] == sorted;
    UnappliedAscends(sorted, applied);
    PendingVersions(all.value, sorted, applied);
    return Some(pending);
  }

  /** What verifyMigrations accepts: it asks for version 1 but does not notice later gaps. */
  predicate ChainOk(embedded: set<Version>, applied: set<Version>) {
    (embedded == {} || 1 in embedded) && applied <= embedded
  }

  method VerifyMigrations(files: seq<File>, applied: set<Version>) returns (ok: bool)
    ensures ok <==> Parses(files, UpScript) && ChainOk(Embedded(files), applied)
  {
    var all := Collect(files, UpScript);
    if all == None {
      return false;
    }
    var up := Members(all.value);
    var expected: int := 1;
    ghost var left := up;
    while expected in up
      invariant expected >= 1 && (expected > 1 ==> 1 in up)
      invariant left <= up && forall v :: v in up && v >= expected ==> v in left
      decreases left
    {
      left := left - {expected};
      expected := expected + 1;
    }
    if expected == 1 && up != {} {
      return false;
    }
    var rest := applied;
    while exists v :: v in rest
      invariant rest <= applied && forall v :: v in applied && v !in rest ==> v in up
      decreases |rest|
    {
      var v :| v in rest;
      if v !in up {
        return false;
      }
      rest := rest - {v};
    }
    return true;
  }

  // ---------------------------------------------------------------------------
  // Migrating

  /** No two scripts that are still to be applied share a version. */
  ghost predicate NoClash(files: seq<File>, applied: set<Version>) {
    forall v :: v !in applied ==> Copies(Scripts(files, UpScript), v) <= 1
  }

  /** The chain of versions is consistent. */
  ghost predicate Migratable(files: seq<File>, applied: set<Version>) {
    Parses(files, UpScript) && ChainOk(Embedded(files), applied) && NoClash(files, applied)
  }

  predicate StrictlyAscends(s: seq<Version>) {
    forall i, j :: 0 <= i < j < |s| ==> s[i] < s[j]
  }

  function AppliedIn(ledger: Ledger): set<Version> {
    if ledger.Some? then ledger.value else {}
  }

  /** A successful migration: every embedded version is applied, and what was run is exactly what was
      missing, once each, in strictly ascending order. */
  predicate Migrated(files: seq<File>, ledger: Ledger, ran: seq<Version>, ledger': Ledger) {
    && ledger' == Some(Embedded(files))
    && AppliedIn(ledger) <= Embedded(files)
    && StrictlyAscends(ran)
    && Members(ran) == Embedded(files) - AppliedIn(ledger)
  }

  /** The scripts of `pending` in order, until the database refuses one (`faulty`), or its version is
      already recorded. */
  method RunScripts(pending: seq<Version>, applied: set<Version>, faulty: Version -> bool)
    returns (ok: bool, ran: seq<Version>)
    requires Ascends(pending) && Members(pending) !! applied
    ensures ok ==> ran == pending && StrictlyAscends(pending) && forall v :: Copies(pending, v) <= 1
    ensures (forall v :: !faulty(v)) ==> (ok <==> forall v :: Copies(pending, v) <= 1)
  {
    ok, ran := false, [];
    var done, n := applied, 0;
    while n < |pending|
      invariant n <= |pending| && ran == pending[..n] && StrictlyAscends(ran)
      invariant done == applied + Members(ran)
    {
      var v := pending[n];
      assert v in Members(pending);
      if faulty(v) || v in done {
        SeenTwice(pending, n);
        return;
      }
      NextVersion(pending, n);
      done := done + {v};
      ran := ran + [v];
      n := n + 1;
    }
    AscendingHasNoCopies(pending);
    ok := true;
  }

  lemma NextVersion(s: seq<Version>, n: nat)
    requires n < |s| && Ascends(s) && StrictlyAscends(s[..n]) && s[n] !in Members(s[..n])
    ensures StrictlyAscends(s[..n] + [s[n]]) && s[..n] + [s[n]] == s[..n + 1]
    ensures Members(s[..n] + [s[n]]) == Members(s[..n]) + {s[n]}
  {
    var r := s[..n];
    assert forall i :: 0 <= i < n ==> r[i] == s[i] && r[i] in Members(r);
  }

  /** migrateAndPing's transaction. `faulty` says which versions' statements the database refuses,
      `commits` whether the commit goes through; any error rolls everything back. */
  method Migrate(files: seq<File>, ledger: Ledger, faulty: Version -> bool, commits: bool)
    returns (ok: bool, ran: seq<Version>, ledger': Ledger)
    ensures ok ==> Migrated(files, ledger, ran, ledger') && Migratable(files, AppliedIn(ledger))
    ensures !ok ==> ledger' == ledger
    // With a database that refuses nothing, it succeeds if and only if the chain is consistent.
    ensures commits && (forall v :: !faulty(v)) ==> (ok <==> Migratable(files, AppliedIn(ledger)))
  {
    ok, ran, ledger' := false, [], ledger;
    var applied := AppliedIn(ledger);
    var pending := PendingMigrations(files, applied);
    if pending == None {
      return;
    }
    var sound := VerifyMigrations(files, applied);
    if !sound {
      return;
    }
    ok, ran := RunScripts(pending.value, applied, faulty);
    ClashIsCopies(files, applied, pending.value);
    if !ok || !commits {
      ok := false;
      return;
    }
    assert applied + Members(ran) == Embedded(files);
    ledger' := Some(applied + Members(ran));
  }

  lemma ClashIsCopies(files: seq<File>, applied: set<Version>, pending: seq<Version>)
    requires forall v :: Copies(pending, v) == if v in applied then 0 else Copies(Scripts(files, UpScript), v)
    ensures NoClash(files, applied) <==> forall v :: Copies(pending, v) <= 1
  {
    if !NoClash(files, applied) {
      var v :| v !in applied && Copies(Scripts(files, UpScript), v) > 1;
      assert Copies(pending, v) > 1;
    }
  }

  lemma {:induction false} AscendingHasNoCopies(s: seq<Version>)
    requires StrictlyAscends(s)
    ensures forall v :: Copies(s, v) <= 1
  {
    if s != [] {
      var n := |s| - 1;
      AscendingHasNoCopies(s[..n]);
      assert s == s[..n] + [s[n]];
      forall v ensures Copies(s, v) <= 1 {
        InCopies(s[..n], v);
        assert s[n] !in s[..n];
      }
    }
  }

  /** A version met again on the way through the list has two copies in it. */
  lemma SeenTwice(s: seq<Version>, n: nat)
    requires n < |s|
    ensures s[n] in s[..n] ==> Copies(s, s[n]) >= 2
  {
    assert s == s[..n] + [s[n]] + s[n + 1..];
    assert s[n] in s[..n] ==> s[n] in multiset(s[..n]);
  }

  // ---------------------------------------------------------------------------
  // Rolling back

  /** The down scripts by version (a later file replaces an earlier one), and whether each drops the ledger. */
  function Downs(files: seq<File>): map<Version, bool> {
    if files == [] then map[]
    else
      var f := files[|files| - 1];
      var before := Downs(files[..|files| - 1]);
      if IsScript(f, DownScript) && f.version.Some? then before[f.version.value := f.dropsLedger] else before
  }

  /** What is known of a down script is what its last file says. */
  lemma {:induction false} LastDownCounts(files: seq<File>, v: Version) returns (i: nat)
    requires v in Downs(files)
    ensures IsScriptOf(files, i, DownScript, v) && Downs(files)[v] == files[i].dropsLedger
    ensures forall j: nat :: i < j < |files| ==> !IsScriptOf(files, j, DownScript, v)
  {
    var n := |files| - 1;
    if IsScriptOf(files, n, DownScript, v) {
      i := n;
    } else {
      i := LastDownCounts(files[..n], v);
      assert forall j: nat :: j < n ==>
                                (IsScriptOf(files[..n], j, DownScript, v) <==> IsScriptOf(files, j, DownScript, v));
    }
  }

  method CollectDowns(files: seq<File>) returns (r: Option<map<Version, bool>>)
    ensures r.Some? <==> Parses(files, DownScript)
    ensures r.Some? ==> r.value == Downs(files)
  {
    var all: map<Version, bool> := map[];
    var n := 0;
    while n < |files|
      invariant n <= |files| && Parses(files[..n], DownScript) && all == Downs(files[..n])
    {
      var f := files[n];
      assert files[..n + 1][..n] == files[..n] && files[..n + 1][n] == f;
      if IsScript(f, DownScript) {
        if f.version == None {
          return None;
        }
        all := all[f.version.value := f.dropsLedger];
      }
      n := n + 1;
    }
    assert files[..n] == files;
    return Some(all);
  }

  predicate StrictlyDescends(s: seq<Version>) {
    forall i, j :: 0 <= i < j < |s| ==> s[i] > s[j]
  }

  /** The members of `versions`, highest first. */
  method SortDescending(versions: set<Version>) returns (r: seq<Version>)
    ensures StrictlyDescends(r) && Members(r) == versions && |r| == |versions|
  {
    r := [];
    var rest := versions;
    while exists v :: v in rest
      invariant rest <= versions && StrictlyDescends(r) && Members(r) == versions - rest && |r| == |versions| - |rest|
      invariant forall x, y :: x in r && y in rest ==> x > y
      decreases |rest|
    {
      var v := Highest(rest);
      AppendLower(r, v);
      r := r + [v];
      rest := rest - {v};
    }
    assert rest == {};
  }

  lemma AppendLower(r: seq<Version>, v: Version)
    requires StrictlyDescends(r) && forall x :: x in r ==> x > v
    ensures StrictlyDescends(r + [v]) && Members(r + [v]) == Members(r) + {v}
  {
    assert forall i :: 0 <= i < |r| ==> r[i] in r;
  }

  method Highest(versions: set<Version>) returns (m: Version)
    requires exists v :: v in versions
    ensures m in versions && forall x :: x in versions ==> x <= m
  {
    m :| m in versions;
    var rest := versions - {m};
    while exists v :: v in rest
      invariant rest <= versions && m in versions && forall x :: x in versions && x !in rest ==> x <= m
      decreases |rest|
    {
      var v :| v in rest;
      rest := rest - {v};
      if v > m {
        m := v;
      }
    }
  }

  /** The applied versions that have a down script. */
  function Reversible(files: seq<File>, ledger: Ledger): set<Version> {
    AppliedIn(ledger) * Downs(files).Keys
  }

  function Wanted(count: int, available: nat): nat {
    if count <= 0 then 0 else if count < available then count else available
  }

  /** A successful rollback of `n`: exactly the `n` highest reversible versions are no longer applied,
      and none of their scripts dropped the ledger. */
  ghost predicate RolledBack(files: seq<File>, ledger: Ledger, count: int, n: nat, ledger': Ledger) {
    var all, removed := Reversible(files, ledger), AppliedIn(ledger) - AppliedIn(ledger');
    && n == Wanted(count, |all|) == |removed|
    && AppliedIn(ledger') <= AppliedIn(ledger)
    && removed <= all
    && (forall r, x :: r in removed && x in all - removed ==> x < r)
    && (forall r :: r in removed ==> !Downs(files)[r])
  }

  function Above(v: Version, all: set<Version>): set<Version> {
    set x | x in all && x > v
  }

  /** Whether `v` is among the `n` highest members of `all`. */
  predicate AmongHighest(v: Version, all: set<Version>, n: nat) {
    v in all && |Above(v, all)| < n
  }

  /** None of the down scripts that a rollback of `count` would run drops the ledger. */
  ghost predicate KeepsLedger(files: seq<File>, ledger: Ledger, count: int) {
    var all := Reversible(files, ledger);
    forall v :: AmongHighest(v, all, Wanted(count, |all|)) ==> !Downs(files)[v]
  }

  ghost predicate Reverts(files: seq<File>, ledger: Ledger, count: int) {
    && Parses(files, DownScript) && (Downs(files) == map[] || ledger.Some?)
    && KeepsLedger(files, ledger, count)
  }

  /** Runs the planned down scripts until `count` are done or one fails: because the database refuses
      it, or because it dropped the table its version should be deleted from. */
  method RunDowns(plan: seq<Version>, downs: map<Version, bool>, count: int, faulty: Version -> bool)
    returns (ok: bool, n: nat)
    requires forall i :: 0 <= i < |plan| ==> plan[i] in downs
    ensures ok ==> n == Wanted(count, |plan|) && forall i :: 0 <= i < n ==> !downs[plan[i]]
    ensures (forall v :: !faulty(v)) && !ok ==> exists i :: 0 <= i < Wanted(count, |plan|) && downs[plan[i]]
  {
    n := 0;
    while n < |plan| && n < count
      invariant n <= |plan| && (n <= count || n == 0)
      invariant forall i :: 0 <= i < n ==> !downs[plan[i]]
    {
      if faulty(plan[n]) || downs[plan[n]] {
        assert n < Wanted(count, |plan|);
        assert faulty(plan[n]) || downs[plan[n]];
        return false, n;
      }
      n := n + 1;
    }
    ok := true;
  }

  /** ApplyDownMigrations' transaction. */
  method ApplyDown(files: seq<File>, ledger: Ledger, count: int, faulty: Version -> bool, commits: bool)
    returns (ok: bool, n: nat, ledger': Ledger)
    ensures ok ==> RolledBack(files, ledger, count, n, ledger')
    ensures !ok ==> ledger' == ledger
    // With a database that refuses nothing, it succeeds if and only if its scripts spare the ledger.
    ensures commits && (forall v :: !faulty(v)) ==>
              (ok <==> Reverts(files, ledger, count))
  {
    ok, n, ledger' := false, 0, ledger;
    var downs := CollectDowns(files);
    if downs == None {
      return;
    }
    if downs.value == map[] {
      NothingToRollBack(files, ledger, count);
      ok := true;
      return;
    }
    if ledger == None {
      return;
    }
    var plan := SortDescending(ledger.value * downs.value.Keys);
    PlanDecides(files, ledger, count, plan);
    ok, n := RunDowns(plan, downs.value, count, faulty);
    if ok {
      PlanRollsBack(files, ledger, count, plan);
      if n == 0 {
        assert ledger.value - Members(plan[..0]) == ledger.value;
      } else if commits {
        ledger' := Some(ledger.value - Members(plan[..n]));
      } else {
        ok := false;
      }
    }
  }

  lemma NothingToRollBack(files: seq<File>, ledger: Ledger, count: int)
    requires Downs(files) == map[]
    ensures RolledBack(files, ledger, count, 0, ledger) && KeepsLedger(files, ledger, count)
  {
    assert Reversible(files, ledger) == {};
    assert AppliedIn(ledger) - AppliedIn(ledger) == {};
  }

  ghost predicate IsPlan(files: seq<File>, ledger: Ledger, plan: seq<Version>) {
    StrictlyDescends(plan) && Members(plan) == Reversible(files, ledger) && |plan| == |Reversible(files, ledger)|
  }

  lemma PlanRollsBack(files: seq<File>, ledger: Ledger, count: int, plan: seq<Version>)
    requires ledger.Some? && IsPlan(files, ledger, plan)
    requires forall i :: 0 <= i < Wanted(count, |plan|) ==> plan[i] in Downs(files) && !Downs(files)[plan[i]]
    ensures var n := Wanted(count, |plan|);
            RolledBack(files, ledger, count, n, Some(ledger.value - Members(plan[..n])))
  {
    var n := Wanted(count, |plan|);
    PrefixIsHighest(plan, n, ledger.value);
    forall r | r in Members(plan[..n]) ensures r in Downs(files) && !Downs(files)[r] {
      var i :| 0 <= i < n && plan[i] == r;
    }
  }

  /** The scripts a plan runs are those of the highest versions. */
  lemma PlanDecides(files: seq<File>, ledger: Ledger, count: int, plan: seq<Version>)
    requires IsPlan(files, ledger, plan)
    ensures forall i :: 0 <= i < |plan| ==> plan[i] in Downs(files)
    ensures KeepsLedger(files, ledger, count) <==> forall i :: 0 <= i < Wanted(count, |plan|) ==> !Downs(files)[plan[i]]
  {
    var all, n := Reversible(files, ledger), Wanted(count, |plan|);
    forall i | 0 <= i < |plan|
      ensures plan[i] in all && (AmongHighest(plan[i], all, n) <==> i < n)
    {
      assert plan[i] in Members(plan);
      RankInPlan(plan, i);
    }
    forall v | AmongHighest(v, all, n) ensures exists i :: 0 <= i < n && plan[i] == v {
      assert v in Members(plan);
      var i :| 0 <= i < |plan| && plan[i] == v;
    }
  }

  lemma RankInPlan(plan: seq<Version>, i: nat)
    requires StrictlyDescends(plan) && i < |plan|
    ensures |Above(plan[i], Members(plan))| == i
  {
    var above := Above(plan[i], Members(plan));
    forall x | x in above ensures x in Members(plan[..i]) {
      var j :| 0 <= j < |plan| && plan[j] == x;
      assert plan[..i][j] == x;
    }
    assert above == Members(plan[..i]);
    DistinctMembers(plan[..i]);
  }

  lemma PrefixIsHighest(plan: seq<Version>, n: nat, applied: set<Version>)
    requires n <= |plan| && StrictlyDescends(plan) && Members(plan) <= applied
    ensures var removed := Members(plan[..n]);
            && removed <= Members(plan) && |removed| == n
            && applied - (applied - removed) == removed
            && forall r, x :: r in removed && x in Members(plan) - removed ==> x < r
  {
    var removed := Members(plan[..n]);
    DistinctMembers(plan[..n]);
    assert forall j :: 0 <= j < n ==> plan[..n][j] == plan[j] && plan[j] in removed;
    forall r, x | r in removed && x in Members(plan) - removed ensures x < r {
      var i :| 0 <= i < n && plan[i] == r;
      var j :| 0 <= j < |plan| && plan[j] == x;
    }
  }

  lemma {:induction false} DistinctMembers(s: seq<Version>)
    requires StrictlyDescends(s)
    ensures |Members(s)| == |s|
  {
    if s != [] {
      var n := |s| - 1;
      DistinctMembers(s[..n]);
      assert s == s[..n] + [s[n]];
      assert Members(s) == Members(s[..n]) + {s[n]};
      assert s[n] !in s[..n];
    }
  }

  // ---------------------------------------------------------------------------
  // Runs of both

  /** What has been migrated can be migrated again, and that runs nothing. */
  lemma MigrateIsIdempotent(files: seq<File>, l0: Ledger, ran: seq<Version>, l1: Ledger,
                            again: seq<Version>, l2: Ledger)
    requires Migratable(files, AppliedIn(l0)) && Migrated(files, l0, ran, l1)
    ensures Migratable(files, AppliedIn(l1))
    ensures Migrated(files, l1, again, l2) <==> again == [] && l2 == l1
  {
    NotEmpty(again);
    forall v | v !in AppliedIn(l1) ensures Copies(Scripts(files, UpScript), v) <= 1 {
      InCopies(Scripts(files, UpScript), v);
    }
  }

  /** Migrating twice, the second time on a database that refuses nothing: if the first succeeds, so does the
      second, and it runs nothing. */
  method MigrateTwice(files: seq<File>, ledger: Ledger, faulty: Version -> bool, commits: bool)
    returns (ok: bool, once: Ledger, okAgain: bool, again: seq<Version>, twice: Ledger)
    ensures ok ==> once == Some(Embedded(files)) && okAgain && again == [] && twice == once
  {
    var ran;
    ok, ran, once := Migrate(files, ledger, faulty, commits);
    okAgain, again, twice := false, [], once;
    if ok {
      MigrateIsIdempotent(files, ledger, ran, once, [], once);
      okAgain, again, twice := Migrate(files, once, v => false, true);
      NotEmpty(again);
    }
  }

  lemma NotEmpty(s: seq<Version>)
    ensures s != [] ==> Members(s) != {}
  {
    if s != [] {
      assert s[0] in Members(s);
    }
  }

  /** When every applied version has a down script, a rollback of k removes exactly the k highest
      versions (or all), and migrating again runs exactly those and restores the ledger. */
  lemma RollbackThenMigrate(files: seq<File>, l0: Ledger, ran: seq<Version>, l1: Ledger, count: int, n: nat, l2: Ledger,
                            again: seq<Version>, l3: Ledger)
    requires Migrated(files, l0, ran, l1) && RolledBack(files, l1, count, n, l2) && Migrated(files, l2, again, l3)
    requires Embedded(files) <= Downs(files).Keys
    ensures n == Wanted(count, |Embedded(files)|) == |Members(again)|
    ensures Members(again) == AppliedIn(l1) - AppliedIn(l2) && StrictlyAscends(again)
    ensures forall r, x :: r in again && x in AppliedIn(l2) ==> x < r
    ensures l3 == l1
  {
    var all, removed := Reversible(files, l1), AppliedIn(l1) - AppliedIn(l2);
    assert all == Embedded(files);
    assert Members(again) == removed;
    forall r, x | r in again && x in AppliedIn(l2) ensures x < r {
      assert r in Members(again) && x in all - removed;
    }
  }

  /** Migrating, rolling back and migrating again, on a database that refuses nothing from then on: the rollback
      succeeds exactly if its scripts spare the ledger; migrating again then succeeds exactly if no version
      that was rolled back is embedded twice, and so always if none is; and it restores the ledger. */
  method RollBackAndReturn(files: seq<File>, ledger: Ledger, faulty: Version -> bool, commits: bool, count: int)
    returns (ok: bool, up: Ledger, okDown: bool, n: nat, down: Ledger,
             okUp: bool, again: seq<Version>, restored: Ledger)
    ensures ok ==> up == Some(Embedded(files)) && (okDown <==> Reverts(files, up, count))
    ensures ok && okDown ==> RolledBack(files, up, count, n, down) && (okUp <==> NoClash(files, AppliedIn(down)))
    ensures ok && okDown && NoClash(files, {}) ==> okUp
    ensures ok && okDown && okUp ==> restored == up && Members(again) == AppliedIn(up) - AppliedIn(down)
    // With a down script for every version, what goes and returns is exactly the highest ones, as many as asked for.
    ensures ok && okDown && okUp && Embedded(files) <= Downs(files).Keys ==>
              && n == Wanted(count, |Embedded(files)|) == |Members(again)|
              && forall r, x :: r in again && x in AppliedIn(down) ==> x < r
  {
    var ran;
    ok, ran, up := Migrate(files, ledger, faulty, commits);
    okDown, n, down, okUp, again, restored := false, 0, up, false, [], up;
    if ok {
      okDown, n, down := ApplyDown(files, up, count, v => false, true);
      if okDown {
        okUp, again, restored := Migrate(files, down, v => false, true);
        if okUp && Embedded(files) <= Downs(files).Keys {
          RollbackThenMigrate(files, ledger, ran, up, count, n, down, again, restored);
        }
      }
    }
  }

  /** Up scripts 1 and 3, without 2. */
  const GAPPED := [File(false, UpScript, Some(1), false), File(false, UpScript, Some(3), false)]

  /** A gap is not noticed: such a chain is accepted, and migrated. */
  lemma GapIsAccepted()
    ensures Embedded(GAPPED) == {1, 3} && Migratable(GAPPED, {})
  {
    assert GAPPED[..1][..0] == [];
    assert Scripts(GAPPED[..1], UpScript) == [1];
    assert Scripts(GAPPED, UpScript) == [1, 3];
    AscendingHasNoCopies([1, 3]);
  }

  /** The shipped scripts: three versions; the down script of version 1 drops schema_migrations itself. */
  const SHIPPED := [
    File(false, DownScript, Some(1), true), File(false, UpScript, Some(1), false),
    File(false, DownScript, Some(2), false), File(false, UpScript, Some(2), false),
    File(false, DownScript, Some(3), false), File(false, UpScript, Some(3), false)]

  lemma ShippedDowns()
    ensures Downs(SHIPPED) == map[1 := true, 2 := false, 3 := false]
  {
    assert SHIPPED[..5][..4] == SHIPPED[..4] && SHIPPED[..4][..3] == SHIPPED[..3];
    assert SHIPPED[..3][..2] == SHIPPED[..2] && SHIPPED[..2][..1] == SHIPPED[..1] && SHIPPED[..1][..0] == [];
    assert Downs(SHIPPED[..1]) == map[1 := true];
    assert Downs(SHIPPED[..2]) == map[1 := true];
    assert Downs(SHIPPED[..3]) == map[1 := true, 2 := false];
    assert Downs(SHIPPED[..4]) == map[1 := true, 2 := false];
    assert Downs(SHIPPED[..5]) == map[1 := true, 2 := false, 3 := false];
  }

  /** They can be rolled back by two versions at most: a rollback that reaches version 1 cannot
      unrecord it any more and fails. */
  lemma ShippedRollbackStopsAtTwo(count: int, n: nat, ledger': Ledger)
    requires RolledBack(SHIPPED, Some({1, 2, 3}), count, n, ledger')
    ensures count <= 2 && n <= 2 && 1 in AppliedIn(ledger')
  {
    ShippedDowns();
    var applied := {1, 2, 3};
    assert Reversible(SHIPPED, Some(applied)) == applied;
    assert |applied| == 3;
    var removed := applied - AppliedIn(ledger');
    assert Downs(SHIPPED)[1];
    AllButOne(removed, applied, 1);
  }

  lemma AllButOne(a: set<Version>, b: set<Version>, x: Version)
    requires a <= b && x in b && x !in a
    ensures |a| < |b|
  {
    assert b - {x} == a + (b - {x} - a);
  }
}
