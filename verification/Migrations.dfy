/**
  Version-driven migrations of common/service/service-version.go, with a persisted
  version, restarts, and migrations that may fail at any time. Versions are numbers in
  their order; 0 stands for version 0.0.0.
 */
module Migrations {
  import opened Results

  datatype Migration = Migration(version: nat, up: bool, down: bool)

  /** What one run of the migrations did: the version to store, whether it failed, what ran successfully. */
  datatype Outcome = Outcome(write: Option<nat>, failed: bool, ran: seq<nat>)

  ghost predicate Increasing(ms: seq<Migration>) {
    forall i, j :: 0 <= i < j < |ms| ==> ms[i].version < ms[j].version
  }

  // ----- which migrations are due

  predicate DueUp(m: Migration, current: nat, target: nat) {
    m.up && current < m.version <= target
  }

  predicate DueDown(m: Migration, current: nat, target: nat) {
    m.down && target < m.version <= current
  }

  /** The versions whose Up is due, in list order. */
  function UpList(ms: seq<Migration>, current: nat, target: nat): seq<nat> {
    if ms == [] then []
    else
      var m := ms[|ms| - 1];
      UpList(ms[..|ms| - 1], current, target) + (if DueUp(m, current, target) then [m.version] else [])
  }

  /** The versions whose Down is due, last in the list first. */
  function DownList(ms: seq<Migration>, current: nat, target: nat): seq<nat> {
    if ms == [] then []
    else
      var m := ms[|ms| - 1];
      (if DueDown(m, current, target) then [m.version] else []) + DownList(ms[..|ms| - 1], current, target)
  }

  /** A list of migrations run in order until the first that fails. */
  function Attempt(due: seq<nat>, ok: nat -> bool): seq<nat> {
    if due == [] || !ok(due[0]) then [] else [due[0]] + Attempt(due[1..], ok)
  }

  /** What a run over a list of due migrations comes to. */
  function OutcomeOf(due: seq<nat>, target: nat, ok: nat -> bool): Outcome {
    var ran := Attempt(due, ok);
    if ran == due then Outcome(Some(target), false, ran)
    else Outcome(if ran == [] then None else Some(ran[|ran| - 1]), true, ran)
  }

  /** One start of a service that is past its first run. */
  function Applied(current: nat, target: nat, ms: seq<Migration>, ok: nat -> bool): Outcome {
    if target == current then Outcome(None, false, [])
    else if ms == [] then Outcome(Some(target), false, [])
    else if current == 0 then
      if ms[0].version != 0 then Outcome(Some(target), false, [])
      else if !ms[0].up || !ok(0) then Outcome(Some(0), true, [])
      else Outcome(Some(target), false, [0])
    else if target > current then OutcomeOf(UpList(ms, current, target), target, ok)
    else OutcomeOf(DownList(ms, current, target), target, ok)
  }

  lemma {:induction false} AttemptStep(done: seq<nat>, v: nat, rest: seq<nat>, ok: nat -> bool)
    requires Attempt(done, ok) == done
    ensures Attempt(done + [v] + rest, ok) == if ok(v) then done + [v] + Attempt(rest, ok) else done
    decreases |done|
  {
    hide Attempt;
    if done == [] {
      assert done + [v] + rest == [v] + rest;
      AttemptCons(v, rest, ok);
    } else {
      var d, others := done[0], done[1..];
      assert done == [d] + others && done + [v] + rest == [d] + (others + [v] + rest);
      AttemptCons(d, others, ok);
      AttemptCons(d, others + [v] + rest, ok);
      assert others == done[1..];
      AttemptStep(others, v, rest, ok);
    }
  }

  lemma AttemptCons(d: nat, rest: seq<nat>, ok: nat -> bool)
    ensures Attempt([d] + rest, ok) == if ok(d) then [d] + Attempt(rest, ok) else []
  {
    assert ([d] + rest)[1..] == rest;
  }

  lemma {:induction false} AttemptIsPrefix(due: seq<nat>, ok: nat -> bool)
    ensures Attempt(due, ok) <= due
    ensures forall v :: v in Attempt(due, ok) ==> ok(v)
  {
    if due != [] && ok(due[0]) {
      AttemptIsPrefix(due[1..], ok);
    }
  }

  // ----- the loops

  lemma UpListStep(ms: seq<Migration>, i: nat, current: nat, target: nat)
    requires i < |ms|
    ensures UpList(ms[..i + 1], current, target)
      == UpList(ms[..i], current, target) + if DueUp(ms[i], current, target) then [ms[i].version] else []
  {
    assert ms[..i + 1][..i] == ms[..i];
  }

  lemma {:induction false} UpListGrows(ms: seq<Migration>, i: nat, current: nat, target: nat)
    requires i <= |ms|
    ensures UpList(ms[..i], current, target) <= UpList(ms, current, target)
    decreases |ms| - i
  {
    if i < |ms| {
      UpListGrows(ms, i + 1, current, target);
      UpListStep(ms, i, current, target);
    } else {
      assert ms[..i] == ms;
    }
  }

  /** The migration at which a run stops: everything due before it succeeded, it fails. */
  lemma StopsAt(due: seq<nat>, done: seq<nat>, v: nat, target: nat, ok: nat -> bool)
    requires done + [v] <= due && Attempt(done, ok) == done && !ok(v)
    ensures OutcomeOf(due, target, ok) == Outcome(if done == [] then None else Some(done[|done| - 1]), true, done)
  {
    hide Attempt;
    var rest := due[|done| + 1..];
    assert |done| < |due|;
    assert due == done + [v] + rest;
    AttemptStep(done, v, rest, ok);
  }

  lemma DueUpsUpgrade(ms: seq<Migration>, current: nat, target: nat, ok: nat -> bool)
    requires 0 < current < target
    ensures Increasing(ms) ==> Upgraded(ms, current, target, ok, OutcomeOf(UpList(ms, current, target), target, ok))
  {
    if Increasing(ms) {
      OneStartUpgrades(current, target, ms, ok);
      UpgradeOutcome(current, target, ms, ok);
    }
  }

  method MigrateUp(current: nat, target: nat, ms: seq<Migration>, ok: nat -> bool) returns (r: Outcome)
    requires 0 < current < target
    ensures r == OutcomeOf(UpList(ms, current, target), target, ok)
    ensures Increasing(ms) ==> Upgraded(ms, current, target, ok, r)
  {
    hide Upgraded, Increasing;
    DueUpsUpgrade(ms, current, target, ok);
    var successVersion: Option<nat> := None;
    var ran: seq<nat> := [];
    for i := 0 to |ms|
      invariant ran == UpList(ms[..i], current, target) == Attempt(ran, ok)
      invariant successVersion == if ran == [] then None else Some(ran[|ran| - 1])
    {
      UpListStep(ms, i, current, target);
      var v := ms[i].version;
      if ms[i].up && v > current && (v < target || v == target) {
        if !ok(v) {
          UpListGrows(ms, i + 1, current, target);
          StopsAt(UpList(ms, current, target), ran, v, target, ok);
          return Outcome(successVersion, true, ran);
        }
        AttemptStep(ran, v, [], ok);
        assert ran + [v] + [] == ran + [v];
        ran := ran + [v];
        successVersion := Some(v);
      }
    }
    assert ms[..|ms|] == ms;
    r := Outcome(Some(target), false, ran);
  }

  lemma DownListStep(ms: seq<Migration>, i: nat, current: nat, target: nat)
    requires i < |ms|
    ensures DownList(ms[..i + 1], current, target)
      == (if DueDown(ms[i], current, target) then [ms[i].version] else []) + DownList(ms[..i], current, target)
  {
    assert ms[..i + 1][..i] == ms[..i];
  }

  lemma NothingAttempted(ms: seq<Migration>, current: nat, target: nat, ok: nat -> bool)
    ensures Attempt([], ok) == [] && DownList(ms[..0], current, target) == []
    ensures [] + DownList(ms, current, target) == DownList(ms, current, target)
  {
  }

  lemma AllAttempted(due: seq<nat>, target: nat, ok: nat -> bool)
    requires Attempt(due, ok) == due
    ensures OutcomeOf(due, target, ok) == Outcome(Some(target), false, due)
    ensures Attempt([], ok) == []
  {
  }

  lemma DueDownsDowngrade(ms: seq<Migration>, current: nat, target: nat, ok: nat -> bool)
    requires target < current
    ensures 0 < target && Increasing(ms) ==>
      Downgraded(ms, current, target, ok, OutcomeOf(DownList(ms, current, target), target, ok))
  {
    if 0 < target && Increasing(ms) {
      OneStartDowngrades(current, target, ms, ok);
      DowngradeOutcome(current, target, ms, ok);
    }
  }

  method MigrateDown(current: nat, target: nat, ms: seq<Migration>, ok: nat -> bool) returns (r: Outcome)
    requires target < current
    ensures r == OutcomeOf(DownList(ms, current, target), target, ok)
    ensures 0 < target && Increasing(ms) ==> Downgraded(ms, current, target, ok, r)
  {
    hide DownList, Attempt, OutcomeOf, Downgraded, Increasing;
    DueDownsDowngrade(ms, current, target, ok);
    NothingAttempted(ms, current, target, ok);
    var successVersion: Option<nat> := None;
    var ran: seq<nat> := [];
    ghost var due := DownList(ms, current, target);
    assert ms[..|ms|] == ms;
    for i := |ms| downto 0
      invariant due == ran + DownList(ms[..i], current, target) && ran == Attempt(ran, ok)
      invariant successVersion == if ran == [] then None else Some(ran[|ran| - 1])
    {
      DownListStep(ms, i, current, target);
      var v := ms[i].version;
      if ms[i].down && v > target && (v < current || v == current) {
        assert due == ran + [v] + DownList(ms[..i], current, target);
        if !ok(v) {
          StopsAt(due, ran, v, target, ok);
          return Outcome(successVersion, true, ran);
        }
        AttemptStep(ran, v, [], ok);
        assert ran + [v] + [] == ran + [v];
        ran := ran + [v];
        successVersion := Some(v);
      }
    }
    assert due == ran + [] == ran;
    AllAttempted(due, target, ok);
    r := Outcome(Some(target), false, ran);
  }

  method ApplyMigrations(current: nat, target: nat, ms: seq<Migration>, ok: nat -> bool) returns (r: Outcome)
    ensures r == Applied(current, target, ms, ok)
  {
    if target == current {
      return Outcome(None, false, []);
    }
    if ms == [] {
      return Outcome(Some(target), false, []);
    }
    if current == 0 {
      var m := ms[0];
      if m.version != 0 {
        return Outcome(Some(target), false, []);
      }
      if !m.up || !ok(0) {
        return Outcome(Some(current), true, []);
      }
      return Outcome(Some(target), false, [0]);
    }
    if target > current {
      r := MigrateUp(current, target, ms, ok);
    } else {
      r := MigrateDown(current, target, ms, ok);
    }
  }

  /** The service with its version file; `ran` records the migrations that succeeded, in order. */
  class Service {
    var version: nat
    var ran: seq<nat>

    constructor (version: nat)
      ensures this.version == version && ran == []
    {
      this.version, ran := version, [];
    }

    method UpdateServiceVersion(target: nat, ms: seq<Migration>, ok: nat -> bool) returns (failed: bool)
      modifies this
      ensures var o := Applied(old(version), target, ms, ok);
        && failed == o.failed && ran == old(ran) + o.ran
        && version == (if o.write.Some? then o.write.value else old(version))
    {
      var o := ApplyMigrations(version, target, ms, ok);
      ran := ran + o.ran;
      if o.write.Some? {
        version := o.write.value;
      }
      failed := o.failed;
    }
  }

  // ----- runs over restarts

  /** The stored version and everything that ran successfully so far. */
  datatype State = State(version: nat, ran: seq<nat>)

  function Restart(s: State, target: nat, ms: seq<Migration>, ok: nat -> bool): State {
    var o := Applied(s.version, target, ms, ok);
    State(if o.write.Some? then o.write.value else s.version, s.ran + o.ran)
  }

  /** One restart per entry; the entry says which migrations would succeed in it. */
  function Restarts(s: State, target: nat, ms: seq<Migration>, oks: seq<nat -> bool>): State {
    if oks == [] then s
    else Restart(Restarts(s, target, ms, oks[..|oks| - 1]), target, ms, oks[|oks| - 1])
  }

  ghost predicate HasVersion(ms: seq<Migration>, v: nat) {
    exists i :: 0 <= i < |ms| && ms[i].version == v
  }

  lemma LastVersionIsThere(ms: seq<Migration>)
    requires ms != []
    ensures HasVersion(ms, ms[|ms| - 1].version)
  {
  }

  lemma LastVersionIsGreatest(ms: seq<Migration>, v: nat)
    requires Increasing(ms) && ms != [] && HasVersion(ms[..|ms| - 1], v)
    ensures v < ms[|ms| - 1].version && HasVersion(ms, v)
  {
    var i :| 0 <= i < |ms| - 1 && ms[..|ms| - 1][i].version == v;
    assert ms[i].version == v;
  }

  /** Versions of the shorter list are smaller than the last one. */
  lemma AllBelowLast(ms: seq<Migration>, l: seq<nat>)
    requires Increasing(ms) && ms != [] && forall v :: v in l ==> HasVersion(ms[..|ms| - 1], v)
    ensures forall v :: v in l ==> v < ms[|ms| - 1].version && HasVersion(ms, v)
    ensures forall i :: 0 <= i < |l| ==> l[i] < ms[|ms| - 1].version
  {
    forall v | v in l
      ensures v < ms[|ms| - 1].version && HasVersion(ms, v)
    {
      LastVersionIsGreatest(ms, v);
    }
    assert forall i :: 0 <= i < |l| ==> l[i] in l;
  }

  ghost predicate Ascending(l: seq<nat>) {
    forall i, j :: 0 <= i < j < |l| ==> l[i] < l[j]
  }

  ghost predicate Descending(l: seq<nat>) {
    forall i, j :: 0 <= i < j < |l| ==> l[j] < l[i]
  }

  /** The due list is increasing, and holds versions of the list inside the interval only. */
  lemma {:induction false} UpListMembers(ms: seq<Migration>, current: nat, target: nat)
    requires Increasing(ms)
    ensures Ascending(UpList(ms, current, target))
    ensures forall v :: v in UpList(ms, current, target) ==> HasVersion(ms, v) && current < v <= target
    decreases |ms|
  {
    if ms != [] {
      var init, m := ms[..|ms| - 1], ms[|ms| - 1];
      hide HasVersion;
      UpListMembers(init, current, target);
      AllBelowLast(ms, UpList(init, current, target));
      LastVersionIsThere(ms);
    }
  }

  /** Some migration of this version has an Up function. */
  ghost predicate HasUp(ms: seq<Migration>, v: nat) {
    exists i :: 0 <= i < |ms| && ms[i].version == v && ms[i].up
  }

  /** Some migration of this version has a Down function. */
  ghost predicate HasDown(ms: seq<Migration>, v: nat) {
    exists i :: 0 <= i < |ms| && ms[i].version == v && ms[i].down
  }

  /** The due Ups are exactly the versions with an Up function above the current one and up to the target. */
  lemma {:induction false} UpListIs(ms: seq<Migration>, current: nat, target: nat, v: nat)
    ensures v in UpList(ms, current, target) <==> HasUp(ms, v) && current < v <= target
    decreases |ms|
  {
    if ms != [] {
      var init, m := ms[..|ms| - 1], ms[|ms| - 1];
      UpListIs(init, current, target, v);
      if HasUp(init, v) {
        var i :| 0 <= i < |init| && init[i].version == v && init[i].up;
        assert ms[i] == init[i];
      }
      if HasUp(ms, v) {
        var i :| 0 <= i < |ms| && ms[i].version == v && ms[i].up;
        assert i < |init| ==> init[i] == ms[i];
      }
    }
  }

  /** The due Downs are exactly the versions with a Down function above the target and up to the current one. */
  lemma {:induction false} DownListIs(ms: seq<Migration>, current: nat, target: nat, v: nat)
    ensures v in DownList(ms, current, target) <==> HasDown(ms, v) && target < v <= current
    decreases |ms|
  {
    if ms != [] {
      var init, m := ms[..|ms| - 1], ms[|ms| - 1];
      DownListIs(init, current, target, v);
      if HasDown(init, v) {
        var i :| 0 <= i < |init| && init[i].version == v && init[i].down;
        assert ms[i] == init[i];
      }
      if HasDown(ms, v) {
        var i :| 0 <= i < |ms| && ms[i].version == v && ms[i].down;
        assert i < |init| ==> init[i] == ms[i];
      }
    }
  }

  // ----- what one start does

  /** What an upgrade did: all Ups in the interval in order, or those before one that fails. */
  ghost predicate Upgraded(ms: seq<Migration>, current: nat, target: nat, ok: nat -> bool, o: Outcome) {
    && Ascending(o.ran)
    && (forall v: nat :: v in o.ran ==> HasUp(ms, v) && current < v <= target && ok(v))
    && (!o.failed ==> o.write == Some(target))
    && (!o.failed ==> forall v: nat :: HasUp(ms, v) && current < v <= target ==> v in o.ran)
    && (o.failed ==> o.write == if o.ran == [] then None else Some(o.ran[|o.ran| - 1]))
    && (o.failed ==> exists f :: UpgradeStopsAt(ms, current, target, ok, o.ran, f))
  }

  ghost predicate UpgradeStopsAt(
    ms: seq<Migration>, current: nat, target: nat, ok: nat -> bool, ran: seq<nat>, f: nat) {
    && HasUp(ms, f) && current < f <= target && !ok(f)
    && forall v: nat :: v in ran <==> HasUp(ms, v) && current < v < f
  }

  /** What a downgrade did: all Downs in the interval, last first, or those before one that fails. */
  ghost predicate Downgraded(ms: seq<Migration>, current: nat, target: nat, ok: nat -> bool, o: Outcome) {
    && Descending(o.ran)
    && (forall v: nat :: v in o.ran ==> HasDown(ms, v) && target < v <= current && ok(v))
    && (!o.failed ==> o.write == Some(target))
    && (!o.failed ==> forall v: nat :: HasDown(ms, v) && target < v <= current ==> v in o.ran)
    && (o.failed ==> o.write == if o.ran == [] then None else Some(o.ran[|o.ran| - 1]))
    && (o.failed ==> exists f :: DowngradeStopsAt(ms, current, target, ok, o.ran, f))
  }

  ghost predicate DowngradeStopsAt(
    ms: seq<Migration>, current: nat, target: nat, ok: nat -> bool, ran: seq<nat>, f: nat) {
    && HasDown(ms, f) && target < f <= current && !ok(f)
    && forall v: nat :: v in ran <==> HasDown(ms, v) && f < v <= current
  }

  lemma {:induction false} AscendingPrefix(l: seq<nat>, k: nat, v: nat)
    requires Ascending(l) && k < |l|
    ensures v in l[..k] <==> v in l && v < l[k]
  {
    if v in l {
      var i :| 0 <= i < |l| && l[i] == v;
      assert i < k ==> l[..k][i] == v;
    }
  }

  lemma {:induction false} DescendingPrefix(l: seq<nat>, k: nat, v: nat)
    requires Descending(l) && k < |l|
    ensures v in l[..k] <==> v in l && v > l[k]
  {
    if v in l {
      var i :| 0 <= i < |l| && l[i] == v;
      assert i < k ==> l[..k][i] == v;
    }
  }

  /** Main result: one start of an upgrade, in terms of the migrations, their functions and what fails. */
  lemma {:induction false} OneStartUpgrades(current: nat, target: nat, ms: seq<Migration>, ok: nat -> bool)
    requires Increasing(ms) && 0 < current < target
    ensures Upgraded(ms, current, target, ok, Applied(current, target, ms, ok))
  {
    var due, o := UpList(ms, current, target), Applied(current, target, ms, ok);
    UpgradeOutcome(current, target, ms, ok);
    UpListMembers(ms, current, target);
    AttemptShape(due, ok);
    var k := |Attempt(due, ok)|;
    forall v: nat
      ensures v in due <==> HasUp(ms, v) && current < v <= target
    {
      UpListIs(ms, current, target, v);
    }
    assert due[..|due|] == due;
    if o.failed {
      assert due[k] in due;
      forall v: nat
        ensures v in o.ran <==> HasUp(ms, v) && current < v < due[k]
      {
        AscendingPrefix(due, k, v);
      }
      assert UpgradeStopsAt(ms, current, target, ok, o.ran, due[k]);
    }
  }

  lemma UpgradeOutcome(current: nat, target: nat, ms: seq<Migration>, ok: nat -> bool)
    requires 0 < current < target
    ensures Applied(current, target, ms, ok) == OutcomeOf(UpList(ms, current, target), target, ok)
  {
    if ms == [] {
      AllAttempted([], target, ok);
    }
  }

  /** Main result: one start of a downgrade, in the same terms. */
  lemma {:induction false} OneStartDowngrades(current: nat, target: nat, ms: seq<Migration>, ok: nat -> bool)
    requires Increasing(ms) && 0 < target < current
    ensures Downgraded(ms, current, target, ok, Applied(current, target, ms, ok))
  {
    var due, o := DownList(ms, current, target), Applied(current, target, ms, ok);
    DowngradeOutcome(current, target, ms, ok);
    DownListMembers(ms, current, target);
    AttemptShape(due, ok);
    var k := |Attempt(due, ok)|;
    forall v: nat
      ensures v in due <==> HasDown(ms, v) && target < v <= current
    {
      DownListIs(ms, current, target, v);
    }
    assert due[..|due|] == due;
    if o.failed {
      assert due[k] in due;
      forall v: nat
        ensures v in o.ran <==> HasDown(ms, v) && due[k] < v <= current
      {
        DescendingPrefix(due, k, v);
      }
      assert DowngradeStopsAt(ms, current, target, ok, o.ran, due[k]);
    }
  }

  /** The starts that migrate nothing, and the first run, which may only initialise. */
  lemma OtherStarts(current: nat, target: nat, ms: seq<Migration>, ok: nat -> bool)
    ensures Applied(target, target, ms, ok) == Outcome(None, false, [])
    ensures current != target ==> Applied(current, target, [], ok) == Outcome(Some(target), false, [])
    ensures target > 0 && ms != [] && ms[0].version > 0 ==>
      Applied(0, target, ms, ok) == Outcome(Some(target), false, [])
    ensures target > 0 && ms != [] && ms[0].version == 0 && ms[0].up && ok(0) ==>
      Applied(0, target, ms, ok) == Outcome(Some(target), false, [0])
    ensures target > 0 && ms != [] && ms[0].version == 0 && !(ms[0].up && ok(0)) ==>
      Applied(0, target, ms, ok) == Outcome(Some(0), true, [])
  {
  }

  /** Splitting an upgrade at any version in between splits the list of due migrations. */
  lemma {:induction false} UpListSplits(ms: seq<Migration>, from: nat, mid: nat, to: nat)
    requires Increasing(ms) && from <= mid <= to
    ensures UpList(ms, from, to) == UpList(ms, from, mid) + UpList(ms, mid, to)
    decreases |ms|
  {
    if ms != [] {
      var init, m := ms[..|ms| - 1], ms[|ms| - 1];
      UpListSplits(init, from, mid, to);
      assert ms == init + [m];
      if m.version <= mid {
        NothingDueAbove(init, m.version, mid, to);
      }
    }
  }

  lemma {:induction false} NothingDueAbove(ms: seq<Migration>, bound: nat, current: nat, target: nat)
    requires bound <= current && forall i :: 0 <= i < |ms| ==> ms[i].version < bound
    ensures UpList(ms, current, target) == []
    decreases |ms|
  {
    if ms != [] {
      NothingDueAbove(ms[..|ms| - 1], bound, current, target);
    }
  }

  /** A prefix of the due list that ends at version `v` is the list due up to `v`. */
  lemma {:induction false} PrefixIsDueUpTo(ms: seq<Migration>, current: nat, target: nat, k: nat)
    requires Increasing(ms) && 0 < k <= |UpList(ms, current, target)|
    ensures var l := UpList(ms, current, target);
      l[..k] == UpList(ms, current, l[k - 1]) && l[k..] == UpList(ms, l[k - 1], target)
  {
    var l := UpList(ms, current, target);
    var v := l[k - 1];
    UpListMembers(ms, current, target);
    assert v in l;
    UpListSplits(ms, current, v, target);
    UpListMembers(ms, current, v);
    UpListMembers(ms, v, target);
    var a, b := UpList(ms, current, v), UpList(ms, v, target);
    assert l == a + b;
    assert b != [] ==> b[0] in b && v < b[0];
    assert a != [] ==> a[|a| - 1] in a && a[|a| - 1] <= v;
  }

  /**
    Main result: for increasing migrations and a start above 0.0.0, whatever fails in
    whatever restart, what ran so far are exactly the migrations from the start up to the
    stored version, each once and in order, the version is between start and target, and
    a restart never lowers it. Once the target is reached, all of them ran.
   */
  lemma {:induction false} UpgradeRunsEachOnce(start: nat, target: nat, ms: seq<Migration>, oks: seq<nat -> bool>)
    requires Increasing(ms) && 0 < start <= target
    ensures var s := Restarts(State(start, []), target, ms, oks);
      && start <= s.version <= target
      && s.ran == UpList(ms, start, s.version)
      && (oks != [] ==> Restarts(State(start, []), target, ms, oks[..|oks| - 1]).version <= s.version)
    decreases |oks|
  {
    if oks == [] {
      NothingDueNow(ms, start);
    } else {
      var before := Restarts(State(start, []), target, ms, oks[..|oks| - 1]);
      UpgradeRunsEachOnce(start, target, ms, oks[..|oks| - 1]);
      OneUpgrade(start, before.version, target, ms, oks[|oks| - 1]);
    }
  }

  /** A start of some release of the service: the version it asks for, and what would succeed in it. */
  datatype Start = Start(target: nat, ok: nat -> bool)

  function Starts(s: State, ms: seq<Migration>, starts: seq<Start>): State {
    if starts == [] then s
    else
      var last := starts[|starts| - 1];
      Restart(Starts(s, ms, starts[..|starts| - 1]), last.target, ms, last.ok)
  }

  /** No start asks for less than what is stored when it comes. */
  predicate OnlyUpward(s: State, ms: seq<Migration>, starts: seq<Start>) {
    starts == [] ||
    (OnlyUpward(s, ms, starts[..|starts| - 1])
     && Starts(s, ms, starts[..|starts| - 1]).version <= starts[|starts| - 1].target)
  }

  /**
    The same for starts whose targets change, as releases do, as long as none is below the
    stored version: what ran are exactly the migrations up to the stored version, each once
    and in order, and every start reaches its own target or fails.
   */
  lemma {:induction false} ChangingTargetsRunEachOnce(start: nat, ms: seq<Migration>, starts: seq<Start>)
    requires Increasing(ms) && 0 < start && OnlyUpward(State(start, []), ms, starts)
    ensures var s := Starts(State(start, []), ms, starts);
      && start <= s.version && s.ran == UpList(ms, start, s.version)
      && (starts != [] ==>
        var before, last := Starts(State(start, []), ms, starts[..|starts| - 1]), starts[|starts| - 1];
        && before.version <= s.version <= last.target
        && (!Applied(before.version, last.target, ms, last.ok).failed ==> s.version == last.target))
    decreases |starts|
  {
    if starts == [] {
      NothingDueNow(ms, start);
    } else {
      var before, last := Starts(State(start, []), ms, starts[..|starts| - 1]), starts[|starts| - 1];
      ChangingTargetsRunEachOnce(start, ms, starts[..|starts| - 1]);
      OneUpgrade(start, before.version, last.target, ms, last.ok);
    }
  }

  /** Once the target is stored, what ran is every due Up once, in ascending order, and nothing else. */
  lemma ReachedTargetMeansAllRan(start: nat, target: nat, ms: seq<Migration>, oks: seq<nat -> bool>)
    requires Increasing(ms) && 0 < start <= target
    requires Restarts(State(start, []), target, ms, oks).version == target
    ensures Ascending(Restarts(State(start, []), target, ms, oks).ran)
    ensures forall v: nat :: v in Restarts(State(start, []), target, ms, oks).ran <==>
      HasUp(ms, v) && start < v <= target
  {
    UpgradeRunsEachOnce(start, target, ms, oks);
    UpListMembers(ms, start, target);
    var ran := Restarts(State(start, []), target, ms, oks).ran;
    forall v: nat
      ensures v in ran <==> HasUp(ms, v) && start < v <= target
    {
      UpListIs(ms, start, target, v);
    }
  }

  lemma {:induction false} NothingDueNow(ms: seq<Migration>, v: nat)
    ensures UpList(ms, v, v) == []
    decreases |ms|
  {
    if ms != [] {
      NothingDueNow(ms[..|ms| - 1], v);
    }
  }

  lemma OneUpgrade(start: nat, current: nat, target: nat, ms: seq<Migration>, ok: nat -> bool)
    requires Increasing(ms) && 0 < start <= current <= target
    ensures var o := Applied(current, target, ms, ok);
      var version := if o.write.Some? then o.write.value else current;
      && current <= version <= target && (!o.failed ==> version == target)
      && UpList(ms, start, current) + o.ran == UpList(ms, start, version)
  {
    hide Increasing, Ascending, HasVersion, Attempt;
    var o := Applied(current, target, ms, ok);
    if current == target {
      assert UpList(ms, start, current) + [] == UpList(ms, start, current);
    } else if ms == [] {
      assert UpList(ms, start, target) == [];
    } else {
      var due := UpList(ms, current, target);
      AttemptIsPrefix(due, ok);
      UpListSplits(ms, start, current, target);
      if o.failed && o.ran != [] {
        PrefixIsDueUpTo(ms, current, target, |o.ran|);
        UpListMembers(ms, current, target);
        var v := o.ran[|o.ran| - 1];
        assert v == due[|o.ran| - 1] && v in due;
        UpListSplits(ms, start, current, v);
      }
    }
  }

  /** A restart in which nothing fails reaches the target. */
  lemma CleanRestartFinishes(s: State, target: nat, ms: seq<Migration>, ok: nat -> bool)
    requires 0 < s.version <= target && forall v :: ok(v)
    ensures Restart(s, target, ms, ok).version == target
  {
    if s.version < target {
      AllSucceed(UpList(ms, s.version, target), ok);
    }
  }

  lemma {:induction false} AllSucceed(due: seq<nat>, ok: nat -> bool)
    requires forall v :: v in due ==> ok(v)
    ensures Attempt(due, ok) == due
  {
    if due != [] {
      assert due == [due[0]] + due[1..];
      AllSucceed(due[1..], ok);
    }
  }

  /** Without failures, upgrading in two steps runs what upgrading in one does. */
  lemma UpgradesCompose(current: nat, mid: nat, target: nat, ms: seq<Migration>, ok: nat -> bool)
    requires Increasing(ms) && 0 < current <= mid <= target && forall v :: ok(v)
    ensures Restart(Restart(State(current, []), mid, ms, ok), target, ms, ok)
      == Restart(State(current, []), target, ms, ok)
  {
    CleanRestartFinishes(State(current, []), mid, ms, ok);
    CleanRestartFinishes(State(mid, []), target, ms, ok);
    CleanRestartFinishes(State(current, []), target, ms, ok);
    OneUpgrade(current, current, mid, ms, ok);
    OneUpgrade(current, mid, target, ms, ok);
    OneUpgrade(current, current, target, ms, ok);
    NothingDueNow(ms, current);
    var r1 := Applied(current, mid, ms, ok).ran;
    assert [] + r1 == r1;
  }

  function Reversed(s: seq<nat>): seq<nat> {
    if s == [] then [] else [s[|s| - 1]] + Reversed(s[..|s| - 1])
  }

  /** When every migration has both directions, going down runs exactly the reverse of going up. */
  lemma {:induction false} DownIsReversedUp(ms: seq<Migration>, low: nat, high: nat)
    requires forall i :: 0 <= i < |ms| ==> ms[i].up && ms[i].down
    ensures DownList(ms, high, low) == Reversed(UpList(ms, low, high))
    decreases |ms|
  {
    if ms != [] {
      var init, m := ms[..|ms| - 1], ms[|ms| - 1];
      DownIsReversedUp(init, low, high);
      var l := UpList(init, low, high);
      assert (l + [m.version])[..|l|] == l;
      assert l + [] == l && [] + Reversed(l) == Reversed(l);
    }
  }

  /** A clean downgrade runs the reverse list and stores the target. */
  lemma DowngradeUndoesUpgrade(low: nat, high: nat, ms: seq<Migration>, ok: nat -> bool)
    requires 0 < low < high && ms != [] && (forall v :: ok(v))
    requires forall i :: 0 <= i < |ms| ==> ms[i].up && ms[i].down
    ensures Applied(high, low, ms, ok)
      == Outcome(Some(low), false, Reversed(Applied(low, high, ms, ok).ran))
  {
    DownIsReversedUp(ms, low, high);
    AllSucceed(UpList(ms, low, high), ok);
    AllSucceed(DownList(ms, high, low), ok);
  }

  lemma {:induction false} DownListMembers(ms: seq<Migration>, current: nat, target: nat)
    requires Increasing(ms)
    ensures Descending(DownList(ms, current, target))
    ensures forall v :: v in DownList(ms, current, target) ==> HasVersion(ms, v) && target < v <= current
    decreases |ms|
  {
    if ms != [] {
      var init, m := ms[..|ms| - 1], ms[|ms| - 1];
      hide HasVersion;
      DownListMembers(init, current, target);
      AllBelowLast(ms, DownList(init, current, target));
      LastVersionIsThere(ms);
    }
  }

  lemma DownListUnfolds(ms: seq<Migration>, current: nat, target: nat)
    ensures ms == [] ==> DownList(ms, current, target) == []
    ensures ms != [] ==>
      var head := if DueDown(ms[|ms| - 1], current, target) then [ms[|ms| - 1].version] else [];
      DownList(ms, current, target) == head + DownList(ms[..|ms| - 1], current, target)
  {
  }

  /** Splitting a downgrade at any version in between splits the list of due migrations. */
  lemma {:induction false} DownListSplits(ms: seq<Migration>, high: nat, mid: nat, low: nat)
    requires Increasing(ms) && low <= mid <= high
    ensures DownList(ms, high, low) == DownList(ms, high, mid) + DownList(ms, mid, low)
    decreases |ms|
  {
    hide DownList;
    DownListUnfolds(ms, high, low);
    DownListUnfolds(ms, high, mid);
    DownListUnfolds(ms, mid, low);
    if ms != [] {
      var init, m := ms[..|ms| - 1], ms[|ms| - 1];
      var a, b := DownList(init, high, mid), DownList(init, mid, low);
      DownListSplits(init, high, mid, low);
      if m.version <= mid {
        NothingToUndo(init, mid, high);
        assert [] + b == b;
      } else {
        var head := if DueDown(m, high, low) then [m.version] else [];
        assert [] + b == b;
        assert head + (a + b) == (head + a) + b;
      }
    }
  }

  lemma {:induction false} NothingToUndo(ms: seq<Migration>, bound: nat, current: nat)
    requires forall i :: 0 <= i < |ms| ==> ms[i].version < bound
    ensures DownList(ms, current, bound) == []
    decreases |ms|
  {
    if ms != [] {
      NothingToUndo(ms[..|ms| - 1], bound, current);
    }
  }

  /** From the version of the k-th due Down, the due list starts again with that same Down. */
  lemma DownListFrom(ms: seq<Migration>, current: nat, target: nat, k: nat)
    requires Increasing(ms) && k < |DownList(ms, current, target)|
    ensures var l := DownList(ms, current, target); DownList(ms, l[k], target) == l[k..]
  {
    hide DownList, Increasing;
    var l := DownList(ms, current, target);
    var v := l[k];
    DownListMembers(ms, current, target);
    assert v in l;
    DownListSplits(ms, current, v, target);
    DownListMembers(ms, current, v);
    DownListMembers(ms, v, target);
    var a, b := DownList(ms, current, v), DownList(ms, v, target);
    assert l == a + b;
    assert a != [] ==> a[|a| - 1] in a && a[|a| - 1] > v;
    assert b != [] ==> b[0] in b && b[0] <= v;
  }

  ghost predicate NoneTwice(l: seq<nat>) {
    forall i, j :: 0 <= i < j < |l| ==> l[i] != l[j]
  }

  /** The downgrade that starts from a stored version, and the one after it. */
  function TwoDowngrades(current: nat, target: nat, ms: seq<Migration>, ok: nat -> bool, ok': nat -> bool): State {
    Restart(Restart(State(current, []), target, ms, ok), target, ms, ok')
  }

  /** The part of a due list that an attempt gets done. */
  lemma AttemptShape(due: seq<nat>, ok: nat -> bool)
    ensures var k := |Attempt(due, ok)|;
      && k <= |due| && Attempt(due, ok) == due[..k]
      && (k < |due| ==> !ok(due[k])) && (forall v :: v in due[..k] ==> ok(v))
  {
    AttemptIsPrefix(due, ok);
    AttemptStops(due, ok);
  }

  lemma DowngradeOutcome(current: nat, target: nat, ms: seq<Migration>, ok: nat -> bool)
    requires 0 < target < current
    ensures Applied(current, target, ms, ok) == OutcomeOf(DownList(ms, current, target), target, ok)
  {
    hide DownList;
    DownListUnfolds(ms, current, target);
    if ms == [] {
      AllAttempted([], target, ok);
    }
  }

  /** What one start of a downgrade leaves stored, and what it ran. */
  lemma OneStart(current: nat, target: nat, ms: seq<Migration>, ok: nat -> bool, before: seq<nat>)
    requires 0 < target < current
    ensures var due := DownList(ms, current, target);
      var k := |Attempt(due, ok)|;
      && k <= |due|
      && Restart(State(current, before), target, ms, ok) ==
        State(if k == |due| then target else if k == 0 then current else due[k - 1], before + Attempt(due, ok))
  {
    hide DownList, Attempt, Applied;
    var due := DownList(ms, current, target);
    DowngradeOutcome(current, target, ms, ok);
    AttemptShape(due, ok);
    assert due[..|due|] == due;
  }

  /** What two starts run: the attempt of the first, then that of the second from where it stopped. */
  lemma TwoDowngradesRun(current: nat, target: nat, ms: seq<Migration>, ok: nat -> bool, ok': nat -> bool)
    requires Increasing(ms) && 0 < target < current
    ensures var due := DownList(ms, current, target);
      var k := |Attempt(due, ok)|;
      && k <= |due|
      && TwoDowngrades(current, target, ms, ok, ok').ran ==
        if k == |due| then due
        else if k == 0 then Attempt(due, ok')
        else due[..k] + Attempt(due[k - 1..], ok')
  {
    hide DownList, Attempt, Increasing, Descending, HasVersion, Restart;
    var due := DownList(ms, current, target);
    var k := |Attempt(due, ok)|;
    OneStart(current, target, ms, ok, []);
    AttemptShape(due, ok);
    var again := if k == 0 then Attempt(due, ok') else [];
    assert [] + due[..k] == due[..k] && [] + again == again;
    if k == |due| {
      assert due[..k] == due;
      NothingToStart(target, ms, ok', due);
    } else if k == 0 {
      assert due[..k] == [];
      OneStart(current, target, ms, ok', []);
    } else {
      DownListFrom(ms, current, target, k - 1);
      DownListMembers(ms, current, target);
      assert due[k - 1] in due;
      OneStart(due[k - 1], target, ms, ok', due[..k]);
    }
  }

  lemma NothingToStart(target: nat, ms: seq<Migration>, ok: nat -> bool, before: seq<nat>)
    ensures Restart(State(target, before), target, ms, ok) == State(target, before)
  {
    assert before + [] == before;
  }

  lemma {:induction false} AttemptStops(due: seq<nat>, ok: nat -> bool)
    ensures |Attempt(due, ok)| < |due| ==> !ok(due[|Attempt(due, ok)|])
  {
    AttemptIsPrefix(due, ok);
    if due != [] && ok(due[0]) {
      AttemptStops(due[1..], ok);
    }
  }

  lemma PrefixHasNoneTwice(l: seq<nat>, p: seq<nat>)
    requires Descending(l) && p <= l
    ensures NoneTwice(p)
  {
  }

  /**
    Main result: a downgrade whose first Down succeeds and another one fails stores the version it just
    undid, so the next start repeats exactly that Down and goes on with the ones left.
   */
  lemma FailedDowngradeRepeatsLastDown(current: nat, target: nat, ms: seq<Migration>, ok: nat -> bool, ok': nat -> bool)
    requires Increasing(ms) && 0 < target < current
    requires var due := DownList(ms, current, target);
      due != [] && ok(due[0]) && exists v :: v in due && !ok(v)
    requires forall v :: ok'(v)
    ensures var due, o := DownList(ms, current, target), Applied(current, target, ms, ok);
      var k := |o.ran|;
      && o.failed && 0 < k < |due| && o.ran == due[..k] && !ok(due[k]) && o.write == Some(due[k - 1])
      && Applied(due[k - 1], target, ms, ok') == Outcome(Some(target), false, [due[k - 1]] + due[k..])
  {
    hide DownList, Attempt, Applied, Increasing, HasVersion;
    var due, o := DownList(ms, current, target), Applied(current, target, ms, ok);
    DowngradeOutcome(current, target, ms, ok);
    AttemptShape(due, ok);
    AttemptHead(due, ok);
    var k := |o.ran|;
    assert due[..|due|] == due;
    NextDowngrade(current, target, ms, ok', k);
  }

  lemma NextDowngrade(current: nat, target: nat, ms: seq<Migration>, ok: nat -> bool, k: nat)
    requires Increasing(ms) && 0 < target < current && 0 < k <= |DownList(ms, current, target)|
    requires forall v :: ok(v)
    ensures var due := DownList(ms, current, target);
      Applied(due[k - 1], target, ms, ok) == Outcome(Some(target), false, [due[k - 1]] + due[k..])
  {
    hide DownList, Attempt, Applied, Increasing, HasVersion;
    var due := DownList(ms, current, target);
    DownListFrom(ms, current, target, k - 1);
    DownListMembers(ms, current, target);
    assert due[k - 1] in due;
    assert due[k - 1..] == [due[k - 1]] + due[k..];
    DowngradeOutcome(due[k - 1], target, ms, ok);
    AllSucceed(due[k - 1..], ok);
  }

  /**
    Main result: a downgrade that is started twice runs no Down twice if and only if the
    first start got nothing done, or got everything done, or the Down it did last fails when
    the second start, which finds its version stored, begins with it again.
   */
  lemma DowngradeRepeatsNothingIff(current: nat, target: nat, ms: seq<Migration>, ok: nat -> bool, ok': nat -> bool)
    requires Increasing(ms) && 0 < target < current
    ensures var due := DownList(ms, current, target);
      NoneTwice(TwoDowngrades(current, target, ms, ok, ok').ran) <==>
        || due == [] || !ok(due[0]) || (forall v :: v in due ==> ok(v))
        || !ok'(Restart(State(current, []), target, ms, ok).version)
  {
    hide DownList, Attempt, Increasing, HasVersion, Restart;
    var due := DownList(ms, current, target);
    TwoDowngradesRun(current, target, ms, ok, ok');
    OneStart(current, target, ms, ok, []);
    AttemptShape(due, ok);
    DownListMembers(ms, current, target);
    AttemptIsPrefix(due, ok');
    AttemptHead(due, ok);
    var k := |Attempt(due, ok)|;
    if k == |due| {
      PrefixHasNoneTwice(due, due);
      assert due[..k] == due;
    } else if k == 0 {
      PrefixHasNoneTwice(due, Attempt(due, ok'));
    } else {
      assert due[k] in due;
      var again := Attempt(due[k - 1..], ok');
      AttemptHead(due[k - 1..], ok');
      if ok'(due[k - 1]) {
        var ran := due[..k] + again;
        assert ran[k - 1] == due[k - 1] == ran[k];
      } else {
        assert due[..k] + [] == due[..k];
        PrefixHasNoneTwice(due, due[..k]);
      }
    }
  }

  lemma AttemptHead(due: seq<nat>, ok: nat -> bool)
    ensures due != [] && ok(due[0]) ==> Attempt(due, ok) != [] && Attempt(due, ok)[0] == due[0]
    ensures due == [] || !ok(due[0]) ==> Attempt(due, ok) == []
  {
  }

  /** The same for a second start in which nothing fails. */
  lemma CleanRetryRepeatsNothingIff(current: nat, target: nat, ms: seq<Migration>, ok: nat -> bool, ok': nat -> bool)
    requires Increasing(ms) && 0 < target < current && forall v :: ok'(v)
    ensures var due := DownList(ms, current, target);
      NoneTwice(TwoDowngrades(current, target, ms, ok, ok').ran) <==>
        due == [] || !ok(due[0]) || (forall v :: v in due ==> ok(v))
  {
    hide DownList, Restart, TwoDowngrades, NoneTwice, Increasing;
    DowngradeRepeatsNothingIff(current, target, ms, ok, ok');
  }

  /** Of two Downs, from version 3 to 1, the second fails once: the first runs twice. */
  lemma RepeatedDownExample(ok: nat -> bool, ok': nat -> bool)
    requires ok(3) && !ok(2) && ok'(3) && ok'(2)
    ensures var ms := [Migration(2, true, true), Migration(3, true, true)];
      TwoDowngrades(3, 1, ms, ok, ok') == State(1, [3, 3, 2])
  {
    var m2, m3 := Migration(2, true, true), Migration(3, true, true);
    assert [m2, m3][..1] == [m2] && [m2][..0] == [];
    assert DownList([m2], 3, 1) == [2];
    var due := DownList([m2, m3], 3, 1);
    assert due == [3, 2] && due[1..] == [2];
    assert Attempt([2], ok) == [] && Attempt(due, ok) == [3];
    assert [2][1..] == [] && Attempt([2], ok') == [2] && Attempt(due, ok') == [3, 2];
  }

  ghost predicate NonIncreasing(l: seq<nat>) {
    forall i, j :: 0 <= i < j < |l| ==> l[j] <= l[i]
  }

  /** How far a downgrade got through `all`: in descending order, with nothing above the version left. */
  ghost predicate Undone(all: seq<nat>, ran: seq<nat>, version: nat) {
    && NonIncreasing(ran)
    && (forall v :: v in ran ==> v in all && v >= version)
    && (forall v :: v in all && v > version ==> v in ran)
  }

  lemma UndoneAdvances(above: seq<nat>, due: seq<nat>, ran: seq<nat>, k: nat, current: nat, version: nat)
    requires Undone(above + due, ran, current) && Descending(due) && k <= |due| && version <= current
    requires forall v :: v in above ==> v > current
    requires forall v :: v in due ==> v <= current
    requires if k == |due| then forall v :: v in due ==> v > version
      else version == if k == 0 then current else due[k - 1]
    ensures Undone(above + due, ran + due[..k], version)
  {
    SplitAt(due, k);
    assert forall v :: v in due[..k] ==> v in due;
    OrderedConcat(ran, due[..k], current);
    forall v | v in above + due && v > version
      ensures v in ran + due[..k]
    {
      if v <= current {
        assert v in due;
        if k == 0 && due != [] {
          assert false;
        } else if k == |due| {
          assert due[..k] == due;
        }
      }
    }
    forall v | v in ran + due[..k]
      ensures v in above + due && v >= version
    {
      if v in due[..k] && v !in ran {
        assert v in due;
      }
    }
  }

  /**
    Main result: whatever fails in whatever restart, a downgrade runs its migrations in
    descending order, possibly repeating one, and has run all of them once the target is stored.
   */
  lemma {:induction false} DowngradeRunsAll(start: nat, target: nat, ms: seq<Migration>, oks: seq<nat -> bool>)
    requires Increasing(ms) && 0 < target <= start
    ensures var s := Restarts(State(start, []), target, ms, oks);
      target <= s.version <= start && Undone(DownList(ms, start, target), s.ran, s.version)
    decreases |oks|
  {
    hide DownList, Increasing;
    if oks == [] {
      DownListMembers(ms, start, target);
    } else {
      DowngradeRunsAll(start, target, ms, oks[..|oks| - 1]);
      OneDowngrade(Restarts(State(start, []), target, ms, oks[..|oks| - 1]), start, target, ms, oks[|oks| - 1]);
    }
  }

  /** Once the target of a downgrade is stored, the versions that ran are exactly those with a Down in the interval. */
  lemma DowngradedMeansAllRan(start: nat, target: nat, ms: seq<Migration>, oks: seq<nat -> bool>)
    requires Increasing(ms) && 0 < target <= start
    requires Restarts(State(start, []), target, ms, oks).version == target
    ensures NonIncreasing(Restarts(State(start, []), target, ms, oks).ran)
    ensures forall v: nat :: v in Restarts(State(start, []), target, ms, oks).ran <==>
      HasDown(ms, v) && target < v <= start
  {
    DowngradeRunsAll(start, target, ms, oks);
    var ran := Restarts(State(start, []), target, ms, oks).ran;
    forall v: nat
      ensures v in ran <==> HasDown(ms, v) && target < v <= start
    {
      DownListIs(ms, start, target, v);
    }
  }

  lemma OneDowngrade(s: State, start: nat, target: nat, ms: seq<Migration>, ok: nat -> bool)
    requires Increasing(ms) && 0 < target <= s.version <= start
    requires Undone(DownList(ms, start, target), s.ran, s.version)
    ensures var s' := Restart(s, target, ms, ok);
      target <= s'.version <= s.version && Undone(DownList(ms, start, target), s'.ran, s'.version)
  {
    hide DownList, Increasing, Attempt, Undone;
    if s.version == target || ms == [] {
      DownListUnfolds(ms, start, target);
      NothingMore(s.ran, s.version, target);
      assert s.ran + [] == s.ran;
    } else {
      var o := Applied(s.version, target, ms, ok);
      var due, above := DownList(ms, s.version, target), DownList(ms, start, s.version);
      AttemptIsPrefix(due, ok);
      assert o.ran == due[..|o.ran|];
      DownListSplits(ms, start, s.version, target);
      DownListMembers(ms, s.version, target);
      DownListMembers(ms, start, s.version);
      assert |o.ran| > 0 ==> due[|o.ran| - 1] in due;
      UndoneAdvances(above, due, s.ran, |o.ran|, s.version, Restart(s, target, ms, ok).version);
    }
  }

  lemma NothingMore(ran: seq<nat>, version: nat, target: nat)
    requires target <= version
    ensures Undone([], ran, version) ==> Undone([], ran, target)
  {
  }

  lemma OrderedConcat(a: seq<nat>, b: seq<nat>, mid: nat)
    requires NonIncreasing(a) && NonIncreasing(b)
    requires (forall v :: v in a ==> v >= mid) && (forall v :: v in b ==> v <= mid)
    ensures NonIncreasing(a + b)
  {
    forall i, j | 0 <= i < j < |a + b|
      ensures (a + b)[j] <= (a + b)[i]
    {
      if i < |a| <= j {
        assert a[i] in a && b[j - |a|] in b;
      }
    }
  }

  lemma SplitAt(due: seq<nat>, k: nat)
    requires k <= |due| && Descending(due)
    ensures NonIncreasing(due[..k])
    ensures k > 0 ==> forall v :: v in due && v > due[k - 1] ==> v in due[..k]
    ensures k > 0 ==> forall v :: v in due[..k] ==> v >= due[k - 1]
  {
    if k > 0 {
      forall v | v in due && v > due[k - 1]
        ensures v in due[..k]
      {
        var i :| 0 <= i < |due| && due[i] == v;
        assert i < k;
        assert due[..k][i] == v;
      }
    }
  }
}
