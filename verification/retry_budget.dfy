/** How often one request is admitted in all (internal/admit/runner.go, internal/store/requests.go).

    The comment on the sweep promises that the retry budget goes on where it left off.  An owner
    starts again at attempt 0, so the runs of an ownership that a sweep ended are not counted
    against the next one.
 */
module RetryBudget {
  import opened Procurement
  import opened Wrappers

  function Sum(s: seq<nat>): nat {
    if s == [] then 0 else Sum(s[..|s| - 1]) + s[|s| - 1]
  }

  /** The latest ownership is not over, or it committed the request's end. */
  predicate Open(s: World, id: nat) {
    id in s.rows && (s.rows[id].state.Fetching? || id in s.hist.ended)
  }

  /** The runs are those of the ownerships that were swept back and those of the latest one. */
  ghost predicate Counted(s: World, maxRetries: nat, id: nat) {
    var t := TallyOf(s.hist, id);
    && t.runs == Sum(t.swept) + t.latest
    && t.won == |t.swept| + (if Open(s, id) then 1 else 0)
    && t.latest <= maxRetries + 1 && (forall n | n in t.swept :: n <= maxRetries + 1)
    && (!Open(s, id) ==> t.latest == 0)
    && (id in s.hist.ended ==> t.latest == |s.hist.ended[id].tries|)
    && (forall w | 0 <= w < |s.adm| && Admits(s.adm[w]) == Some(id) :: t.latest == |s.adm[w].tries|)
  }

  lemma SumMore(s: seq<nat>, n: nat)
    ensures Sum(s + [n]) == Sum(s) + n
  {
    assert (s + [n])[..|s|] == s;
  }

  lemma {:induction false} SumBounded(s: seq<nat>, m: nat)
    requires forall n | n in s :: n <= m
    ensures Sum(s) <= m * |s|
  {
    if s != [] {
      var rest := s[..|s| - 1];
      assert forall n | n in rest :: n in s;
      SumBounded(rest, m);
      OneMoreTime(m, |rest|);
      assert s[|s| - 1] in s && |s| == |rest| + 1;
    }
  }

  lemma OneMoreTime(m: nat, n: nat)
    ensures m * (n + 1) == m * n + m
  {
  }

  // ----- Every step counts -----

  lemma CountedSweep(s: World, maxRetries: nat, before: int, dbOk: bool, id: nat)
    requires EndedRow(s, id) && ProcessInv(s) && Counted(s, maxRetries, id) && Enabled(s, Sweep(before, dbOk))
    ensures Counted(AfterEnv(s, Sweep(before, dbOk)), maxRetries, id)
  {
    var t := TallyOf(s.hist, id);
    SumMore(t.swept, t.latest);
  }

  lemma CountedEnv(s: World, step: Step, maxRetries: nat, id: nat)
    requires EndedRow(s, id) && ProcessInv(s) && Counted(s, maxRetries, id)
    requires Enabled(s, step) && !PreStep(step) && !AdmitStep(step)
    ensures Counted(AfterEnv(s, step), maxRetries, id)
  {
    if step.Sweep? {
      CountedSweep(s, maxRetries, step.before, step.dbOk, id);
    }
  }

  lemma CountedPre(s: World, step: Step, maxRetries: nat, id: nat)
    requires EndedRow(s, id) && Counted(s, maxRetries, id) && Enabled(s, step) && PreStep(step)
    ensures Counted(AfterPre(s, step), maxRetries, id)
  {
  }

  lemma CountedTry(s: World, w: nat, dbOk: bool, maxRetries: nat, id: nat)
    requires OwnedRows(s) && EndedRow(s, id) && Counted(s, maxRetries, id)
    requires w < |s.adm| && s.adm[w].AdmitListed? && forall c | c in s.adm[w].cands :: c.state.AutoPass? || c.state.Approved?
    ensures Counted(AdmitTried(s, w, dbOk), maxRetries, id)
  {
    var s' := AdmitTried(s, w, dbOk);
    forall v | 0 <= v < |s'.adm| && Admits(s'.adm[v]) == Some(id)
      ensures TallyOf(s'.hist, id).latest == |s'.adm[v].tries|
    {
      if v != w {
        assert InFetching(s, id);
      }
    }
  }

  /** The number of attempts of a live owner is within its own budget. */
  lemma OwnedBounded(o: AdmitWorker, maxRetries: nat)
    requires o.Owned? && OwnedTries(o, maxRetries)
    ensures |o.tries| <= maxRetries + if o.mode.Concluding? then 1 else 0
  {
    if o.mode.Concluding? {
      AttemptsBounded(o.tries, maxRetries);
    } else {
      assert |o.tries| > maxRetries ==> !Decisive(o.tries[maxRetries], maxRetries, maxRetries);
    }
  }

  lemma CountedRun(s: World, w: nat, a: Attempt, maxRetries: nat, id: nat)
    requires OneOwner(s) && OwnedRows(s) && EndedRow(s, id) && Counted(s, maxRetries, id)
    requires w < |s.adm| && s.adm[w].Owned? && s.adm[w].mode.Trying? && OwnedTries(s.adm[w], maxRetries)
    ensures Counted(Attempted(s, w, a, maxRetries), maxRetries, id)
  {
    var s' := Attempted(s, w, a, maxRetries);
    OwnedBounded(s.adm[w], maxRetries);
    assert Admits(s.adm[w]) == Some(s.adm[w].snap.id) && InFetching(s, Admits(s.adm[w]).value);
    forall v | 0 <= v < |s'.adm| && Admits(s'.adm[v]) == Some(id)
      ensures TallyOf(s'.hist, id).latest == |s'.adm[v].tries|
    {
      if v != w {
        assert Admits(s.adm[v]) == Some(id) && Admits(s.adm[w]) != Some(id);
      }
    }
  }

  lemma CountedEnd(s: World, w: nat, dbOk: bool, maxRetries: nat, id: nat)
    requires OneOwner(s) && OwnedRows(s) && EndedRow(s, id) && Counted(s, maxRetries, id)
    requires w < |s.adm| && s.adm[w].Owned?
    ensures Counted(Concluded(s, w, dbOk), maxRetries, id)
  {
    assert Admits(s.adm[w]).Some? && InFetching(s, Admits(s.adm[w]).value);
  }

  lemma CountedAdmit(s: World, step: Step, maxRetries: nat, id: nat)
    requires Inv(s, maxRetries) && Counted(s, maxRetries, id) && Enabled(s, step) && AdmitStep(step)
    ensures Counted(AfterAdmit(s, step, maxRetries), maxRetries, id)
  {
    assert EndedRow(s, id);
    match step
    case AdmitList(_, _) =>
    case AdmitTry(w, dbOk) =>
      CandidatesTrue(s, w);
      CountedTry(s, w, dbOk, maxRetries, id);
    case RunAdmitOne(w, a) =>
      assert OwnedTries(s.adm[w], maxRetries);
      CountedRun(s, w, a, maxRetries, id);
    case Wake(_, _) =>
    case Conclude(w, dbOk) => CountedEnd(s, w, dbOk, maxRetries, id);
    case Audit(_) =>
  }

  lemma CountedStep(s: World, step: Step, maxRetries: nat, id: nat)
    requires Inv(s, maxRetries) && Counted(s, maxRetries, id) && Enabled(s, step)
    ensures Counted(After(s, step, maxRetries), maxRetries, id)
  {
    assert EndedRow(s, id);
    if PreStep(step) {
      CountedPre(s, step, maxRetries, id);
    } else if AdmitStep(step) {
      CountedAdmit(s, step, maxRetries, id);
    } else {
      CountedEnv(s, step, maxRetries, id);
    }
  }

  lemma {:induction false} CountedRunOf(s: World, steps: seq<Step>, maxRetries: nat, id: nat)
    requires Inv(s, maxRetries) && Counted(s, maxRetries, id) && Run(s, steps, maxRetries)
    ensures Counted(Execute(s, steps, maxRetries), maxRetries, id)
    decreases |steps|
  {
    if steps != [] {
      StepKeeps(s, steps[0], maxRetries);
      CountedStep(s, steps[0], maxRetries, id);
      CountedRunOf(After(s, steps[0], maxRetries), steps[1..], maxRetries, id);
    }
  }

  lemma ReachedCounted(s: World, maxRetries: nat, id: nat)
    requires Reached(s, maxRetries)
    ensures Counted(s, maxRetries, id)
  {
    var steps, p: nat, a: nat :| Run(Start(map[], p, a), steps, maxRetries) && s == Execute(Start(map[], p, a), steps, maxRetries);
    StartInv(p, a, maxRetries);
    CountedRunOf(Start(map[], p, a), steps, maxRetries, id);
  }

  // ----- Main results -----

  /** Every run of admitOne belongs to an ownership, each ownership makes at most maxRetries + 1 of
      them, and a request is owned once more than it is swept back while it is in fetching or
      ended, else as often. */
  lemma RunsBounded(s: World, maxRetries: nat, id: nat)
    requires Reached(s, maxRetries)
    ensures var t := TallyOf(s.hist, id);
            && t.runs <= (maxRetries + 1) * t.won
            && t.won == |t.swept| + (if Open(s, id) then 1 else 0)
            && t.runs == Sum(t.swept) + t.latest
            && t.latest <= maxRetries + 1
  {
    ReachedCounted(s, maxRetries, id);
    var t := TallyOf(s.hist, id);
    SumBounded(t.swept, maxRetries + 1);
    if Open(s, id) {
      OneMoreTime(maxRetries + 1, |t.swept|);
    }
  }

  /** Of an ended request, exactly: it had at most maxRetries + 1 runs in all if and only if the
      runs of its swept ownerships fit into what its retry count leaves. */
  lemma EndedWithinBudget(s: World, maxRetries: nat, id: nat)
    requires Reached(s, maxRetries) && id in s.hist.ended
    ensures id in s.rows
    ensures var t := TallyOf(s.hist, id);
            && t.runs == Sum(t.swept) + s.rows[id].retryCount + 1
            && (t.runs <= maxRetries + 1 <==> Sum(t.swept) + s.rows[id].retryCount <= maxRetries)
  {
    ReachedInv(s, maxRetries);
    ReachedCounted(s, maxRetries, id);
    assert EndedRow(s, id);
  }

  /** t comes after s in some run. */
  ghost predicate Later(s: World, t: World, maxRetries: nat) {
    exists steps :: Run(s, steps, maxRetries) && t == Execute(s, steps, maxRetries)
  }

  lemma LaterNext(s: World, t: World, step: Step, maxRetries: nat)
    requires Later(s, t, maxRetries) && Enabled(t, step)
    ensures Later(s, After(t, step, maxRetries), maxRetries)
  {
    var steps :| Run(s, steps, maxRetries) && t == Execute(s, steps, maxRetries);
    RunOneMore(s, steps, step, maxRetries);
  }

  lemma LaterSame(s: World, maxRetries: nat)
    ensures Later(s, s, maxRetries)
  {
    assert Run(s, [], maxRetries) && Execute(s, [], maxRetries) == s;
  }

  lemma LaterReached(s: World, t: World, maxRetries: nat)
    requires Reached(s, maxRetries) && Later(s, t, maxRetries)
    ensures Reached(t, maxRetries)
  {
    var steps :| Run(s, steps, maxRetries) && t == Execute(s, steps, maxRetries);
    ReachedLater(s, steps, maxRetries);
  }

  predicate Waiting(s: World, id: nat) {
    id in s.rows && (s.rows[id].state.AutoPass? || s.rows[id].state.Approved?)
  }

  /** Exactly when the budget holds for a request that waits to be admitted: it stays within
      maxRetries + 1 runs in all, in every run in which its row is not swept back again, if and only
      if no ownership that was swept back had made a run. */
  lemma BudgetExact(s: World, maxRetries: nat, id: nat)
    requires Reached(s, maxRetries) && Waiting(s, id) && s.adm != []
    ensures (forall t | Later(s, t, maxRetries) && TallyOf(t.hist, id).swept == TallyOf(s.hist, id).swept ::
               TallyOf(t.hist, id).runs <= maxRetries + 1)
            <==> Sum(TallyOf(s.hist, id).swept) == 0
  {
    if Sum(TallyOf(s.hist, id).swept) == 0 {
      forall t | Later(s, t, maxRetries) && TallyOf(t.hist, id).swept == TallyOf(s.hist, id).swept
        ensures TallyOf(t.hist, id).runs <= maxRetries + 1
      {
        LaterReached(s, t, maxRetries);
        ReachedCounted(t, maxRetries, id);
      }
    } else {
      var t := Exhausts(s, maxRetries, id);
      LaterReached(s, t, maxRetries);
      ReachedCounted(t, maxRetries, id);
    }
  }

  /** The process is restarted if need be; its sweep takes nothing. */
  lemma Restarted(s: World, maxRetries: nat) returns (t: World)
    ensures Later(s, t, maxRetries) && t.proc == Process(true, true, false)
    ensures t.rows == s.rows && t.hist.tallies == s.hist.tallies
    ensures |t.adm| == |s.adm| && forall w | 0 <= w < |t.adm| :: t.proc.up && (s.proc.up || s.adm[w].AdmitIdle? ==> t.adm[w].AdmitIdle?)
  {
    LaterSame(s, maxRetries);
    var down := s;
    if s.proc.up {
      down := Crashed(s);
      LaterNext(s, s, Crash, maxRetries);
      assert down == After(s, Crash, maxRetries);
    }
    var up := AfterEnv(down, Boot);
    LaterNext(s, down, Boot, maxRetries);
    t := AfterEnv(up, Sweep(0, false));
    LaterNext(s, up, Sweep(0, false), maxRetries);
  }

  lemma Won(s: World, maxRetries: nat, id: nat) returns (t: World)
    requires ProcessInv(s) && Waiting(s, id) && s.adm != []
    ensures Later(s, t, maxRetries) && t.proc == Process(true, true, false)
    ensures t.adm != [] && t.adm[0].Owned? && t.adm[0].snap.id == id && t.adm[0].tries == [] && t.adm[0].mode.Trying?
    ensures TallyOf(t.hist, id).swept == TallyOf(s.hist, id).swept && TallyOf(t.hist, id).latest == 0
  {
    var up := Restarted(s, maxRetries);
    assert up.adm[0].AdmitIdle?;
    var c := Snapshot(id, up.rows[id].state, up.rows[id].sourceUrl, up.rows[id].preflight);
    var listed := SetAdmit(up, 0, AdmitListed([c]));
    LaterNext(s, up, AdmitList(0, [c]), maxRetries);
    assert listed == After(up, AdmitList(0, [c]), maxRetries);
    t := AdmitTried(listed, 0, true);
    LaterNext(s, listed, AdmitTry(0, true), maxRetries);
    assert t == After(listed, AdmitTry(0, true), maxRetries);
  }

  /** k transient failures of the owner, with the wait after each but the last allowed one. */
  lemma {:induction false} FailsTimes(s: World, t: World, maxRetries: nat, id: nat, k: nat) returns (u: World)
    requires Later(s, t, maxRetries) && t.proc == Process(true, true, false) && k <= maxRetries + 1
    requires t.adm != [] && t.adm[0].Owned? && t.adm[0].snap.id == id && t.adm[0].tries == [] && t.adm[0].mode.Trying?
    requires TallyOf(t.hist, id).latest == 0
    ensures Later(s, u, maxRetries) && u.proc == t.proc
    ensures u.adm != [] && u.adm[0].Owned? && u.adm[0].snap.id == id && |u.adm[0].tries| == k
    ensures k <= maxRetries ==> u.adm[0].mode.Trying?
    ensures TallyOf(u.hist, id).swept == TallyOf(t.hist, id).swept && TallyOf(u.hist, id).latest == k
    decreases k
  {
    if k == 0 {
      u := t;
    } else {
      var v := FailsTimes(s, t, maxRetries, id, k - 1);
      var a := Failed(true, None);
      u := Attempted(v, 0, a, maxRetries);
      LaterNext(s, v, RunAdmitOne(0, a), maxRetries);
      assert u == After(v, RunAdmitOne(0, a), maxRetries);
      if k <= maxRetries {
        var w := u;
        u := SetAdmit(w, 0, w.adm[0].(mode := Trying));
        LaterNext(s, w, Wake(0, true), maxRetries);
        assert u == After(w, Wake(0, true), maxRetries);
      }
    }
  }

  /** A waiting request can be won and fail until its owner's own budget is used up. */
  lemma Exhausts(s: World, maxRetries: nat, id: nat) returns (t: World)
    requires Reached(s, maxRetries) && Waiting(s, id) && s.adm != []
    ensures Later(s, t, maxRetries)
    ensures TallyOf(t.hist, id).swept == TallyOf(s.hist, id).swept && TallyOf(t.hist, id).latest == maxRetries + 1
  {
    ReachedInv(s, maxRetries);
    var won := Won(s, maxRetries, id);
    t := FailsTimes(s, won, maxRetries, id, maxRetries + 1);
  }

  /** One run, a crash, a sweep, and an owner with a new budget: a request that gets more than
      maxRetries + 1 runs. */
  lemma SomeRequestOverruns(maxRetries: nat, url: Text) returns (s: World)
    ensures Reached(s, maxRetries) && TallyOf(s.hist, 0).runs == maxRetries + 2 && TallyOf(s.hist, 0).swept == [1]
  {
    var back := SomeRequestIsSweptBack(maxRetries, url);
    s := Exhausts(back, maxRetries, 0);
    LaterReached(back, s, maxRetries);
    ReachedCounted(s, maxRetries, 0);
    assert Sum([1]) == 1 by {
      SumMore([], 1);
      assert [] + [1] == [1];
    }
  }

  lemma SomeRequestIsSweptBack(maxRetries: nat, url: Text) returns (s: World)
    ensures Reached(s, maxRetries) && Waiting(s, 0) && s.adm != [] && TallyOf(s.hist, 0).swept == [1]
  {
    var up := SomeProcessRestarts(maxRetries, url);
    var before := up.rows[0].changedAt + 1;
    ReachedNext(up, Sweep(before, true), maxRetries);
    Swept(up, before, 0);
    s := After(up, Sweep(before, true), maxRetries);
    assert up.hist.tallies[0] == Tally(1, 1, [], 1) && [] + [1] == [1];
  }

  lemma SomeProcessRestarts(maxRetries: nat, url: Text) returns (s: World)
    ensures Reached(s, maxRetries) && s.proc == Process(true, false, false) && s.adm != []
    ensures 0 in s.rows && s.rows[0].state.Fetching? && 0 in s.hist.tallies && s.hist.tallies[0] == Tally(1, 1, [], 1)
  {
    var down := SomeOwnerDies(maxRetries, url);
    ReachedNext(down, Boot, maxRetries);
    s := After(down, Boot, maxRetries);
  }

  /** What a sweep that works does to a stuck row. */
  lemma Swept(s: World, before: int, id: nat)
    requires Enabled(s, Sweep(before, true)) && !s.proc.cancelled
    requires id in s.rows && Stuck(s.rows[id], before) && id in s.hist.tallies
    ensures var t, s' := s.hist.tallies[id], AfterEnv(s, Sweep(before, true));
            && Waiting(s', id) && s'.adm == s.adm
            && TallyOf(s'.hist, id) == t.(swept := t.swept + [t.latest], latest := 0)
  {
  }

  lemma SomeOwnerDies(maxRetries: nat, url: Text) returns (s: World)
    ensures Reached(s, maxRetries) && !s.proc.up && s.adm != []
    ensures 0 in s.rows && s.rows[0].state.Fetching? && TallyOf(s.hist, 0) == Tally(1, 1, [], 1) && 0 in s.hist.tallies
  {
    var owned := SomeRequestIsOwned(maxRetries, url);
    var a := Failed(true, None);
    var tried := Attempted(owned, 0, a, maxRetries);
    ReachedNext(owned, RunAdmitOne(0, a), maxRetries);
    assert tried == After(owned, RunAdmitOne(0, a), maxRetries);
    s := Crashed(tried);
    ReachedNext(tried, Crash, maxRetries);
    assert s == After(tried, Crash, maxRetries);
  }
}
