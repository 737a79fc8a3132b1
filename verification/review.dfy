/** Why a request may be fetched: its preflight verdict let it pass, or a reviewer approved it
    (internal/preflight/runner.go, internal/server/request_handlers.go, internal/admit/runner.go). */
module Review {
  import opened Procurement
  import opened ProcurementSteps
  import opened Wrappers

  predicate JudgedTo(r: Request, st: RequestState) {
    r.preflight.Some? && r.preflight.value.next == st
  }

  /** The checker let the request pass, or it asked for a review and a reviewer approved. */
  predicate MayBeFetched(s: World, id: nat) {
    id in s.rows && (JudgedTo(s.rows[id], AutoPass) || (JudgedTo(s.rows[id], NeedsReview) && id in s.hist.approved))
  }

  predicate RowReviewed(s: World, id: nat) {
    id in s.rows ==>
      match s.rows[id].state
      case Pending => s.rows[id].preflight.None?
      case Preflighting => s.rows[id].preflight.None?
      case NeedsReview => JudgedTo(s.rows[id], NeedsReview)
      case AutoPass => JudgedTo(s.rows[id], AutoPass)
      case Approved => MayBeFetched(s, id)
      case Fetching => MayBeFetched(s, id)
      case Indexed => MayBeFetched(s, id)
      case Denied => true
  }

  ghost predicate ReviewInv(s: World) {
    && (forall id | id in s.rows :: RowReviewed(s, id))
    && (forall p | p in s.hist.published :: MayBeFetched(s, p.0))
    && VerdictsValid(s)
  }

  /** What may be fetched stays so. */
  predicate Settled(s: World, s': World, id: nat) {
    MayBeFetched(s, id) ==> MayBeFetched(s', id)
  }

  lemma EnvReviewed(s: World, step: Step, id: nat)
    requires RowReviewed(s, id) && Enabled(s, step) && !PreStep(step) && !AdmitStep(step)
    ensures RowReviewed(AfterEnv(s, step), id) && Settled(s, AfterEnv(s, step), id)
  {
  }

  lemma PreReviewed(s: World, step: Step, id: nat)
    requires RowReviewed(s, id) && Enabled(s, step) && PreStep(step)
    ensures RowReviewed(AfterPre(s, step), id) && Settled(s, AfterPre(s, step), id)
  {
  }

  lemma AdmitReviewed(s: World, step: Step, maxRetries: nat, id: nat)
    requires RowReviewed(s, id) && Enabled(s, step) && AdmitStep(step) && CandidatesPassed(s, step)
    ensures RowReviewed(AfterAdmit(s, step, maxRetries), id) && Settled(s, AfterAdmit(s, step, maxRetries), id)
  {
  }

  lemma StepReviewed(s: World, step: Step, maxRetries: nat, id: nat)
    requires RowReviewed(s, id) && Enabled(s, step) && CandidatesPassed(s, step)
    ensures RowReviewed(After(s, step, maxRetries), id) && Settled(s, After(s, step, maxRetries), id)
  {
    if PreStep(step) {
      PreReviewed(s, step, id);
    } else if AdmitStep(step) {
      AdmitReviewed(s, step, maxRetries, id);
    } else {
      EnvReviewed(s, step, id);
    }
  }

  /** A receipt comes only from the owner of a row in fetching. */
  lemma NewReceipt(s: World, step: Step, maxRetries: nat, p: (nat, Text))
    requires Inv(s, maxRetries) && Enabled(s, step) && p in After(s, step, maxRetries).hist.published && p !in s.hist.published
    ensures p.0 in s.rows && s.rows[p.0].state == Fetching
  {
    assert step.RunAdmitOne? && p.0 == s.adm[step.w].snap.id;
    assert Admits(s.adm[step.w]) == Some(p.0) && InFetching(s, p.0);
  }

  lemma StepKeepsReview(s: World, step: Step, maxRetries: nat)
    requires Inv(s, maxRetries) && ReviewInv(s) && Enabled(s, step)
    ensures ReviewInv(After(s, step, maxRetries))
  {
    var s' := After(s, step, maxRetries);
    TriesPassed(s, step);
    forall id
      ensures RowReviewed(s', id) && Settled(s, s', id)
    {
      StepReviewed(s, step, maxRetries, id);
    }
    forall p | p in s'.hist.published
      ensures MayBeFetched(s', p.0)
    {
      if p !in s.hist.published {
        NewReceipt(s, step, maxRetries, p);
      }
      assert RowReviewed(s, p.0) && Settled(s, s', p.0);
    }
    VerdictsStayValid(s, step, maxRetries);
  }

  lemma {:induction false} RunKeepsReview(s: World, steps: seq<Step>, maxRetries: nat)
    requires Inv(s, maxRetries) && ReviewInv(s) && Run(s, steps, maxRetries)
    ensures ReviewInv(Execute(s, steps, maxRetries))
    decreases |steps|
  {
    if steps != [] {
      StepKeeps(s, steps[0], maxRetries);
      StepKeepsReview(s, steps[0], maxRetries);
      RunKeepsReview(After(s, steps[0], maxRetries), steps[1..], maxRetries);
    }
  }

  lemma ReachedReview(s: World, maxRetries: nat)
    requires Reached(s, maxRetries)
    ensures ReviewInv(s)
  {
    var steps, p: nat, a: nat :| Run(Start(map[], p, a), steps, maxRetries) && s == Execute(Start(map[], p, a), steps, maxRetries);
    StartInv(p, a, maxRetries);
    RunKeepsReview(Start(map[], p, a), steps, maxRetries);
  }

  // ----- Main results -----

  /** In every run, a request is let through, fetched or indexed only with a verdict that let it pass,
      or with one that asked for a review and a reviewer's approval; and one that waits for review was
      judged so. */
  lemma FetchedMeansReviewed(s: World, maxRetries: nat, id: nat)
    requires Reached(s, maxRetries) && id in s.rows
    ensures var r := s.rows[id];
            && (r.state == AutoPass || r.state == Approved || r.state == Fetching || r.state == Indexed ==>
                  r.preflight.Some? && (r.preflight.value.next == AutoPass
                                        || (r.preflight.value.next == NeedsReview && id in s.hist.approved)))
            && (r.state == AutoPass ==> r.preflight.value.next == AutoPass)
            && (r.state == NeedsReview ==> r.preflight.Some? && r.preflight.value.next == NeedsReview)
            && (r.state == Pending || r.state == Preflighting ==> r.preflight.None?)
  {
    ReachedReview(s, maxRetries);
    assert RowReviewed(s, id);
  }

  /** Nor is anything else ever published, also by an attempt whose row was then denied. */
  lemma PublishedMeansReviewed(s: World, maxRetries: nat, id: nat, commit: Text)
    requires Reached(s, maxRetries) && (id, commit) in s.hist.published
    ensures id in s.rows && s.rows[id].preflight.Some?
    ensures var next := s.rows[id].preflight.value.next; next == AutoPass || (next == NeedsReview && id in s.hist.approved)
  {
    ReachedReview(s, maxRetries);
    assert MayBeFetched(s, (id, commit).0);
  }

  /** A verdict in a run: it always can be written, and the row goes where it says. */
  lemma VerdictLands(s: World, w: nat, maxRetries: nat)
    requires Reached(s, maxRetries) && Enabled(s, Decide(w, true)) && s.pre[w].id !in s.hist.denied
    ensures var s', id, v := After(s, Decide(w, true), maxRetries), s.pre[w].id, s.pre[w].verdict;
            && id in s'.rows && s'.rows[id].state == v.next && s'.rows[id].preflight == Some(v)
            && (v.next == Denied && v.reason.Some? ==> s'.rows[id].denialReason == v.reason)
            && s'.pre[w] == PreIdle
  {
    ReachedInv(s, maxRetries);
    ReachedReview(s, maxRetries);
    DecideExact(s, w, true, maxRetries);
  }

  lemma ReviewWaits(s: World, step: Step, maxRetries: nat, id: nat)
    requires Inv(s, maxRetries) && Enabled(s, step)
    requires id in s.rows && s.rows[id].state == NeedsReview
    requires !(step.Approve? && step.id == id) && !(step.Deny? && step.id == id)
    ensures id in After(s, step, maxRetries).rows && After(s, step, maxRetries).rows[id] == s.rows[id]
  {
    TriesPassed(s, step);
    if step.Decide? {
      assert Checks(s.pre[step.w]) == Some(s.pre[step.w].id) && InPreflight(s, s.pre[step.w].id);
    }
    if step.Conclude? {
      assert Admits(s.adm[step.w]) == Some(s.adm[step.w].snap.id) && InFetching(s, s.adm[step.w].snap.id);
    }
  }

  /** A request that needs review stays as it is, over every run, until a reviewer acts on it. */
  lemma {:induction false} NeedsReviewStays(s: World, steps: seq<Step>, maxRetries: nat, id: nat)
    requires Inv(s, maxRetries) && Run(s, steps, maxRetries)
    requires id in s.rows && s.rows[id].state == NeedsReview
    requires forall step | step in steps :: !(step.Approve? && step.id == id) && !(step.Deny? && step.id == id)
    ensures id in Execute(s, steps, maxRetries).rows && Execute(s, steps, maxRetries).rows[id] == s.rows[id]
    decreases |steps|
  {
    if steps != [] {
      ReviewWaits(s, steps[0], maxRetries, id);
      StepKeeps(s, steps[0], maxRetries);
      NeedsReviewStays(After(s, steps[0], maxRetries), steps[1..], maxRetries, id);
    }
  }

  // ----- A reviewed request is admitted -----

  /** The second way is taken too: a run from the empty store in which a request that needed review is
      approved and owned. */
  lemma SomeReviewedIsOwned(maxRetries: nat, url: Text) returns (s: World)
    ensures Reached(s, maxRetries) && |s.adm| == 1 && s.adm[0].Owned? && s.adm[0].snap.id == 0
    ensures 0 in s.rows && s.rows[0].state == Fetching && JudgedTo(s.rows[0], NeedsReview) && 0 in s.hist.approved
  {
    var approved := SomeReviewedIsApproved(maxRetries, url);
    var c := Snapshot(0, Approved, approved.rows[0].sourceUrl, approved.rows[0].preflight);
    ListExact(approved, 0, [], [c]);
    ReachedNext(approved, AdmitList(0, [c]), maxRetries);
    var listed := After(approved, AdmitList(0, [c]), maxRetries);
    ReachedInv(listed, maxRetries);
    AdmitTryExact(listed, 0, true, maxRetries);
    ReachedNext(listed, AdmitTry(0, true), maxRetries);
    s := After(listed, AdmitTry(0, true), maxRetries);
  }

  lemma SomeReviewedIsApproved(maxRetries: nat, url: Text) returns (s: World)
    ensures Reached(s, maxRetries) && s.proc == Process(true, true, false) && |s.adm| == 1 && s.adm[0] == AdmitIdle
    ensures 0 in s.rows && s.rows[0].state == Approved && JudgedTo(s.rows[0], NeedsReview) && 0 in s.hist.approved
  {
    var waiting := SomeWaitsForReview(maxRetries, url);
    ApproveExact(waiting, 0, maxRetries);
    ReachedNext(waiting, Approve(0), maxRetries);
    s := After(waiting, Approve(0), maxRetries);
  }

  lemma SomeWaitsForReview(maxRetries: nat, url: Text) returns (s: World)
    ensures Reached(s, maxRetries) && s.proc == Process(true, true, false) && |s.adm| == 1 && s.adm[0] == AdmitIdle
    ensures 0 in s.rows && s.rows[0].state == NeedsReview && JudgedTo(s.rows[0], NeedsReview)
  {
    var checking := SomeRequestIsChecked(maxRetries, url);
    var v := Verdict(NeedsReview, None, None);
    CheckExact(checking, 0, v, maxRetries);
    ReachedNext(checking, Check(0, v), maxRetries);
    var deciding := After(checking, Check(0, v), maxRetries);
    ReachedInv(deciding, maxRetries);
    ReachedReview(deciding, maxRetries);
    assert InPreflight(deciding, 0);
    DecideExact(deciding, 0, true, maxRetries);
    ReachedNext(deciding, Decide(0, true), maxRetries);
    s := After(deciding, Decide(0, true), maxRetries);
  }
}
